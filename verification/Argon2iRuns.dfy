/** What the references of Argon2i mean, and the filled memory as the end of a run of blocks. */
module Argon2iRuns {
  import opened Words
  import opened Argon2i

  /** The blocks that time t may refer to start with the third segment before the current one. */
  lemma OldestIs(s: Shape, t: nat, o: nat)
    requires s.segment > 0
    ensures o >= Oldest(s, t) <==> o / s.segment >= t / s.segment - 3
  {
    var q, n, p := t / s.segment, s.segment, o / s.segment;
    assert o == p * n + o % n;
    assert q * n - 3 * n == (q - 3) * n;
    if q >= 3 {
      MulOrder(3, q, n);
      if p >= q - 3 { MulOrder(q - 3, p, n); } else { MulOrder(p + 1, q - 3, n); }
    } else {
      MulOrder(q, 2, n);
    }
  }

  /** J1 = 0 refers to the last block allowed, the one before the previous one. */
  lemma LastAllowed(s: Shape, gen: Generator, t: nat)
    requires s.Valid() && 2 <= t < s.Blocks() * s.passes && J1(s, gen, t) == 0
    ensures Reference(s, gen, t) == t - 2
  {
    hide J1, Oldest;
    assert (t - 1 - Oldest(s, t)) * 0 == 0;
  }

  /** A larger J1 never refers to a later block. */
  lemma NeverLater(s: Shape, gen: Generator, more: Generator, t: nat)
    requires s.Valid() && 2 <= t < s.Blocks() * s.passes && J1(s, gen, t) <= J1(s, more, t)
    ensures Reference(s, more, t) <= Reference(s, gen, t)
  {
    AreaPositive(s, t);
    var area := t - 1 - Oldest(s, t);
    var j, k := J1(s, gen, t), J1(s, more, t);
    hide J1, Oldest;
    SquareOrder(j, k);
    Scaled(area, j);
    Scaled(area, k);
    MulOrder(j as int * j / TWO32, k as int * k / TWO32, area);
    QuotientOrder(area * (j as int * j / TWO32), area * (k as int * k / TWO32), TWO32);
  }

  lemma SquareOrder(j: nat, k: nat)
    requires j <= k
    ensures 0 <= j * j / TWO32 <= k * k / TWO32
  {
    MulOrder(j, k, j);
    MulOrder(j, k, k);
    QuotientOrder(j * j, k * k, TWO32);
  }

  /** The blocks in the order in which they are computed: each from the previous one, the reference, and from the
      second pass on also what was in its place. */
  ghost predicate IsRun<B>(h: seq<B>, s: Shape, gen: Generator, g: Mixer<B>) {
    && s.Valid() && s.passes > 0 && |h| == s.Blocks() * s.passes
    && forall t :: 2 <= t < |h| ==> Computed(h, s, gen, g, t)
  }

  ghost predicate Computed<B>(h: seq<B>, s: Shape, gen: Generator, g: Mixer<B>, t: nat)
    requires s.Valid() && |h| == s.Blocks() * s.passes && 2 <= t < |h|
  {
    var previous, reference := h[t - 1], h[Reference(s, gen, t)];
    h[t] == if t < s.Blocks() then g.copy(previous, reference) else g.mix(h[t - s.Blocks()], previous, reference)
  }

  lemma {:induction false} HistoryIs<B>(h: seq<B>, s: Shape, gen: Generator, g: Mixer<B>, t: nat)
    requires IsRun(h, s, gen, g) && t < |h|
    ensures |h| >= 2 && History(s, gen, g, h[0], h[1], t) == h[t]
    decreases t
  {
    hide Reference;
    Enough(s);
    if t >= 2 {
      assert Computed(h, s, gen, g, t);
      HistoryIs(h, s, gen, g, t - 1);
      HistoryIs(h, s, gen, g, Reference(s, gen, t));
      if t >= s.Blocks() { HistoryIs(h, s, gen, g, t - s.Blocks()); }
    }
  }

  lemma Enough(s: Shape)
    requires s.Valid() && s.passes > 0
    ensures s.Blocks() * s.passes >= 8
  {
    MulOrder(1, s.passes, s.Blocks());
  }

  /** The memory that filling leaves, block by block: the last pass of the run that starts from its first two blocks. */
  lemma FilledMemory<B>(h: seq<B>, blocks: seq<B>, s: Shape, gen: Generator, g: Mixer<B>)
    requires IsRun(h, s, gen, g) && |h| >= 2 && |blocks| == s.Blocks()
    requires forall i :: 0 <= i < s.Blocks() ==> blocks[i] == History(s, gen, g, h[0], h[1], LastTime(s, i))
    ensures blocks == h[|h| - s.Blocks()..]
  {
    hide History, LastTime, Computed;
    forall i | 0 <= i < s.Blocks() ensures blocks[i] == h[|h| - s.Blocks()..][i] {
      HistoryIs(h, s, gen, g, LastTime(s, i));
      LastTimeIs(s, i);
    }
  }

  lemma LastTimeIs(s: Shape, i: nat)
    requires s.Valid() && s.passes > 0 && i < s.Blocks()
    ensures LastTime(s, i) == s.Blocks() * s.passes - s.Blocks() + i
  {
    assert (s.passes - 1) * s.Blocks() == s.Blocks() * s.passes - s.Blocks();
  }
}
