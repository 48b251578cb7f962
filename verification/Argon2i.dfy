/** Argon2i on one lane: which block refers to which, and the loop that fills the memory. */
module Argon2i {
  import opened Words
  import opened Bits

  type Words128 = w: seq<u64> | |w| == 128 witness seq(128, _ => 0)

  /** The pseudo-random block for a pass, slice, number of blocks, number of passes and counter. */
  type Generator = (u32, u32, u32, u32, u32) -> Words128

  // ---------------------------------------------------------------------
  // Section 3.4 of RFC 9106, with blocks numbered in the order in which they are computed
  // ---------------------------------------------------------------------

  /** The size of the memory and of a segment, and the number of passes. */
  datatype Shape = Shape(segment: nat, passes: nat) {
    function Blocks(): nat { 4 * segment }
    predicate Valid() { 2 <= segment && Blocks() < TWO32 && passes < TWO32 }
  }

  /** The first of the blocks that time t may refer to: those of the current segment and of the three
      before it, as far as there are any. */
  function Oldest(s: Shape, t: nat): (o: nat)
    requires s.segment > 0
  {
    var segmentStart := t / s.segment * s.segment;
    if segmentStart < 3 * s.segment then 0 else segmentStart - 3 * s.segment
  }

  /** The pseudo-random number J1 for time t: word o mod 128 of block o / 128 + 1 of its segment. */
  function J1(s: Shape, gen: Generator, t: nat): (j: u32)
    requires s.Valid() && t < s.Blocks() * s.passes
  {
    var o := t % s.segment;
    TimeParts(s, t);
    var pass, slice := t / s.Blocks(), t / s.segment % 4;
    gen(pass, slice, s.Blocks(), s.passes, o / 128 + 1)[o % 128] % TWO32
  }

  /** The non-uniform choice among the blocks from the oldest one to the last but one. */
  function Reference(s: Shape, gen: Generator, t: nat): (r: nat)
    requires s.Valid() && 2 <= t < s.Blocks() * s.passes
    ensures Oldest(s, t) <= r <= t - 2
  {
    AreaPositive(s, t);
    var area := t - 1 - Oldest(s, t);
    var j := J1(s, gen, t);
    var x := j as int * j / TWO32;
    var y := area * x / TWO32;
    Scaled(area, j);
    Oldest(s, t) + (area - 1 - y)
  }

  lemma TimeParts(s: Shape, t: nat)
    requires s.Valid() && t < s.Blocks() * s.passes
    ensures 0 <= t / s.Blocks() < s.passes && 0 <= t / s.segment && 0 <= t % s.segment < s.segment
  {
    QuotientBelow(t, s.Blocks(), s.passes);
    RemainderBelow(t, s.segment);
  }

  lemma RemainderBelow(t: nat, n: nat)
    requires n > 0
    ensures 0 <= t / n && 0 <= t % n < n
  {
  }

  lemma QuotientBelow(t: nat, n: nat, p: nat)
    requires n > 0 && t < n * p
    ensures 0 <= t / n < p
  {
    var q := t / n;
    assert t == q * n + t % n;
    if q >= p { MulOrder(p, q, n); }
  }

  /** There is a block to refer to. */
  lemma AreaPositive(s: Shape, t: nat)
    requires s.segment >= 2 && t >= 2
    ensures Oldest(s, t) <= t - 2
  {
    var q := t / s.segment;
    assert t == q * s.segment + t % s.segment;
    assert q * s.segment >= 3 * s.segment || q <= 2;
  }

  lemma Scaled(area: nat, j: u32)
    requires 0 < area
    ensures var x := j as int * j / TWO32; 0 <= x < TWO32 && 0 <= area * x / TWO32 <= area - 1
  {
    MulBound(j, j, TWO32 - 1, TWO32 - 1);
    var x := j as int * j / TWO32;
    assert 0 <= area * x <= area * (TWO32 - 1);
    assert area * (TWO32 - 1) < area * TWO32;
  }

  // ---------------------------------------------------------------------
  // gidx_ctx
  // ---------------------------------------------------------------------

  /** J1 in terms of pass, slice and offset. */
  lemma J1At(s: Shape, gen: Generator, pass: nat, slice: nat, offset: nat)
    requires s.Valid() && pass < s.passes && slice < 4 && offset < s.segment
    ensures var t := (4 * pass + slice) * s.segment + offset;
            t < s.Blocks() * s.passes
            && J1(s, gen, t) == gen(pass, slice, s.Blocks(), s.passes, offset / 128 + 1)[offset % 128] % TWO32
            && Oldest(s, t) == if 4 * pass + slice < 3 then 0 else (4 * pass + slice - 3) * s.segment
  {
    var k := 4 * pass + slice;
    var t := k * s.segment + offset;
    DivModUnique(t, s.segment, k, offset);
    SegmentOrder(s.segment, k, s.passes, offset);
    PassOf(s.segment, pass, slice, offset);
    if k < 3 { MulOrder(k + 1, 3, s.segment); } else { MulOrder(3, k, s.segment); }
  }

  lemma SegmentOrder(n: nat, k: nat, passes: nat, offset: nat)
    requires k < 4 * passes && offset < n
    ensures k * n + offset < 4 * n * passes
  {
    MulOrder(k + 1, 4 * passes, n);
    assert (k + 1) * n == k * n + n;
    assert 4 * passes * n == 4 * n * passes;
  }

  lemma PassOf(n: nat, pass: nat, slice: nat, offset: nat)
    requires slice < 4 && offset < n
    ensures ((4 * pass + slice) * n + offset) / (4 * n) == pass && (4 * pass + slice) % 4 == slice
  {
    MulOrder(slice, 3, n);
    assert (4 * pass + slice) * n + offset == pass * (4 * n) + (slice * n + offset);
    DivModUnique((4 * pass + slice) * n + offset, 4 * n, pass, slice * n + offset);
  }

  /** The area is not empty, and everything the source computes from it fits. */
  lemma AreaFits(s: Shape, nbSegments: nat, pass: nat, slice: nat, at: nat)
    requires s.Valid() && slice < 4 && at < s.segment && 2 <= (4 * pass + slice) * s.segment + at
    requires nbSegments == if pass == 0 then slice else 3
    ensures var n := s.segment;
            0 < nbSegments * n + at - 1 < TWO32 && 0 <= ((slice + 1) % 4) * n < TWO32
            && nbSegments * n + at - 1
               == (4 * pass + slice) * n + at - 1 - (if 4 * pass + slice < 3 then 0 else (4 * pass + slice - 3) * n)
  {
    var n := s.segment;
    MulOrder(nbSegments, 3, n);
    MulOrder((slice + 1) % 4, 3, n);
    if nbSegments >= 1 { MulOrder(1, nbSegments, n); }
    if pass > 0 { assert (4 * pass + slice) * n == (4 * pass + slice - 3) * n + 3 * n; }
  }

  /** The area may be counted from the start of the next slice, modulo the memory. */
  lemma SameStart(s: Shape, pass: nat, slice: nat, z: nat)
    requires s.segment > 0 && slice < 4
    ensures var n := s.segment;
            var start := if pass == 0 then 0 else ((slice + 1) % 4) * n;
            var oldest := if 4 * pass + slice < 3 then 0 else (4 * pass + slice - 3) * n;
            (start + z) % s.Blocks() == (oldest + z) % s.Blocks()
  {
    var n := s.segment;
    if pass > 0 {
      var c := if slice == 3 then pass else pass - 1;
      assert 4 * pass + slice - 3 == (slice + 1) % 4 + 4 * c;
      assert (4 * pass + slice - 3) * n == ((slice + 1) % 4) * n + c * (4 * n);
      ModCongruent((4 * pass + slice - 3) * n + z, ((slice + 1) % 4) * n + z, c, 4 * n);
    }
  }

  class GidxCtx {
    const gen: Generator
    var b: Words128
    var passNumber: u32
    var sliceNumber: u32
    var nbBlocks: u32
    var nbIterations: u32
    var ctr: u32
    var offset: u32

    constructor (gen: Generator)
      ensures this.gen == gen
    {
      this.gen := gen;
      b := seq(128, _ => 0);
      passNumber, sliceNumber, nbBlocks, nbIterations, ctr, offset := 0, 0, 0, 0, 0, 0;
    }

    /** The stream is ready for the word at position offset of a segment, if it needs no refresh. */
    ghost predicate At(s: Shape, pass: nat, slice: nat, at: nat)
      reads this
    {
      && passNumber == pass && sliceNumber == slice && nbBlocks == s.Blocks() && nbIterations == s.passes
      && offset == at && ctr == (at + 127) / 128
      && (at % 128 != 0 ==> b == gen(passNumber, sliceNumber, nbBlocks, nbIterations, ctr))
    }

    /** gidx_refresh */
    method Refresh()
      modifies `b
      ensures b == gen(passNumber, sliceNumber, nbBlocks, nbIterations, ctr)
    {
      b := gen(passNumber, sliceNumber, nbBlocks, nbIterations, ctr);
    }

    /** gidx_init: the first slice of the first pass starts at its third block. */
    method Init(pass: u32, slice: u32, nbBlocks: u32, nbIterations: u32, ghost s: Shape)
      requires nbBlocks == s.Blocks() && nbIterations == s.passes
      modifies this
      ensures At(s, pass, slice, if pass == 0 && slice == 0 then 2 else 0)
    {
      passNumber, sliceNumber, this.nbBlocks, this.nbIterations, ctr := pass, slice, nbBlocks, nbIterations, 0;
      if pass != 0 || slice != 0 {
        offset := 0;
      } else {
        offset := 2;
        ctr := ctr + 1;
        Refresh();
      }
    }

    /** The distance from the start of the area, with all products in 64 bits. */
    method Choose(areaSize: u32, j1: u64) returns (z: u64)
      requires 0 < areaSize && j1 < TWO32
      ensures z == areaSize - 1 - areaSize * (j1 * j1 / TWO32) / TWO32 && z < TWO32
    {
      Scaled(areaSize, j1);
      MulBound(j1, j1, TWO32 - 1, TWO32 - 1);
      var x: u64 := j1 * j1 / TWO32;
      MulBound(areaSize, x, TWO32 - 1, TWO32 - 1);
      var y: u64 := areaSize * x / TWO32;
      z := areaSize - 1 - y;
    }

    /** The offset moves on, and the words are refreshed where a new block of them starts. */
    method Advance(ghost s: Shape, ghost pass: nat, ghost slice: nat, ghost at: nat)
      returns (index: nat, offset0: u32)
      requires At(s, pass, slice, at) && at < s.segment && s.Valid()
      modifies `b, `ctr, `offset
      ensures At(s, pass, slice, at + 1) && offset0 == at && index == at % 128
      ensures b == gen(pass, slice, s.Blocks(), s.passes, at / 128 + 1)
    {
      if offset % 128 == 0 {
        ctr := ctr + 1;
        Refresh();
      }
      index, offset0 := offset % 128, offset;
      offset := offset + 1;
    }

    lemma Known(s: Shape, pass: nat, slice: nat, at: nat)
      requires At(s, pass, slice, at) && s.Valid()
      ensures passNumber == pass && sliceNumber == slice && nbBlocks == s.Blocks() && nbBlocks / 4 == s.segment
      ensures s.segment > 0
    {
    }

    /** gidx_next: the block that the one at time (4 * pass + slice) * segment + at refers to. */
    method Next(ghost s: Shape, ghost pass: nat, ghost slice: nat, ghost at: nat) returns (reference: u32)
      requires s.Valid() && pass < s.passes && slice < 4 && at < s.segment && 2 <= (4 * pass + slice) * s.segment + at
      requires At(s, pass, slice, at)
      modifies `b, `ctr, `offset
      ensures At(s, pass, slice, at + 1)
      ensures var t := (4 * pass + slice) * s.segment + at;
              t < s.Blocks() * s.passes && reference == Reference(s, gen, t) % s.Blocks()
    {
      hide J1, Oldest, At;
      J1At(s, gen, pass, slice, at);
      AreaFits(s, if pass == 0 then slice else 3, pass, slice, at);
      var index, offset0 := Advance(s, pass, slice, at);
      Known(s, pass, slice, at + 1);

      var firstPass := passNumber == 0;
      var sliceSize: u32 := nbBlocks / 4;
      var nbSegments: u32 := if firstPass then sliceNumber else 3;
      var areaSize: u32 := nbSegments * sliceSize + offset0 - 1;

      var nextSlice: u32 := ((sliceNumber + 1) % 4) * sliceSize;
      var startPos: u32 := if firstPass then 0 else nextSlice;

      var j1: u64 := b[index] % TWO32;
      var z := Choose(areaSize, j1);
      SameStart(s, pass, slice, z);
      reference := (startPos + z) % nbBlocks;
    }
  }

  // ---------------------------------------------------------------------
  // Safety of the references
  // ---------------------------------------------------------------------

  lemma DistinctInMemory(r: nat, t: nat, n: nat)
    requires n > 0 && r < t < r + n
    ensures r % n != t % n
  {
    if r % n == t % n {
      var k := t / n - r / n;
      assert t - r == k * n by { assert t == (t / n) * n + t % n && r == (r / n) * n + r % n; }
      SmallMultiple(k, n);
      assert false;
    }
  }

  lemma OldestBounds(s: Shape, t: nat)
    requires s.segment > 0
    ensures Oldest(s, t) <= t < Oldest(s, t) + s.Blocks()
    ensures Oldest(s, t) / s.segment >= t / s.segment - 3
  {
    var q, n := t / s.segment, s.segment;
    assert t == q * n + t % n;
    if q >= 3 {
      MulOrder(3, q, n);
      DivModUnique((q - 3) * n, n, q - 3, 0);
      assert q * n - 3 * n == (q - 3) * n;
    } else {
      MulOrder(q + 1, 3, n);
      DivModUnique(0, n, 0, 0);
    }
  }

  /** A reference goes to a block that was computed before the previous one, in this segment or in one of
      the three before it, and not again since; it is neither the block being computed nor the previous
      one. */
  lemma ReferenceSafe(s: Shape, gen: Generator, t: nat)
    requires s.Valid() && 2 <= t < s.Blocks() * s.passes
    ensures var r, n := Reference(s, gen, t), s.Blocks();
            r < t - 1 && t < r + n && r / s.segment >= t / s.segment - 3
            && r % n != t % n && r % n != (t - 1) % n
  {
    var r := Reference(s, gen, t);
    OldestBounds(s, t);
    QuotientOrder(Oldest(s, t), r, s.segment);
    DistinctInMemory(r, t, s.Blocks());
    DistinctInMemory(r, t - 1, s.Blocks());
  }

  lemma QuotientOrder(a: nat, b: nat, n: nat)
    requires n > 0 && a <= b
    ensures a / n <= b / n
  {
    var p, q := a / n, b / n;
    assert a == p * n + a % n && b == q * n + b % n;
    if p > q {
      MulOrder(q + 1, p, n);
      assert false;
    }
  }

  // ---------------------------------------------------------------------
  // Filling the memory
  // ---------------------------------------------------------------------

  /** How a block is made: from the previous and the reference block, and later also from what it was. */
  datatype Mixer<!B> = Mixer(copy: (B, B) -> B, mix: (B, B, B) -> B)

  /** The block computed at time t. */
  ghost function History<B>(s: Shape, gen: Generator, g: Mixer<B>, b0: B, b1: B, t: nat): B
    requires s.Valid() && (t < 2 || t < s.Blocks() * s.passes)
    decreases t
  {
    if t == 0 then b0 else if t == 1 then b1
    else
      var previous := History(s, gen, g, b0, b1, t - 1);
      var reference := History(s, gen, g, b0, b1, Reference(s, gen, t));
      if t < s.Blocks() then g.copy(previous, reference)
      else g.mix(History(s, gen, g, b0, b1, t - s.Blocks()), previous, reference)
  }

  /** Before time now, each block holds what was computed last at its place. */
  ghost predicate Filled<B>(blocks: seq<B>, s: Shape, gen: Generator, g: Mixer<B>, b0: B, b1: B, now: nat) {
    && s.Valid() && |blocks| == s.Blocks() && 2 <= now && (now == 2 || now <= s.Blocks() * s.passes)
    && forall t {:trigger History(s, gen, g, b0, b1, t)} ::
         0 <= t < now && now - s.Blocks() <= t ==> blocks[t % s.Blocks()] == History(s, gen, g, b0, b1, t)
  }

  lemma FilledStart<B>(blocks: seq<B>, s: Shape, gen: Generator, g: Mixer<B>)
    requires s.Valid() && |blocks| == s.Blocks()
    ensures Filled(blocks, s, gen, g, blocks[0], blocks[1], 2)
  {
    DivModUnique(0, s.Blocks(), 0, 0);
    DivModUnique(1, s.Blocks(), 0, 1);
  }

  lemma FilledUpdate<B>(blocks: seq<B>, s: Shape, gen: Generator, g: Mixer<B>, b0: B, b1: B, now: nat, next: B)
    requires Filled(blocks, s, gen, g, b0, b1, now) && now < s.Blocks() * s.passes
    requires next == History(s, gen, g, b0, b1, now)
    ensures Filled(blocks[now % s.Blocks() := next], s, gen, g, b0, b1, now + 1)
  {
    hide History;
    var n := s.Blocks();
    forall t {:trigger History(s, gen, g, b0, b1, t)} | 0 <= t < now + 1 && now + 1 - n <= t
      ensures blocks[now % n := next][t % n] == History(s, gen, g, b0, b1, t)
    {
      if t < now { DistinctInMemory(t, now, n); }
    }
  }

  /** What is read for the next block. */
  lemma FilledAt<B>(blocks: seq<B>, s: Shape, gen: Generator, g: Mixer<B>, b0: B, b1: B, now: nat, t: nat)
    requires Filled(blocks, s, gen, g, b0, b1, now) && t < now && now - s.Blocks() <= t
    ensures blocks[t % s.Blocks()] == History(s, gen, g, b0, b1, t)
  {
    hide History;
  }

  lemma SamePlace(now: nat, n: nat)
    requires n > 0 && now >= n
    ensures (now - n) % n == now % n
  {
    ModPlusMultiple(now - n, 1, n);
  }

  lemma HistoryNext<B>(s: Shape, gen: Generator, g: Mixer<B>, b0: B, b1: B, t: nat)
    requires s.Valid() && 2 <= t < s.Blocks() * s.passes
    ensures var previous := History(s, gen, g, b0, b1, t - 1);
            var reference := History(s, gen, g, b0, b1, Reference(s, gen, t));
            History(s, gen, g, b0, b1, t)
            == if t < s.Blocks() then g.copy(previous, reference)
               else g.mix(History(s, gen, g, b0, b1, t - s.Blocks()), previous, reference)
  {
    hide Reference;
  }

  /** One block: what the previous, the reference and the old block hold, and the new memory. */
  lemma FilledStep<B>(blocks: seq<B>, s: Shape, gen: Generator, g: Mixer<B>, b0: B, b1: B, now: nat)
    requires Filled(blocks, s, gen, g, b0, b1, now) && now < s.Blocks() * s.passes
    ensures var n := s.Blocks();
            var previous, reference := blocks[(now - 1) % n], blocks[Reference(s, gen, now) % n];
            var next := if now < n then g.copy(previous, reference) else g.mix(blocks[now % n], previous, reference);
            Filled(blocks[now % n := next], s, gen, g, b0, b1, now + 1)
  {
    hide History, Reference, Oldest;
    var n := s.Blocks();
    ReferenceSafe(s, gen, now);
    FilledAt(blocks, s, gen, g, b0, b1, now, now - 1);
    FilledAt(blocks, s, gen, g, b0, b1, now, Reference(s, gen, now));
    if now >= n {
      SamePlace(now, n);
      FilledAt(blocks, s, gen, g, b0, b1, now, now - n);
    }
    HistoryNext(s, gen, g, b0, b1, now);
    FilledUpdate(blocks, s, gen, g, b0, b1, now, History(s, gen, g, b0, b1, now));
  }

  /** The time at an offset of a segment; the first two blocks are there from the start. */
  ghost function Now(s: Shape, pass: nat, segment: nat, at: nat): (t: nat) {
    var t := (4 * pass + segment) * s.segment + at;
    if t < 2 then 2 else t
  }

  lemma NextSegment(s: Shape, pass: nat, segment: nat)
    requires s.Valid()
    ensures Now(s, pass, segment, s.segment) == Now(s, pass, segment + 1, 0)
    ensures Now(s, pass, 4, 0) == Now(s, pass + 1, 0, 0) && Now(s, 0, 0, 0) == 2
    ensures 4 * pass + segment > 0 ==> Now(s, pass, segment, 0) == (4 * pass + segment) * s.segment
  {
    var k := 4 * pass + segment;
    assert (k + 1) * s.segment == k * s.segment + s.segment;
    if k > 0 { MulOrder(1, k, s.segment); }
  }

  /** Where in the memory a time is, and where the time before it. */
  lemma Place(s: Shape, pass: nat, segment: nat, at: nat)
    requires s.Valid() && segment < 4 && at < s.segment && 2 <= (4 * pass + segment) * s.segment + at
    ensures var t, current := (4 * pass + segment) * s.segment + at, segment * s.segment + at;
            Now(s, pass, segment, at) == t && Now(s, pass, segment, at + 1) == t + 1
            && 0 <= current < s.Blocks() && t % s.Blocks() == current
            && (t - 1) % s.Blocks() == if current == 0 then s.Blocks() - 1 else current - 1
  {
    var n := s.Blocks();
    MulOrder(segment, 3, s.segment);
    var t, current := (4 * pass + segment) * s.segment + at, segment * s.segment + at;
    assert t == pass * n + current;
    DivModUnique(t, n, pass, current);
    if current == 0 {
      assert pass * n == (pass - 1) * n + n;
      DivModUnique(t - 1, n, pass - 1, n - 1);
    } else {
      DivModUnique(t - 1, n, pass, current - 1);
    }
  }

  /** One round of the innermost loop. */
  method FillBlock<B>(blocks: array<B>, n: u32, pass: u32, current: u32, ctx: GidxCtx, g: Mixer<B>,
                      ghost s: Shape, ghost segment: nat, ghost at: nat, ghost b0: B, ghost b1: B)
    requires s.Valid() && n == s.Blocks() == blocks.Length && pass < s.passes && segment < 4 && at < s.segment
    requires 2 <= (4 * pass + segment) * s.segment + at && current == segment * s.segment + at
    requires ctx.At(s, pass, segment, at) && Filled(blocks[..], s, ctx.gen, g, b0, b1, Now(s, pass, segment, at))
    modifies blocks, ctx`b, ctx`ctr, ctx`offset
    ensures ctx.At(s, pass, segment, at + 1) && Filled(blocks[..], s, ctx.gen, g, b0, b1, Now(s, pass, segment, at + 1))
  {
    hide History, Reference, Filled, Now, GidxCtx.At;
    Place(s, pass, segment, at);
    PassStart(s, pass, segment, at);
    ghost var was, t := blocks[..], (4 * pass + segment) * s.segment + at;
    var reference := ctx.Next(s, pass, segment, at);
    FilledStep(was, s, ctx.gen, g, b0, b1, t);
    var previous := if current == 0 then n - 1 else current - 1;
    if pass == 0 {
      blocks[current] := g.copy(blocks[previous], blocks[reference]);
    } else {
      blocks[current] := g.mix(blocks[current], blocks[previous], blocks[reference]);
    }
    assert blocks[..] == was[t % s.Blocks() := blocks[current]];
  }

  lemma PassStart(s: Shape, pass: nat, segment: nat, at: nat)
    requires s.Valid() && segment < 4 && at < s.segment
    ensures (4 * pass + segment) * s.segment + at < s.Blocks() <==> pass == 0
  {
    PassOf(s.segment, pass, segment, at);
    var t := (4 * pass + segment) * s.segment + at;
    assert t == (t / s.Blocks()) * s.Blocks() + t % s.Blocks();
  }

  method FillSegment<B>(blocks: array<B>, n: u32, nbIterations: u32, pass: u32, segment: u32, ctx: GidxCtx, g: Mixer<B>,
                        ghost s: Shape, ghost b0: B, ghost b1: B)
    requires s.Valid() && n == s.Blocks() == blocks.Length && nbIterations == s.passes && pass < s.passes && segment < 4
    requires Filled(blocks[..], s, ctx.gen, g, b0, b1, Now(s, pass, segment, 0))
    modifies blocks, ctx
    ensures Filled(blocks[..], s, ctx.gen, g, b0, b1, Now(s, pass, segment + 1, 0))
  {
    hide History, Reference, Filled, Now, GidxCtx.At;
    var segmentSize: u32 := n / 4;
    NextSegment(s, pass, segment);
    SegmentFits(s, segment);
    StartTime(s, pass, segment);
    ctx.Init(pass, segment, n, nbIterations, s);
    var startOffset := if pass == 0 && segment == 0 then 2 else 0;
    var segmentStart: u32 := segment * segmentSize + startOffset;
    var segmentEnd: u32 := (segment + 1) * segmentSize;
    for current: int := segmentStart to segmentEnd
      invariant ctx.At(s, pass, segment, current - segment * segmentSize)
      invariant Filled(blocks[..], s, ctx.gen, g, b0, b1, Now(s, pass, segment, current - segment * segmentSize))
    {
      LaterTime(s, pass, segment, current - segment * segmentSize, startOffset);
      FillBlock(blocks, n, pass, current, ctx, g, s, segment, current - segment * segmentSize, b0, b1);
    }
  }

  lemma SegmentFits(s: Shape, segment: nat)
    requires s.Valid() && segment < 4
    ensures segment * s.segment + s.segment == (segment + 1) * s.segment <= s.Blocks() && s.Blocks() / 4 == s.segment
    ensures 0 <= segment * s.segment
  {
    MulOrder(segment + 1, 4, s.segment);
  }

  lemma StartTime(s: Shape, pass: nat, segment: nat)
    requires s.Valid() && segment < 4
    ensures var o := if pass == 0 && segment == 0 then 2 else 0;
            Now(s, pass, segment, o) == Now(s, pass, segment, 0) && o <= s.segment
  {
    if 4 * pass + segment > 0 { MulOrder(1, 4 * pass + segment, s.segment); }
  }

  lemma LaterTime(s: Shape, pass: nat, segment: nat, at: nat, start: nat)
    requires s.Valid() && start <= at && start == if pass == 0 && segment == 0 then 2 else 0
    ensures 2 <= (4 * pass + segment) * s.segment + at
  {
    if 4 * pass + segment > 0 { MulOrder(1, 4 * pass + segment, s.segment); }
  }

  /** When block i is computed last. */
  ghost function LastTime(s: Shape, i: nat): (t: nat)
    requires s.Valid() && s.passes > 0 && i < s.Blocks()
    ensures t < s.Blocks() * s.passes && t % s.Blocks() == i
    ensures t < Now(s, s.passes, 0, 0) <= t + s.Blocks()
  {
    EndTime(s);
    DivModUnique((s.passes - 1) * s.Blocks() + i, s.Blocks(), s.passes - 1, i);
    (s.passes - 1) * s.Blocks() + i
  }

  lemma EndTime(s: Shape)
    requires s.Valid() && s.passes > 0
    ensures var base := (s.passes - 1) * s.Blocks();
            0 <= base && Now(s, s.passes, 0, 0) == base + s.Blocks() == s.Blocks() * s.passes
  {
    MulOrder(0, s.passes - 1, s.Blocks());
    assert 4 * s.passes * s.segment == s.Blocks() * s.passes;
  }

  lemma FilledEnd<B>(blocks: seq<B>, s: Shape, gen: Generator, g: Mixer<B>, b0: B, b1: B)
    requires s.Valid() && s.passes > 0 && Filled(blocks, s, gen, g, b0, b1, Now(s, s.passes, 0, 0))
    ensures |blocks| == s.Blocks()
    ensures forall i :: 0 <= i < s.Blocks() ==> blocks[i] == History(s, gen, g, b0, b1, LastTime(s, i))
  {
    hide History, LastTime, Now;
    forall i | 0 <= i < s.Blocks() ensures blocks[i] == History(s, gen, g, b0, b1, LastTime(s, i)) {
      FilledAt(blocks, s, gen, g, b0, b1, Now(s, s.passes, 0, 0), LastTime(s, i));
    }
  }

  /** The main loops of crypto_argon2i_general, after the first two blocks are filled: every block ends
      up as RFC 9106 computes it last. The number of blocks is rounded down to a multiple of four. */
  method Fill<B>(blocks: array<B>, nbBlocks: u32, nbIterations: u32, gen: Generator, g: Mixer<B>)
    requires blocks.Length == nbBlocks / 4 * 4 && 8 <= nbBlocks
    modifies blocks
    ensures var s := Shape(nbBlocks / 4, nbIterations);
            s.Valid() && blocks.Length == s.Blocks()
            && if nbIterations == 0 then blocks[..] == old(blocks[..])
               else forall i :: 0 <= i < s.Blocks() ==>
                 blocks[i] == History(s, gen, g, old(blocks[0]), old(blocks[1]), LastTime(s, i))
  {
    var n: u32 := nbBlocks - nbBlocks % 4;
    ghost var s := Shape(nbBlocks / 4, nbIterations);
    ghost var b0, b1 := blocks[0], blocks[1];
    var ctx := new GidxCtx(gen);
    FilledStart(blocks[..], s, gen, g);
    hide History, Reference, Filled, Now, LastTime;
    NextSegment(s, 0, 0);
    for pass := 0 to nbIterations
      invariant Filled(blocks[..], s, gen, g, b0, b1, Now(s, pass, 0, 0))
      invariant pass == 0 ==> blocks[..] == old(blocks[..])
    {
      for segment := 0 to 4
        invariant Filled(blocks[..], s, gen, g, b0, b1, Now(s, pass, segment, 0))
      {
        FillSegment(blocks, n, nbIterations, pass, segment, ctx, g, s, b0, b1);
      }
      NextSegment(s, pass, 0);
    }
    if nbIterations > 0 { FilledEnd(blocks[..], s, gen, g, b0, b1); }
  }

  // ---------------------------------------------------------------------
  // Wiping
  // ---------------------------------------------------------------------

  /** The bound of the wiping loop, a product of 32-bit numbers. */
  function WipeCount(nbBlocks: u32): (n: u32)
    ensures n <= 128 * nbBlocks as int
  {
    128 * nbBlocks as int % TWO32
  }

  /** The memory with its first n words set to zero. */
  ghost function Wiped(area: seq<u64>, n: nat): (r: seq<u64>)
    requires n <= |area|
    ensures |r| == |area|
  {
    seq(|area|, i requires 0 <= i < |area| => if i < n then 0 else area[i])
  }

  predicate AllZero(area: seq<u64>) {
    forall i :: 0 <= i < |area| ==> area[i] == 0
  }

  /** The loop that ends crypto_argon2i_general: 128 words a block, as far as the 32-bit bound goes. */
  method WipeWorkArea(area: array<u64>, nbBlocks: u32)
    requires area.Length == 128 * nbBlocks as int
    modifies area
    ensures area[..] == Wiped(old(area[..]), WipeCount(nbBlocks))
  {
    var bound := WipeCount(nbBlocks);
    for i := 0 to bound
      invariant area[..] == Wiped(old(area[..]), i)
    {
      area[i] := 0;
    }
  }

  /** Whatever the memory held, it is all zeros afterwards exactly for memories below 2^25 blocks. */
  lemma WipesEverything(nbBlocks: u32)
    ensures (forall area: seq<u64> :: |area| == 128 * nbBlocks as int ==> AllZero(Wiped(area, WipeCount(nbBlocks))))
            <==> nbBlocks < 0x200_0000
  {
    if nbBlocks >= 0x200_0000 {
      var n: nat := 128 * nbBlocks as int;
      var area: seq<u64> := seq(n, _ => 1);
      assert Wiped(area, WipeCount(nbBlocks))[n - 1] == area[n - 1] == 1;
    }
  }

  /** With 2^25 blocks, 32 GiB, the bound wraps to zero: nothing is wiped at all. */
  lemma WipesNothing(area: seq<u64>)
    requires |area| == 128 * 0x200_0000
    ensures Wiped(area, WipeCount(0x200_0000)) == area
  {
  }
}
