/** Raaz's generator of random bytes: a buffer of generated blocks that is handed out from its end, every
    byte wiped as it leaves, with the first bytes taken as the generator's next seed. */
module RandomState {
  import opened Words
  import opened Bits

  // ---------------------------------------------------------------------
  // The primitive
  // ---------------------------------------------------------------------

  /** The seed consists of regions of the given sizes, and rest is what else the internals hold. The
      entropy pool is read a seed at a time. */
  datatype Prim<!R(!new)> = Prim(
    block: nat, bufferBlocks: nat, reseedAfter: nat, sizes: seq<nat>,
    randomBlocks: (seq<byte>, R) -> (seq<byte>, R), entropy: nat -> seq<byte>)
  {
    function BufferSize(): (n: nat) {
      block * bufferBlocks
    }

    /** The context must hold more than a seed, or no bytes would be left to hand out. */
    ghost predicate Suits() {
      && bufferBlocks >= 1 && Total(sizes) < BufferSize()
      && (forall seed, rest :: |randomBlocks(seed, rest).0| == BufferSize())
      && (forall i :: |entropy(i)| == Total(sizes))
    }
  }

  function Total(sizes: seq<nat>): (n: nat) {
    if sizes == [] then 0 else Total(sizes[..|sizes| - 1]) + sizes[|sizes| - 1]
  }

  lemma TotalNext(sizes: seq<nat>, i: nat)
    requires i < |sizes|
    ensures Total(sizes[..i + 1]) == Total(sizes[..i]) + sizes[i]
  {
    assert sizes[..i + 1][..i] == sizes[..i];
  }

  lemma {:induction false} TotalPrefix(sizes: seq<nat>, i: nat)
    requires i <= |sizes|
    ensures Total(sizes[..i]) <= Total(sizes)
    decreases |sizes| - i
  {
    if i < |sizes| {
      TotalNext(sizes, i);
      TotalPrefix(sizes, i + 1);
    } else {
      assert sizes[..i] == sizes;
    }
  }

  // ---------------------------------------------------------------------
  // What becomes of the generated bytes
  // ---------------------------------------------------------------------

  /** A generated byte, by its position in all that was generated, leaves the buffer as a random byte or
      as a byte of a seed. */
  datatype Use = Handed(pos: nat) | Seed(pos: nat)

  function Run(from: nat, n: nat, seeding: bool): (uses: seq<Use>)
    ensures |uses| == n
  {
    seq(n, i requires 0 <= i < n => if seeding then Seed(from + i) else Handed(from + i))
  }

  /** The random bytes among the uses. */
  ghost function HandedOut(uses: seq<Use>, produced: seq<byte>): (out: seq<byte>)
    requires Below(uses, |produced|)
  {
    if uses == [] then []
    else
      var last := uses[|uses| - 1];
      HandedOut(uses[..|uses| - 1], produced) + if last.Handed? then [produced[last.pos]] else []
  }

  ghost predicate Below(uses: seq<Use>, n: nat) {
    forall i :: 0 <= i < |uses| ==> uses[i].pos < n
  }

  ghost predicate NoRepeat(uses: seq<Use>) {
    forall i, j :: 0 <= i < j < |uses| ==> uses[i].pos != uses[j].pos
  }

  ghost predicate Avoids(uses: seq<Use>, from: int, to: int) {
    forall i :: 0 <= i < |uses| ==> !(from <= uses[i].pos < to)
  }

  lemma {:induction false} HandedMore(uses: seq<Use>, produced: seq<byte>, more: seq<byte>)
    requires Below(uses, |produced|)
    ensures HandedOut(uses, produced + more) == HandedOut(uses, produced)
  {
    if uses == [] {
    } else {
      HandedMore(uses[..|uses| - 1], produced, more);
    }
  }

  lemma {:induction false} HandedRun(uses: seq<Use>, from: nat, n: nat, seeding: bool, produced: seq<byte>)
    requires Below(uses, |produced|) && from + n <= |produced|
    ensures HandedOut(uses + Run(from, n, seeding), produced)
         == HandedOut(uses, produced) + if seeding then [] else produced[from..from + n]
  {
    var all := uses + Run(from, n, seeding);
    if n == 0 {
      assert all == uses;
    } else {
      assert all[..|all| - 1] == uses + Run(from, n - 1, seeding);
      HandedRun(uses, from, n - 1, seeding, produced);
    }
  }

  /** What is left after a part was wiped. */
  lemma StillHolds(was: seq<byte>, now: seq<byte>, last: seq<byte>, left: nat, n: nat)
    requires left + n <= |was| == |last| && was[..left + n] == last[..left + n] && ZeroFrom(was, left + n)
    requires now == was[..left] + Zeros(n) + was[left + n..]
    ensures now[..left] == last[..left] && ZeroFrom(now, left) && was[left..left + n] == last[left..][..n]
  {
    assert now[..left] == was[..left + n][..left] == last[..left];
    assert was[left..left + n] == was[..left + n][left..] == last[left..][..n];
  }

  lemma RunBelow(uses: seq<Use>, from: nat, n: nat, seeding: bool, all: nat)
    requires Below(uses, all) && from + n <= all
    ensures Below(uses + Run(from, n, seeding), all)
  {
  }

  lemma NewBuffer(uses: seq<Use>, produced: seq<byte>, bytes: seq<byte>)
    requires Below(uses, |produced|)
    ensures var all := produced + bytes;
            && all[|all| - |bytes|..][..|bytes|] == bytes && ZeroFrom(bytes, |bytes|)
            && Below(uses, |all|) && Avoids(uses, |all| - |bytes|, |all|)
  {
  }

  /** Taking the end of what is available keeps the uses apart. */
  lemma RunApart(uses: seq<Use>, base: nat, left: nat, n: nat, seeding: bool)
    requires NoRepeat(uses) && Avoids(uses, base, base + left + n)
    ensures var all := uses + Run(base + left, n, seeding);
            NoRepeat(all) && Avoids(all, base, base + left)
  {
  }

  /** The first n regions of the seed are the last bytes that were generated, the first region the very
      last ones. */
  ghost predicate Regions(sizes: seq<nat>, n: nat, seed: seq<byte>, produced: seq<byte>) {
    forall k :: 0 <= k < n ==> k < |sizes| && RegionIs(Total(sizes[..k]), sizes[k], seed, produced)
  }

  ghost predicate RegionIs(at: nat, size: nat, seed: seq<byte>, produced: seq<byte>) {
    && at + size <= |seed| && at + size <= |produced|
    && seed[at..at + size] == produced[|produced| - at - size..|produced| - at]
  }

  lemma RegionsNext(sizes: seq<nat>, n: nat, was: seq<byte>, now: seq<byte>, produced: seq<byte>)
    requires n < |sizes| && Regions(sizes, n, was, produced) && Total(sizes[..n]) <= |was| == |now|
    requires now[..Total(sizes[..n])] == was[..Total(sizes[..n])]
    requires RegionIs(Total(sizes[..n]), sizes[n], now, produced)
    ensures Regions(sizes, n + 1, now, produced)
  {
    hide RegionIs;
    var end := Total(sizes[..n]);
    forall k | 0 <= k < n ensures RegionIs(Total(sizes[..k]), sizes[k], now, produced) {
      TotalOrder(sizes, k, n);
      OldRegion(Total(sizes[..k]), sizes[k], end, was, now, produced);
    }
  }

  lemma TotalOrder(sizes: seq<nat>, k: nat, n: nat)
    requires k < n <= |sizes|
    ensures Total(sizes[..k]) + sizes[k] <= Total(sizes[..n])
  {
    TotalNext(sizes, k);
    TotalPrefix(sizes[..n], k + 1);
    assert sizes[..n][..k + 1] == sizes[..k + 1];
  }

  lemma OldRegion(at: nat, size: nat, end: nat, was: seq<byte>, now: seq<byte>, produced: seq<byte>)
    requires RegionIs(at, size, was, produced) && at + size <= end <= |was| == |now| && now[..end] == was[..end]
    ensures RegionIs(at, size, now, produced)
  {
    assert now[at..at + size] == now[..end][at..at + size];
    assert was[at..at + size] == was[..end][at..at + size];
  }

  /** The bytes that leave a buffer when at of its bytes have left it before. */
  lemma EndSlice(seed: seq<byte>, produced: seq<byte>, buf: nat, at: nat, size: nat)
    requires at + size <= buf <= |produced| && at + size <= |seed|
    requires seed[at..at + size] == produced[|produced| - buf..][buf - at - size..][..size]
    ensures RegionIs(at, size, seed, produced)
  {
  }

  /** What was generated so far, with a new buffer, and the rest of the internals after it. */
  ghost function Extended<R>(produced: seq<byte>, buffer: (seq<byte>, R)): (seq<byte>, R) {
    (produced + buffer.0, buffer.1)
  }

  lemma ExtendedIs<R>(produced: seq<byte>, buffer: (seq<byte>, R))
    ensures Extended(produced, buffer) == (produced + buffer.0, buffer.1)
  {
  }

  class RandomState<R(!new)> {
    const prim: Prim<R>
    const buf: array<byte>
    const seed: array<byte>
    var rest: R
    var available: nat
    var genBlocks: nat
    var drawn: nat              // how often the entropy pool was read
    ghost var produced: seq<byte>
    ghost var uses: seq<Use>
    ghost var samples: nat

    ghost predicate Fits() {
      && buf != seed && prim.Suits() && buf.Length == prim.BufferSize() && seed.Length == Total(prim.sizes)
    }

    /** The buffer holds the unused part of the last bytes that were generated, and zeros. */
    ghost predicate Holds()
      reads `available, `produced, buf
    {
      && available <= buf.Length <= |produced| && buf[..available] == produced[|produced| - buf.Length..][..available]
      && ZeroFrom(buf[..], available)
    }

    /** No byte is used twice, and no byte is used that is still available. */
    ghost predicate Fresh()
      reads `available, `produced, `uses
    {
      && Below(uses, |produced|) && NoRepeat(uses)
      && Avoids(uses, |produced| - buf.Length, |produced| - buf.Length + available)
    }

    ghost predicate Valid()
      reads `available, `produced, `uses, buf
    {
      Fits() && Holds() && Fresh()
    }

    /** unsafeWriteTo: bytes from the end of what is available, which are wiped. */
    method WriteTo(req: nat, dest: array<byte>, at: nat, ghost seeding: bool) returns (satisfy: nat)
      requires Valid() && dest != buf && at + req <= dest.Length
      modifies `available, `uses, buf, dest
      ensures Valid() && satisfy == (if req <= old(available) then req else old(available))
      ensures available == old(available) - satisfy
      ensures uses == old(uses) + Run(|produced| - buf.Length + available, satisfy, seeding)
      ensures dest[..at] == old(dest[..at]) && dest[at + satisfy..] == old(dest[at + satisfy..])
      ensures dest[at..at + satisfy] == produced[|produced| - buf.Length..][available..][..satisfy]
    {
      hide *;
      Opened();
      satisfy := if req <= available then req else available;
      var leftover := available - satisfy;
      ghost var was, base := buf[..], |produced| - buf.Length;
      CopyOut(leftover, satisfy, dest, at);
      WipeFrom(leftover, satisfy);
      StillHolds(was, buf[..], produced[base..], leftover, satisfy);
      RunApart(uses, base, leftover, satisfy, seeding);
      RunBelow(uses, base + leftover, satisfy, seeding, |produced|);
      available := leftover;
      uses := uses + Run(base + leftover, satisfy, seeding);
      Closed();
    }

    /** What the invariant says, and how it is put together again. */
    lemma Opened()
      requires Valid()
      ensures Fits() && available <= buf.Length <= |produced|
      ensures buf[..available] == produced[|produced| - buf.Length..][..available] && ZeroFrom(buf[..], available)
      ensures Below(uses, |produced|) && NoRepeat(uses)
      ensures Avoids(uses, |produced| - buf.Length, |produced| - buf.Length + available)
    {
    }

    lemma Closed()
      requires Fits() && available <= buf.Length <= |produced|
      requires buf[..available] == produced[|produced| - buf.Length..][..available] && ZeroFrom(buf[..], available)
      requires Below(uses, |produced|) && NoRepeat(uses)
      requires Avoids(uses, |produced| - buf.Length, |produced| - buf.Length + available)
      ensures Valid()
    {
    }

    /** memcpy */
    method CopyOut(from: nat, n: nat, dest: array<byte>, at: nat)
      requires dest != buf && from + n <= buf.Length && at + n <= dest.Length
      modifies dest
      ensures dest[..at] == old(dest[..at]) && dest[at + n..] == old(dest[at + n..])
      ensures dest[at..at + n] == buf[from..from + n]
    {
      for i := 0 to n
        invariant forall k :: 0 <= k < dest.Length ==>
          dest[k] == if at <= k < at + i then buf[from + (k - at)] else old(dest[k])
      {
        dest[at + i] := buf[from + i];
      }
    }

    /** wipeMemory */
    method WipeFrom(from: nat, n: nat)
      requires from + n <= buf.Length
      modifies buf
      ensures buf[..] == old(buf[..from]) + Zeros(n) + old(buf[from + n..])
    {
      for i := 0 to n
        invariant forall k :: 0 <= k < buf.Length ==> buf[k] == if from <= k < from + i then 0 else old(buf[k])
      {
        buf[from + i] := 0;
      }
    }

    // ---------------------------------------------------------------------
    // Generating blocks
    // ---------------------------------------------------------------------

    /** What is known about the bytes of earlier buffers. */
    ghost predicate Past()
      reads `produced, `uses
    {
      Fits() && Below(uses, |produced|) && NoRepeat(uses)
    }

    /** The seed comes from the end of the buffer, which now holds at least one byte less than before. */
    ghost predicate Erased()
      reads `available, `produced, `uses, buf, seed
    {
      && Valid() && available <= buf.Length - seed.Length
      && Regions(prim.sizes, |prim.sizes|, seed[..], produced)
    }

    /** The memory, without anything in it. */
    constructor (prim: Prim<R>, rest: R)
      requires prim.Suits()
      ensures this.prim == prim && Past() && uses == [] && produced == [] && drawn == 0 && fresh(buf) && fresh(seed)
    {
      this.prim := prim;
      this.rest := rest;
      assert prim.BufferSize() > 0;
      buf := new byte[prim.BufferSize()];
      seed := new byte[Total(prim.sizes)];
      available, genBlocks, drawn := 0, 0, 0;
      produced, uses := [], [];
      samples := 0;
    }

    /** unsafeInitFromBuffer, on a full buffer. */
    method InitFromBuffer()
      requires Valid() && available == buf.Length
      modifies `available, `uses, buf, seed
      ensures Erased() && available == buf.Length - seed.Length
      ensures HandedOut(uses, produced) == old(HandedOut(uses, produced))
    {
      for i := 0 to |prim.sizes|
        invariant Valid() && available == buf.Length - Total(prim.sizes[..i])
        invariant HandedOut(uses, produced) == old(HandedOut(uses, produced))
        invariant Regions(prim.sizes, i, seed[..], produced)
      {
        InitRegion(i);
      }
      assert prim.sizes[..|prim.sizes|] == prim.sizes;
    }

    method InitRegion(i: nat)
      requires Valid() && i < |prim.sizes| && Total(prim.sizes[..i]) <= buf.Length
      requires available == buf.Length - Total(prim.sizes[..i])
      requires Regions(prim.sizes, i, seed[..], produced)
      modifies `available, `uses, buf, seed
      ensures Valid() && Total(prim.sizes[..i + 1]) <= buf.Length
      ensures available == buf.Length - Total(prim.sizes[..i + 1])
      ensures Regions(prim.sizes, i + 1, seed[..], produced)
      ensures HandedOut(uses, produced) == old(HandedOut(uses, produced))
    {
      hide *;
      Opened();
      SeedRoom(i);
      var size, at := prim.sizes[i], Total(prim.sizes[..i]);
      ghost var was, base := seed[..], |produced| - buf.Length;
      HandedRun(uses, base + (available - size), size, true, produced);
      var n := WriteTo(size, seed, at, true);
      EndSlice(seed[..], produced, buf.Length, at, size);
      RegionsNext(prim.sizes, i, was, seed[..], produced);
    }

    lemma SeedRoom(i: nat)
      requires Fits() && i < |prim.sizes|
      ensures Total(prim.sizes[..i]) + prim.sizes[i] == Total(prim.sizes[..i + 1]) <= seed.Length < buf.Length
    {
      TotalNext(prim.sizes, i);
      TotalPrefix(prim.sizes, i + 1);
    }

    /** generateRandom */
    method GenerateRandom()
      requires Past()
      modifies this, buf, seed
      ensures Erased() && available == buf.Length - seed.Length > 0
      ensures genBlocks == old(genBlocks) + prim.bufferBlocks && drawn == old(drawn) && samples == old(samples)
      ensures (produced, rest) == Extended(old(produced), prim.randomBlocks(old(seed[..]), old(rest)))
      ensures HandedOut(uses, produced) == old(HandedOut(uses, produced))
    {
      hide *;
      Known();
      ghost var before := produced;
      var (bytes, r) := prim.randomBlocks(seed[..], rest);
      Load(buf, bytes);
      ExtendedIs(produced, (bytes, r));
      HandedMore(uses, produced, bytes);
      NewBuffer(uses, produced, bytes);
      rest, available, produced := r, buf.Length, produced + bytes;
      genBlocks := genBlocks + prim.bufferBlocks;
      Closed();
      InitFromBuffer();
    }

    lemma Known()
      requires Past()
      ensures Fits() && Below(uses, |produced|) && NoRepeat(uses)
      ensures 0 <= seed.Length < buf.Length && |prim.randomBlocks(seed[..], rest).0| == buf.Length
    {
    }

    /** reseed */
    method Reseed()
      requires Past()
      modifies this, buf, seed
      ensures Erased() && available == buf.Length - seed.Length > 0 && drawn == old(drawn) + 1
      ensures genBlocks == prim.bufferBlocks && samples == 0
      ensures (produced, rest) == Extended(old(produced), prim.randomBlocks(prim.entropy(old(drawn)), old(rest)))
      ensures HandedOut(uses, produced) == old(HandedOut(uses, produced))
    {
      var pool := prim.entropy(drawn);
      drawn := drawn + 1;
      Load(seed, pool);
      genBlocks, samples := 0, 0;
      GenerateRandom();
    }

    /** sample */
    method Sample()
      requires Valid() && Counted()
      modifies this, buf, seed
      ensures Erased() && Counted() && available == buf.Length - seed.Length > 0
      ensures drawn == old(drawn) + (if old(genBlocks) >= prim.reseedAfter then 1 else 0)
      ensures samples == old(samples) + 1
      ensures (produced, rest) == Extended(old(produced), prim.randomBlocks(
                if old(genBlocks) >= prim.reseedAfter then prim.entropy(old(drawn)) else old(seed[..]), old(rest)))
      ensures HandedOut(uses, produced) == old(HandedOut(uses, produced))
    {
      hide *;
      Opened();
      Counting();
      ghost var n := samples + 1;
      if genBlocks >= prim.reseedAfter {
        Reseed();
      } else {
        GenerateRandom();
      }
      samples := n;
      Recounted();
    }

    lemma Counting()
      requires Valid() && Counted()
      ensures Past() && prim.bufferBlocks >= 1
      ensures AfterSamples(prim.bufferBlocks, prim.reseedAfter, samples + 1)
           == if genBlocks >= prim.reseedAfter then prim.bufferBlocks else genBlocks + prim.bufferBlocks
    {
    }

    lemma Recounted()
      requires prim.bufferBlocks >= 1
      requires genBlocks == AfterSamples(prim.bufferBlocks, prim.reseedAfter, samples)
      ensures Counted()
    {
    }

    /** The block counter since the last reseed that was asked for. */
    ghost predicate Counted()
      reads `genBlocks, `samples
    {
      prim.bufferBlocks >= 1 && genBlocks == AfterSamples(prim.bufferBlocks, prim.reseedAfter, samples)
    }

    /** The loop of unsafeRandomBytes. */
    method RandomBytes(n: nat, dest: array<byte>, at: nat)
      requires Erased() && Counted() && dest != buf && dest != seed && at + n <= dest.Length
      modifies this, buf, seed, dest
      ensures Erased() && Counted()
      ensures Filled(old(dest[..]), dest[..], at, n)
      ensures HandedOut(uses, produced) == old(HandedOut(uses, produced)) + dest[at..at + n]
      decreases n, available == 0
    {
      hide *;
      Steady();
      ghost var was, out := dest[..], HandedOut(uses, produced);
      if n > 0 {
        var trfed := WriteOut(n, dest, at);
        var more := n - trfed;
        ghost var mid := dest[..];
        if more > 0 {
          Steady();
          Sample();
          RandomBytes(more, dest, at + trfed);
          Pieces(was, mid, dest[..], at, trfed, n, out);
        }
      } else {
        Nothing(was, at, out);
      }
    }

    /** unsafeWriteTo for a request of random bytes. */
    method WriteOut(n: nat, dest: array<byte>, at: nat) returns (trfed: nat)
      requires Erased() && dest != buf && dest != seed && at + n <= dest.Length
      modifies `available, `uses, buf, dest
      ensures Erased() && trfed == if n <= old(available) then n else old(available)
      ensures trfed < n ==> available == 0
      ensures Filled(old(dest[..]), dest[..], at, trfed)
      ensures HandedOut(uses, produced) == old(HandedOut(uses, produced)) + dest[at..at + trfed]
    {
      hide *;
      Steady();
      Opened();
      ghost var base := |produced| - buf.Length;
      ghost var size := if n <= available then n else available;
      HandedRun(uses, base + (available - size), size, false, produced);
      ghost var was := dest[..];
      trfed := WriteTo(n, dest, at, false);
      FilledIf(was, dest[..], at, trfed);
      assert produced[base..][available..][..size] == produced[base + available..base + available + size];
      StillErased();
    }

    lemma Steady()
      requires Erased()
      ensures Valid() && Fits() && 0 <= available <= buf.Length - seed.Length
      ensures Regions(prim.sizes, |prim.sizes|, seed[..], produced)
      ensures Below(uses, |produced|)
    {
    }

    lemma StillErased()
      requires Valid() && available <= buf.Length - seed.Length
      requires Regions(prim.sizes, |prim.sizes|, seed[..], produced)
      ensures Erased()
    {
    }

    /** fillRandomBytes: exactly n bytes, which are the next random bytes. */
    method FillRandomBytes(n: nat, dest: array<byte>)
      requires Erased() && Counted() && dest != buf && dest != seed && n <= dest.Length
      modifies this, buf, seed, dest
      ensures Erased() && Counted() && dest[n..] == old(dest[n..])
      ensures HandedOut(uses, produced) == old(HandedOut(uses, produced)) + dest[..n]
    {
      RandomBytes(n, dest, 0);
    }
  }

  /** Only n bytes of a destination were written. */
  ghost predicate Filled(was: seq<byte>, now: seq<byte>, at: nat, n: nat) {
    at + n <= |was| == |now| && now[..at] == was[..at] && now[at + n..] == was[at + n..]
  }

  /** A destination that was filled in two steps. */
  lemma Pieces(was: seq<byte>, mid: seq<byte>, now: seq<byte>, at: nat, k: nat, n: nat, out: seq<byte>)
    requires k <= n && Filled(was, mid, at, k) && Filled(mid, now, at + k, n - k)
    ensures Filled(was, now, at, n)
    ensures (out + mid[at..at + k]) + now[at + k..at + n] == out + now[at..at + n]
  {
    assert now[at..at + k] == now[..at + k][at..] == mid[..at + k][at..] == mid[at..at + k];
    assert now[..at] == now[..at + k][..at] == mid[..at];
    assert mid[at + n..] == mid[at + k..][n - k..] == was[at + k..][n - k..];
  }

  lemma FilledIf(was: seq<byte>, now: seq<byte>, at: nat, n: nat)
    requires at + n <= |was| == |now| && now[..at] == was[..at] && now[at + n..] == was[at + n..]
    ensures Filled(was, now, at, n)
  {
  }

  lemma Nothing(was: seq<byte>, at: nat, out: seq<byte>)
    requires at <= |was|
    ensures Filled(was, was, at, 0) && out + was[at..at] == out
  {
  }

  method Load(a: array<byte>, s: seq<byte>)
    requires a.Length == |s|
    modifies a
    ensures a[..] == s
  {
    for i := 0 to a.Length
      invariant forall k :: 0 <= k < i ==> a[k] == s[k]
    {
      a[i] := s[i];
    }
  }

  // ---------------------------------------------------------------------
  // How many blocks are generated between two reseeds
  // ---------------------------------------------------------------------

  /** The block counter after n more samples, each of which reseeds first if the counter is high enough. */
  function AfterSamples(bufferBlocks: nat, reseedAfter: nat, n: nat): (g: nat) {
    if n == 0 then bufferBlocks
    else
      var g := AfterSamples(bufferBlocks, reseedAfter, n - 1);
      if g >= reseedAfter then bufferBlocks else g + bufferBlocks
  }

  /** As long as the limit is not reached, every sample adds a buffer. */
  lemma {:induction false} Climb(b: nat, limit: nat, n: nat)
    requires n == 0 || n * b < limit
    ensures AfterSamples(b, limit, n) == n * b + b
  {
    if n == 0 {
    } else {
      assert n * b == (n - 1) * b + b;
      Climb(b, limit, n - 1);
    }
  }

  /** The counter is always a number of whole buffers, and only the last of them may pass the limit. */
  lemma {:induction false} WholeBuffers(b: nat, limit: nat, n: nat) returns (k: nat)
    requires b >= 1
    ensures k >= 1 && AfterSamples(b, limit, n) == k * b && (k == 1 || (k - 1) * b < limit)
  {
    k := 1;
    if n == 0 {
    } else {
      var before := WholeBuffers(b, limit, n - 1);
      if AfterSamples(b, limit, n - 1) < limit {
        k := before + 1;
        assert k * b == before * b + b;
      }
    }
  }

  lemma WithinLimit(k: nat, q: nat, b: nat)
    requires b >= 1 && q >= 1 && k >= 1 && (k == 1 || (k - 1) * b < q * b)
    ensures k * b <= q * b
  {
    if q <= k - 1 { MulOrder(q, k - 1, b); }
    MulOrder(k, q, b);
  }

  /** Never more than reseedAfter blocks are generated without a reseed, however many samples are drawn,
      exactly when the limit is positive and a whole number of buffers. */
  lemma ReseedBound(b: nat, limit: nat)
    requires b >= 1
    ensures (forall n: nat :: AfterSamples(b, limit, n) <= limit) <==> (limit > 0 && limit % b == 0)
  {
    hide AfterSamples;
    var q := limit / b;
    Quotient(limit, b);
    if limit > 0 && limit % b == 0 {
      forall n: nat ensures AfterSamples(b, limit, n) <= limit {
        var k := WholeBuffers(b, limit, n);
        WithinLimit(k, q, b);
      }
    } else {
      Climb(b, limit, q);
      assert AfterSamples(b, limit, q) > limit;
    }
  }

  lemma Quotient(limit: nat, b: nat)
    requires b >= 1
    ensures var q := limit / b;
            q >= 0 && q * b <= limit < q * b + b && (q == 0 ==> q * b == 0)
            && (limit % b == 0 <==> q * b == limit) && (limit > 0 && limit % b == 0 ==> q >= 1)
  {
    assert limit == (limit / b) * b + limit % b;
    QuotientBound(limit, b, limit / b, limit % b);
  }

  /** ChaCha20: 16 blocks in the buffer, and a limit of 2^30 blocks. */
  lemma ChaChaBound(n: nat)
    ensures AfterSamples(16, 0x4000_0000, n) <= 0x4000_0000
  {
    ReseedBound(16, 0x4000_0000);
  }
}
