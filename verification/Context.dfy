/** Raaz's hashing context: a buffer of whole blocks that is only processed once more bytes are known to
    come, and the one-shot driver that reads a source directly. */
module Context {
  import opened Words
  import opened ByteSource

  /** What an implementation does to its internals with whole blocks, and with the last bytes. */
  datatype Implementation<!S(!new), !R> = Implementation(
    block: nat, processBlocks: (S, seq<byte>) -> S, processLast: (S, seq<byte>) -> R)
  {
    /** Whole blocks may be processed a part at a time, as long as the last bytes are not all of them. */
    ghost predicate Streaming() {
      && block > 0
      && (forall s, a, b :: |a| % block == 0 && |b| % block == 0 ==>
           processBlocks(s, a + b) == processBlocks(processBlocks(s, a), b))
      && (forall s, a, b :: |a| % block == 0 && b != [] ==>
           processLast(s, a + b) == processLast(processBlocks(s, a), b))
    }
  }

  /** The internals after the first n buffers of size bytes. */
  ghost function Processed<S(!new), R>(impl: Implementation<S, R>, s0: S, size: nat, data: seq<byte>, n: nat): S
    requires size * n <= |data|
  {
    if n == 0 then s0
    else
      BufferBounds(size, n);
      impl.processBlocks(Processed(impl, s0, size, data, n - 1), data[size * (n - 1)..size * n])
  }

  lemma BufferBounds(size: nat, n: nat)
    requires n > 0
    ensures 0 <= size * (n - 1) <= size * n && size * n == size * (n - 1) + size
  {
  }

  lemma {:induction false} ProcessedPrefix<S(!new), R>(impl: Implementation<S, R>, s0: S, size: nat, data: seq<byte>,
                                                 more: seq<byte>, n: nat)
    requires size * n <= |data|
    ensures Processed(impl, s0, size, data + more, n) == Processed(impl, s0, size, data, n)
  {
    if n == 0 {
    } else {
      BufferBounds(size, n);
      ProcessedPrefix(impl, s0, size, data, more, n - 1);
      assert (data + more)[size * (n - 1)..size * n] == data[size * (n - 1)..size * n];
    }
  }

  /** Several buffers at once are as good as one after the other. */
  lemma {:induction false} ProcessedWhole<S(!new), R>(impl: Implementation<S, R>, s0: S, size: nat, data: seq<byte>, n: nat)
    requires impl.Streaming() && size % impl.block == 0 && size * n <= |data| && n >= 1
    ensures Processed(impl, s0, size, data, n) == impl.processBlocks(s0, data[..size * n])
  {
    if n == 1 {
      assert data[size * 0..size * 1] == data[..size * 1];
    } else {
      BufferBounds(size, n);
      ProcessedWhole(impl, s0, size, data, n - 1);
      WholeBlocks(size, impl.block, n - 1);
      var a, b := data[..size * (n - 1)], data[size * (n - 1)..size * n];
      assert data[..size * n] == a + b;
    }
  }

  lemma {:induction false} WholeBlocks(size: nat, block: nat, n: nat)
    requires block > 0 && size % block == 0
    ensures 0 <= size * n && size * n % block == 0
  {
    if n == 0 {
    } else {
      WholeBlocks(size, block, n - 1);
      ModAdd(size * (n - 1), size, block);
      assert size * n == size * (n - 1) + size;
    }
  }

  /** Whatever the buffer size, the end result is that of one call of processLast on the whole input. */
  lemma LastOfWhole<S(!new), R>(impl: Implementation<S, R>, s0: S, size: nat, data: seq<byte>, n: nat)
    requires impl.Streaming() && size % impl.block == 0 && size * n <= |data|
    requires n > 0 ==> size * n < |data|
    ensures impl.processLast(Processed(impl, s0, size, data, n), data[size * n..]) == impl.processLast(s0, data)
  {
    if n == 0 {
      assert data[size * 0..] == data;
    } else {
      ProcessedWhole(impl, s0, size, data, n);
      WholeBlocks(size, impl.block, n);
      assert data == data[..size * n] + data[size * n..];
    }
  }

  /** What a fill did, unfolded. */
  lemma Filled(sz: nat, content: seq<byte>, result: FillResult, was: seq<byte>, now: seq<byte>, at: nat)
    requires at + sz <= |was| == |now| && Fills(sz, content, result, was, now, at)
    ensures result.Remaining? ==>
      |content| > sz && Content(result.src) == content[sz..] && now == was[..at] + content[..sz] + was[at + sz..]
    ensures result.Exhausted? ==>
      result.count == |content| <= sz && now == was[..at] + content + was[at + |content|..]
  {
  }

  /** The buffer holds the end of what was delivered, also after more was delivered. */
  lemma EndOf(seen: seq<byte>, was: seq<byte>, now: seq<byte>, at: nat, more: seq<byte>)
    requires at <= |seen| && at + |more| <= |was| && was[..at] == seen[|seen| - at..]
    requires now == was[..at] + more + was[at + |more|..]
    ensures now[..at + |more|] == (seen + more)[|seen + more| - (at + |more|)..]
  {
    assert seen + more == seen[..|seen| - at] + (was[..at] + more);
  }

  lemma TwoParts(seen: seq<byte>, content: seq<byte>, n: nat)
    requires n <= |content|
    ensures (seen + content[..n]) + content[n..] == seen + content
  {
  }

  class Cxt<S(!new), R> {
    const impl: Implementation<S, R>
    const buf: array<byte>
    var internals: S
    var available: nat
    ghost var initial: S
    ghost var seen: seq<byte>  // everything that sources delivered
    ghost var filled: nat      // how many full buffers were processed

    /** Full buffers were processed, and the first at bytes of the buffer came after them. */
    ghost predicate Standing(at: nat, was: seq<byte>)
      reads `seen, `internals, `filled, `initial
    {
      && buf.Length == |was| > 0 && at <= |was| && |seen| == buf.Length * filled + at
      && was[..at] == seen[|seen| - at..] && internals == Processed(impl, initial, buf.Length, seen, filled)
    }

    /** What is available are the bytes since the last full buffer. */
    ghost predicate Holds()
      reads `available, `seen, `internals, `filled, `initial, buf
    {
      Standing(available, buf[..])
    }

    /** A buffer is only ever empty when nothing was delivered at all. */
    ghost predicate Valid()
      reads `available, `seen, `internals, `filled, `initial, buf
    {
      Holds() && (available == 0 ==> seen == [])
    }

    /** The buffer may be read into from the start. */
    ghost predicate Empty()
      reads `seen, `internals, `filled, `initial
    {
      buf.Length > 0 && |seen| == buf.Length * filled && internals == Processed(impl, initial, buf.Length, seen, filled)
    }

    /** The context holds n blocks, at least one. */
    constructor (impl: Implementation<S, R>, n: nat, s0: S)
      requires n >= 1 && impl.block >= 1
      ensures this.impl == impl && Valid() && seen == [] && initial == s0 && buf.Length == impl.block * n && fresh(buf)
    {
      this.impl := impl;
      assert impl.block * n >= 1;
      buf := new byte[impl.block * n];
      internals, available := s0, 0;
      initial, seen, filled := s0, [], 0;
    }

    /** A request to a source for the rest of the buffer, after its first at bytes. */
    method FillAt(at: nat, src: Source) returns (result: FillResult)
      requires Standing(at, buf[..]) && at <= buf.Length
      modifies `seen, buf
      ensures result.Exhausted? ==>
        && result.count == |Content(src)| && seen == old(seen) + Content(src) && at + result.count <= buf.Length
        && Standing(at + result.count, buf[..])
      ensures result.Remaining? ==>
        && Standing(buf.Length, buf[..]) && Content(result.src) != []
        && |Content(src)| == (buf.Length - at) + |Content(result.src)|
        && seen + Content(result.src) == old(seen) + Content(src)
    {
      hide *;
      var vacant := buf.Length - at;
      ghost var content, was := Content(src), buf[..];
      result := FillBytes(vacant, src, buf, at);
      Filled(vacant, content, result, was, buf[..], at);
      match result {
        case Exhausted(transferred) =>
          Deliver(at, content, was);
        case Remaining(rest) =>
          Deliver(at, content[..vacant], was);
          TwoParts(old(seen), content, vacant);
      }
    }

    /** unsafeFillFrom */
    method FillFrom(src: Source) returns (result: FillResult)
      requires Valid()
      modifies `available, `seen, buf
      ensures Holds()
      ensures result.Exhausted? ==> Valid() && seen == old(seen) + Content(src)
      ensures result.Remaining? ==>
        && available == buf.Length && Standing(buf.Length, buf[..]) && Content(result.src) != []
        && seen + Content(result.src) == old(seen) + Content(src)
    {
      Opened();
      hide Standing, Content;
      result := FillAt(available, src);
      match result {
        case Exhausted(transferred) =>
          available := available + transferred;
        case Remaining(rest) =>
          available := buf.Length;
      }
    }

    /** Books what a fill put after the first at bytes of the buffer. */
    ghost method Deliver(at: nat, more: seq<byte>, was: seq<byte>)
      requires Standing(at, was) && at + |more| <= |was|
      requires buf[..] == was[..at] + more + was[at + |more|..]
      modifies `seen
      ensures Standing(at + |more|, buf[..]) && seen == old(seen) + more
    {
      assert 0 <= buf.Length * filled;
      hide Processed;
      ProcessedPrefix(impl, initial, buf.Length, seen, more, filled);
      EndOf(seen, was, buf[..], at, more);
      seen := seen + more;
    }

    lemma Opened()
      requires Valid()
      ensures available <= buf.Length && Standing(available, buf[..]) && (available == 0 ==> seen == [])
    {
    }

    lemma Closed()
      requires Standing(available, buf[..]) && (available == 0 ==> seen == [])
      ensures Valid()
    {
    }

    /** unsafeProcessBlocks: the whole buffer. */
    method ProcessBuffer()
      requires Standing(buf.Length, buf[..])
      modifies `internals, `filled
      ensures Empty()
    {
      assert buf[..buf.Length] == buf[..];
      BufferBounds(buf.Length, filled + 1);
      assert seen[buf.Length * filled..buf.Length * (filled + 1)] == buf[..];
      internals := impl.processBlocks(internals, buf[..]);
      filled := filled + 1;
    }

    /** unsafeContinue with processChunks: from an empty buffer and a source with something left, read and
        process full buffers, and leave what the source ends with in the buffer. */
    method Continue(src: Source)
      requires Empty() && Content(src) != []
      modifies `internals, `filled, `available, `seen, buf
      ensures Valid() && seen == old(seen) + Content(src)
    {
      hide *;
      var rest := src;
      var more := true;
      ghost var content := Content(src);
      while more
        invariant more ==> Content(rest) != [] && Empty() && seen + Content(rest) == old(seen) + content
        invariant !more ==> Valid() && seen == old(seen) + content
        decreases more, |Content(rest)|
      {
        rest, more := ReadBuffer(rest);
      }
    }

    /** One round of processChunks. */
    method ReadBuffer(src: Source) returns (rest: Source, more: bool)
      requires Empty() && (seen == [] || Content(src) != [])
      modifies `internals, `filled, `available, `seen, buf
      ensures more ==> Content(rest) != [] && |Content(rest)| < |Content(src)| && Empty()
                       && seen + Content(rest) == old(seen) + Content(src)
      ensures !more ==> Valid() && seen == old(seen) + Content(src)
    {
      Ready();
      hide *;
      rest := src;
      var result := FillAt(0, src);
      match result {
        case Remaining(r) =>
          ProcessBuffer();
          rest, more := r, true;
        case Exhausted(n) =>
          available := n;
          Closed();
          more := false;
      }
    }

    lemma Ready()
      requires Empty()
      ensures Standing(0, buf[..]) && buf.Length > 0
    {
    }

    /** unsafeUpdate */
    method Update(src: Source)
      requires Valid()
      modifies `internals, `filled, `available, `seen, buf
      ensures Valid() && seen == old(seen) + Content(src)
    {
      hide *;
      var result := FillFrom(src);
      match result {
        case Exhausted(_) =>
        case Remaining(rest) =>
          ProcessBuffer();
          available := 0;
          Continue(rest);
      }
    }

    /** Reading a source directly, from a fresh context. */
    method ReadAll(src: Source)
      requires Valid() && seen == []
      modifies `internals, `filled, `available, `seen, buf
      ensures Valid() && seen == Content(src)
    {
      Fresh();
      hide *;
      var rest, more := ReadBuffer(src);
      if more {
        Continue(rest);
      }
    }

    lemma Fresh()
      requires Valid() && seen == []
      ensures Empty()
    {
    }

    lemma EndResult()
      requires Valid() && impl.Streaming() && buf.Length % impl.block == 0
      ensures impl.processLast(internals, seen[|seen| - available..]) == impl.processLast(initial, seen)
    {
      hide impl.Streaming;
      LastOfWhole(impl, initial, buf.Length, seen, filled);
    }

    /** unsafeFinalise */
    method Finalise() returns (r: R)
      requires Valid()
      ensures r == impl.processLast(internals, seen[|seen| - available..])
    {
      r := impl.processLast(internals, buf[..available]);
    }
  }

  /** processByteSource: read into a buffer of any number of blocks and process until the source ends. */
  method ProcessByteSource<S(!new), R>(impl: Implementation<S, R>, s0: S, src: Source, blks: nat) returns (r: R)
    requires impl.Streaming() && blks >= 1
    ensures r == impl.processLast(s0, Content(src))
  {
    hide impl.Streaming;
    StreamingBlock(impl);
    var cxt := new Cxt(impl, blks, s0);
    cxt.ReadAll(src);
    r := cxt.Finalise();
    WholeBlocks(impl.block, impl.block, blks);
    cxt.EndResult();
  }

  lemma StreamingBlock<S(!new), R>(impl: Implementation<S, R>)
    requires impl.Streaming()
    ensures impl.block > 0 && impl.block % impl.block == 0
  {
  }

  /** Any number of updates, for any buffer size, and the finalisation: the same as the one-shot. */
  method UpdateAll<S(!new), R>(impl: Implementation<S, R>, s0: S, srcs: seq<Source>, n: nat) returns (r: R)
    requires impl.Streaming() && n >= 1
    ensures r == impl.processLast(s0, Contents(srcs))
  {
    hide impl.Streaming;
    StreamingBlock(impl);
    var cxt := new Cxt(impl, n, s0);
    for i := 0 to |srcs|
      invariant cxt.Valid() && cxt.seen == Contents(srcs[..i]) && fresh(cxt) && fresh(cxt.buf)
      invariant cxt.initial == s0 && cxt.impl == impl && cxt.buf.Length == impl.block * n
    {
      assert srcs[..i + 1][..i] == srcs[..i];
      cxt.Update(srcs[i]);
    }
    assert srcs[..|srcs|] == srcs;
    r := cxt.Finalise();
    WholeBlocks(impl.block, impl.block, n);
    cxt.EndResult();
  }

  /** The input of a list of updates. */
  ghost function Contents(srcs: seq<Source>): seq<byte> {
    if srcs == [] then [] else Contents(srcs[..|srcs| - 1]) + Content(srcs[|srcs| - 1])
  }
}
