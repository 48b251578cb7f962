/** Raaz's byte sources: what a fill puts into a buffer, and what it leaves. */
module ByteSource {
  import opened Words

  /** The pure sources: a byte string, an optional source, and a list of sources, of which a lazy byte
      string is one. */
  datatype Source = Bytes(b: seq<byte>) | Nothing | Just(s: Source) | Nil | Cons(head: Source, tail: Source)

  /** All the bytes that a source will deliver. */
  function Content(src: Source): (s: seq<byte>) {
    match src
    case Bytes(b) => b
    case Nothing => []
    case Just(s) => Content(s)
    case Nil => []
    case Cons(x, xs) => Content(x) + Content(xs)
  }

  datatype FillResult = Remaining(src: Source) | Exhausted(count: nat)

  /** What a source owes to a request for sz bytes: Remaining only if at least one byte more is left, and
      Exhausted at an exact fit. */
  ghost predicate Fills(sz: nat, content: seq<byte>, result: FillResult, was: seq<byte>, now: seq<byte>, at: nat)
    requires at + sz <= |was| == |now|
  {
    match result
    case Remaining(rest) =>
      |content| > sz && Content(rest) == content[sz..] && now == was[..at] + content[..sz] + was[at + sz..]
    case Exhausted(count) =>
      count == |content| <= sz && now == was[..at] + content + was[at + count..]
  }

  /** fillBytes of the instances. */
  method FillBytes(sz: nat, src: Source, buf: array<byte>, at: nat) returns (result: FillResult)
    requires at + sz <= buf.Length
    modifies buf
    ensures Fills(sz, Content(src), result, old(buf[..]), buf[..], at)
    decreases src, 1
  {
    match src {
      case Bytes(b) =>
        if |b| <= sz {
          CopyTo(b, buf, at);
          result := Exhausted(|b|);
        } else {
          CopyTo(b[..sz], buf, at);
          result := Remaining(Bytes(b[sz..]));
        }
      case Nothing =>
        result := Exhausted(0);
      case Just(s) =>
        var r := FillBytes(sz, s, buf, at);
        result := match r case Remaining(rest) => Remaining(Just(rest)) case Exhausted(n) => Exhausted(n);
      case Nil =>
        result := Exhausted(0);
      case Cons(x, xs) =>
        result := FillFromList(sz, x, xs, buf, at);
    }
  }

  /** The first source of a list, and the others if it ends within the request. */
  method FillFromList(sz: nat, x: Source, xs: Source, buf: array<byte>, at: nat) returns (result: FillResult)
    requires at + sz <= buf.Length
    modifies buf
    ensures Fills(sz, Content(Cons(x, xs)), result, old(buf[..]), buf[..], at)
    decreases Cons(x, xs), 0
  {
    hide *;
    ghost var was := buf[..];
    var r := FillBytes(sz, x, buf, at);
    match r {
      case Remaining(rest) =>
        result := Remaining(Cons(rest, xs));
        FilledFirst(sz, x, xs, rest, was, buf[..], at);
      case Exhausted(n) =>
        ExhaustedCount(sz, Content(x), n, was, buf[..], at);
        ghost var mid := buf[..];
        var q := FillBytes(sz - n, xs, buf, at + n);
        result := match q case Remaining(rest) => Remaining(rest) case Exhausted(m) => Exhausted(n + m);
        JoinedContent(x, xs);
        FilledNext(sz, Content(x), Content(xs), q, was, mid, buf[..], at);
    }
  }

  lemma ExhaustedCount(sz: nat, content: seq<byte>, n: nat, was: seq<byte>, now: seq<byte>, at: nat)
    requires at + sz <= |was| == |now| && Fills(sz, content, Exhausted(n), was, now, at)
    ensures n == |content| <= sz
  {
  }

  method CopyTo(s: seq<byte>, buf: array<byte>, at: nat)
    requires at + |s| <= buf.Length
    modifies buf
    ensures buf[..] == old(buf[..at]) + s + old(buf[at + |s|..])
  {
    for i := 0 to |s|
      invariant forall k :: 0 <= k < i ==> buf[at + k] == s[k]
      invariant forall k :: 0 <= k < buf.Length && !(at <= k < at + i) ==> buf[k] == old(buf[k])
    {
      buf[at + i] := s[i];
    }
  }

  /** The first source of a list has more than was asked for. */
  lemma FilledFirst(sz: nat, x: Source, xs: Source, rest: Source, was: seq<byte>, now: seq<byte>, at: nat)
    requires at + sz <= |was| == |now| && Fills(sz, Content(x), Remaining(rest), was, now, at)
    ensures Fills(sz, Content(Cons(x, xs)), Remaining(Cons(rest, xs)), was, now, at)
  {
    var a, b := Content(x), Content(xs);
    assert (a + b)[..sz] == a[..sz] && (a + b)[sz..] == a[sz..] + b;
  }

  /** Two pieces, one behind the other. */
  lemma Spliced(was: seq<byte>, mid: seq<byte>, now: seq<byte>, at: nat, a: seq<byte>, b: seq<byte>)
    requires at + |a| + |b| <= |was| && mid == was[..at] + a + was[at + |a|..]
    requires now == mid[..at + |a|] + b + mid[at + |a| + |b|..]
    ensures now == was[..at] + (a + b) + was[at + |a| + |b|..]
  {
    assert mid[..at + |a|] == was[..at] + a;
    assert mid[at + |a| + |b|..] == was[at + |a| + |b|..];
  }

  lemma JoinedContent(x: Source, xs: Source)
    ensures Content(Cons(x, xs)) == Content(x) + Content(xs)
  {
  }

  /** The first source of a list ends within the request, and the others go on from there. */
  lemma FilledNext(sz: nat, a: seq<byte>, b: seq<byte>, q: FillResult, was: seq<byte>, mid: seq<byte>, now: seq<byte>,
                   at: nat)
    requires at + sz <= |was| == |mid| == |now| && |a| <= sz
    requires Fills(sz, a, Exhausted(|a|), was, mid, at) && Fills(sz - |a|, b, q, mid, now, at + |a|)
    ensures q.Remaining? ==> Fills(sz, a + b, q, was, now, at)
    ensures q.Exhausted? ==> Fills(sz, a + b, Exhausted(|a| + q.count), was, now, at)
  {
    hide Content;
    if q.Remaining? {
      var s := sz - |a|;
      Spliced(was, mid, now, at, a, b[..s]);
      assert (a + b)[..sz] == a + b[..s] && (a + b)[sz..] == b[s..];
    } else {
      Spliced(was, mid, now, at, a, b);
    }
  }
}
