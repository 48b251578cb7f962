/** Raaz's write transfers: how much of a buffer they cover, and what they put where. Two transfers are
    combined by letting the second start where the first ends. */
module Transfer {
  import opened Words

  /** At each position a transfer either stores a byte or skips over what is there. */
  datatype Cell = Keep | Put(b: byte)
  type WriteTo = seq<Cell>

  /** skip */
  function Skip(n: nat): (w: WriteTo)
    ensures |w| == n && forall i :: 0 <= i < n ==> w[i] == Keep
  {
    seq(n, _ => Keep)
  }

  /** writeBytes */
  function WriteBytes(b: byte, n: nat): (w: WriteTo)
    ensures |w| == n && forall i :: 0 <= i < n ==> w[i] == Put(b)
  {
    seq(n, _ => Put(b))
  }

  /** The bytes of an encoded value. */
  function Write(s: seq<byte>): (w: WriteTo)
    ensures |w| == |s| && forall i :: 0 <= i < |s| ==> w[i] == Put(s[i])
  {
    seq(|s|, i requires 0 <= i < |s| => Put(s[i]))
  }

  /** glueWrites: header, as many glue bytes as the boundary asks for, and footer. */
  function GlueWrites(w8: byte, boundary: nat, header: WriteTo, footer: WriteTo): (w: WriteTo)
    requires boundary > 0
  {
    var exceed := (|header| + |footer|) % boundary;
    header + WriteBytes(w8, if exceed > 0 then boundary - exceed else 0) + footer
  }

  /** padWrite */
  function PadWrite(w8: byte, boundary: nat, w: WriteTo): (r: WriteTo)
    requires boundary > 0
  {
    GlueWrites(w8, boundary, w, [])
  }

  /** The glue is the least that ends on a boundary. */
  lemma GlueAligned(w8: byte, boundary: nat, header: WriteTo, footer: WriteTo)
    requires boundary > 0
    ensures var w := GlueWrites(w8, boundary, header, footer);
            var least := |header| + |footer|;
            |w| % boundary == 0 && least <= |w| < least + boundary
            && w == header + WriteBytes(w8, |w| - least) + footer
  {
    var least := |header| + |footer|;
    var q, r := least / boundary, least % boundary;
    if r > 0 {
      DivModUnique(least + (boundary - r), boundary, q + 1, 0);
    }
  }

  /** What a buffer holds after a transfer to its start. */
  function Transferred(w: WriteTo, buf: seq<byte>): (r: seq<byte>)
    requires |w| <= |buf|
    ensures |r| == |buf|
  {
    seq(|buf|, i requires 0 <= i < |buf| => if i < |w| && w[i].Put? then w[i].b else buf[i])
  }

  /** unsafeTransfer */
  method UnsafeTransfer(w: WriteTo, buf: array<byte>)
    requires |w| <= buf.Length
    modifies buf
    ensures buf[..] == Transferred(w, old(buf[..]))
  {
    for i := 0 to |w|
      invariant forall k :: 0 <= k < i ==> buf[k] == if w[k].Put? then w[k].b else old(buf[k])
      invariant forall k :: i <= k < buf.Length ==> buf[k] == old(buf[k])
    {
      if w[i].Put? { buf[i] := w[i].b; }
    }
  }

  /** Skipping the data in a buffer and then writing leaves the data followed by what is written. */
  lemma SkipThenWrite(n: nat, s: seq<byte>, buf: seq<byte>)
    requires n + |s| <= |buf|
    ensures Transferred(Skip(n) + Write(s), buf) == buf[..n] + s + buf[n + |s|..]
  {
  }
}
