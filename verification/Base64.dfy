/** Base64 in Raaz: the printer, the parser, and exactly which strings the two agree on. */
module Base64 {
  import opened Words

  /** The outcome of a parse: Raaz's digit decoder calls error on what is not a digit. */
  datatype Outcome = Parsed(bytes: seq<bv8>) | Rejected | Error

  // ---------------------------------------------------------------------
  // Digits
  // ---------------------------------------------------------------------

  const PAD: bv8 := 0x3d

  function Top6(w: bv8): (r: bv8) { w >> 2 }

  function Top4(w: bv8): (r: bv8) { w >> 4 }

  function Top2(w: bv8): (r: bv8) { w >> 6 }

  function Bot2(w: bv8): (r: bv8) { w & 0x03 }

  function Bot4(w: bv8): (r: bv8) { w & 0x0f }

  function Bot6(w: bv8): (r: bv8) { w & 0x3f }

  /** The character of a digit. */
  function B64(w: bv8): (c: bv8)
    requires w < 64
  {
    if w <= 25 then 0x41 + w
    else if w <= 51 then 0x61 + (w - 26)
    else if w <= 61 then 0x30 + (w - 52)
    else if w == 62 then 0x2b
    else 0x2f
  }

  function UnB64(c: bv8): (w: Option<bv8>) {
    if 0x41 <= c <= 0x5a then Some(c - 0x41)
    else if 0x61 <= c <= 0x7a then Some(c - 0x61 + 26)
    else if 0x30 <= c <= 0x39 then Some(c - 0x30 + 52)
    else if c == 0x2b then Some(62)
    else if c == 0x2f then Some(63)
    else None
  }

  /** The alphabet of section 4 of RFC 4648. */
  predicate Digit(c: bv8) {
    UnB64(c).Some?
  }

  lemma DigitOf(w: bv8)
    requires w < 64
    ensures UnB64(B64(w)) == Some(w) && B64(w) != PAD
  {
  }

  lemma CharOf(c: bv8)
    requires Digit(c)
    ensures UnB64(c).value < 64 && B64(UnB64(c).value) == c && c != PAD && c < 0x80
  {
  }

  // ---------------------------------------------------------------------
  // The printer
  // ---------------------------------------------------------------------

  /** The end of one byte and the start of the next. */
  function Pack1(t: bv8, p: bv8): (w: bv8) {
    (Bot2(p) << 4) | Top4(t)
  }

  function Pack2(t: bv8, p: bv8): (w: bv8) {
    (Bot4(p) << 2) | Top2(t)
  }

  lemma Small(t: bv8, p: bv8)
    ensures Top6(p) < 64 && Pack1(t, p) < 64 && Pack2(t, p) < 64 && Bot6(p) < 64
  {
  }

  function Byte0(p: bv8): (c: bv8) {
    Small(0, p);
    B64(Top6(p))
  }

  function Byte1(t: bv8, p: bv8): (c: bv8) {
    Small(t, p);
    B64(Pack1(t, p))
  }

  function Byte2(t: bv8, p: bv8): (c: bv8) {
    Small(t, p);
    B64(Pack2(t, p))
  }

  function Byte3(p: bv8): (c: bv8) {
    Small(0, p);
    B64(Bot6(p))
  }

  /** Character i of the digits of the whole groups. */
  function CharAt(bs: seq<bv8>, i: nat): (c: bv8)
    requires i < 4 * (|bs| / 3)
  {
    var q := i / 4;
    match i % 4
    case 0 => Byte0(bs[3 * q])
    case 1 => Byte1(bs[3 * q + 1], bs[3 * q])
    case 2 => Byte2(bs[3 * q + 2], bs[3 * q + 1])
    case _ => Byte3(bs[3 * q + 2])
  }

  function Padding(bs: seq<bv8>): (s: seq<bv8>) {
    var n := |bs| / 3;
    match |bs| % 3
    case 0 => []
    case 1 => [Byte0(bs[3 * n]), Byte1(0, bs[3 * n]), PAD, PAD]
    case _ => [Byte0(bs[3 * n]), Byte1(bs[3 * n + 1], bs[3 * n]), Byte2(0, bs[3 * n + 1]), PAD]
  }

  /** toB64 */
  function ToB64(bs: seq<bv8>): (s: seq<bv8>) {
    seq(4 * (|bs| / 3), i requires 0 <= i < 4 * (|bs| / 3) => CharAt(bs, i)) + Padding(bs)
  }

  // ---------------------------------------------------------------------
  // The parser
  // ---------------------------------------------------------------------

  /** The ends of two digits. */
  function Join0(x: bv8, y: bv8): (b: bv8) {
    (x << 2) | Top4(y)
  }

  function Join1(x: bv8, y: bv8): (b: bv8) {
    (x << 4) | Top6(y)
  }

  function Join2(x: bv8, y: bv8): (b: bv8) {
    (x << 6) | y
  }

  function Merg0(a: bv8, b: bv8): (r: Option<bv8>) {
    match (UnB64(a), UnB64(b))
    case (Some(x), Some(y)) => Some(Join0(x, y))
    case _ => None
  }

  function Merg1(a: bv8, b: bv8): (r: Option<bv8>) {
    match (UnB64(a), UnB64(b))
    case (Some(x), Some(y)) => Some(Join1(x, y))
    case _ => None
  }

  function Merg2(a: bv8, b: bv8): (r: Option<bv8>) {
    match (UnB64(a), UnB64(b))
    case (Some(x), Some(y)) => Some(Join2(x, y))
    case _ => None
  }

  /** Byte i of the groups before the last one. */
  function ByteAt(s: seq<bv8>, i: nat): (b: Option<bv8>)
    requires 4 * (i / 3) + 4 <= |s|
  {
    var q := i / 3;
    match i % 3
    case 0 => Merg0(s[4 * q], s[4 * q + 1])
    case 1 => Merg1(s[4 * q + 1], s[4 * q + 2])
    case _ => Merg2(s[4 * q + 2], s[4 * q + 3])
  }

  /** The bytes of the last group. */
  function UnPad(a: bv8, b: bv8, c: bv8, d: bv8): (r: seq<Option<bv8>>)
    ensures |r| == if c == PAD then 1 else if d == PAD then 2 else 3
  {
    if c == PAD then [Merg0(a, b)]
    else if d == PAD then [Merg0(a, b), Merg1(b, c)]
    else [Merg0(a, b), Merg1(b, c), Merg2(c, d)]
  }

  /** unsafeFromB64, on at least one group. */
  function UnsafeFromB64(s: seq<bv8>): (r: seq<Option<bv8>>)
    requires |s| >= 4 && |s| % 4 == 0
  {
    var n := |s| / 4 - 1;
    seq(3 * n, i requires 0 <= i < 3 * n => ByteAt(s, i)) + UnPad(s[4 * n], s[4 * n + 1], s[4 * n + 2], s[4 * n + 3])
  }

  /** isAlpha of a character below 256: the letters of Latin-1. */
  predicate IsAlpha(c: bv8) {
    || 0x41 <= c <= 0x5a || 0x61 <= c <= 0x7a || c == 0xaa || c == 0xb5 || c == 0xba
    || (0xc0 <= c && c != 0xd7 && c != 0xf7)
  }

  predicate IsB64Char(c: bv8) {
    IsAlpha(c) || 0x30 <= c <= 0x39 || c == 0x2b || c == 0x2f
  }

  function DropDigits(s: seq<bv8>): (r: seq<bv8>) {
    if s != [] && IsB64Char(s[0]) then DropDigits(s[1..]) else s
  }

  predicate OkeyPad(s: seq<bv8>) {
    var padPart := DropDigits(s);
    padPart == [] || padPart == [PAD] || padPart == [PAD, PAD]
  }

  /** What evaluating a string of bytes gives. */
  function Force(r: seq<Option<bv8>>): (o: Outcome) {
    if forall i :: 0 <= i < |r| ==> r[i].Some?
    then Parsed(seq(|r|, i requires 0 <= i < |r| && r[i].Some? => r[i].value))
    else Error
  }

  /** fromByteString */
  function FromByteString(s: seq<bv8>): (o: Outcome) {
    if s == [] then Parsed([])
    else if |s| % 4 != 0 then Rejected
    else if OkeyPad(s) then Force(UnsafeFromB64(s))
    else Rejected
  }

  // ---------------------------------------------------------------------
  // One group
  // ---------------------------------------------------------------------

  lemma First(x: bv8, y: bv8)
    ensures Join0(Top6(x), Pack1(y, x)) == x
  {
  }

  lemma Second(x: bv8, y: bv8, z: bv8)
    ensures Join1(Pack1(y, x), Pack2(z, y)) == y
  {
  }

  lemma Third(y: bv8, z: bv8)
    ensures Join2(Pack2(z, y), Bot6(z)) == z
  {
  }

  /** Decoding the digits of a group, of which the padding may replace the last ones. */
  lemma GroupDecodes(x: bv8, y: bv8, z: bv8)
    ensures Merg0(Byte0(x), Byte1(y, x)) == Some(x)
    ensures Merg1(Byte1(y, x), Byte2(z, y)) == Some(y)
    ensures Merg2(Byte2(z, y), Byte3(z)) == Some(z)
    ensures Digit(Byte0(x)) && Digit(Byte1(y, x)) && Digit(Byte2(z, y)) && Digit(Byte3(z))
  {
    hide Top6, Top4, Top2, Bot2, Bot4, Bot6, B64, UnB64, Pack1, Pack2, Join0, Join1, Join2;
    First(x, y);
    Second(x, y, z);
    Third(y, z);
    Small(y, x);
    Small(z, y);
    Small(0, z);
    DigitOf(Top6(x));
    DigitOf(Pack1(y, x));
    DigitOf(Pack2(z, y));
    DigitOf(Bot6(z));
  }

  lemma FirstDigit(a: bv8, b: bv8)
    requires a < 64 && b < 64
    ensures Top6(Join0(a, b)) == a
  {
  }

  lemma SecondDigit(a: bv8, b: bv8, c: bv8)
    requires a < 64 && b < 64 && c < 64
    ensures Pack1(Join1(b, c), Join0(a, b)) == b
  {
  }

  lemma ThirdDigit(b: bv8, c: bv8, d: bv8)
    requires b < 64 && c < 64 && d < 64
    ensures Pack2(Join2(c, d), Join1(b, c)) == c
  {
  }

  lemma FourthDigit(c: bv8, d: bv8)
    requires c < 64 && d < 64
    ensures Bot6(Join2(c, d)) == d
  {
  }

  /** Encoding what four digits decode to. */
  lemma GroupEncodes(a: bv8, b: bv8, c: bv8, d: bv8)
    requires Digit(a) && Digit(b) && Digit(c) && Digit(d)
    ensures Merg0(a, b).Some? && Merg1(b, c).Some? && Merg2(c, d).Some?
    ensures var x, y, z := Merg0(a, b).value, Merg1(b, c).value, Merg2(c, d).value;
            Byte0(x) == a && Byte1(y, x) == b && Byte2(z, y) == c && Byte3(z) == d
  {
    hide Top6, Top4, Top2, Bot2, Bot4, Bot6, B64, UnB64, Pack1, Pack2, Join0, Join1, Join2;
    CharOf(a);
    CharOf(b);
    CharOf(c);
    CharOf(d);
    FirstDigit(UnB64(a).value, UnB64(b).value);
    SecondDigit(UnB64(a).value, UnB64(b).value, UnB64(c).value);
    ThirdDigit(UnB64(b).value, UnB64(c).value, UnB64(d).value);
    FourthDigit(UnB64(c).value, UnB64(d).value);
  }

  // ---------------------------------------------------------------------
  // The bits that the padding leaves unused
  // ---------------------------------------------------------------------

  lemma FourUnused(a: bv8, b: bv8)
    requires a < 64 && b < 64
    ensures Pack1(0, Join0(a, b)) == b <==> b & 0x0f == 0
  {
  }

  lemma TwoUnused(b: bv8, c: bv8)
    requires b < 64 && c < 64
    ensures Pack2(0, Join1(b, c)) == c <==> c & 0x03 == 0
  {
  }

  lemma SameDigit(v: bv8, w: bv8)
    requires v < 64 && w < 64
    ensures B64(v) == B64(w) <==> v == w
  {
    DigitOf(v);
    DigitOf(w);
    hide B64, UnB64;
  }

  lemma TwoDigits(a: bv8, b: bv8)
    requires Digit(a) && Digit(b)
    ensures Merg0(a, b).Some? && Byte0(Merg0(a, b).value) == a
    ensures Byte1(0, Merg0(a, b).value) == b <==> UnB64(b).value & 0x0f == 0
  {
    hide Top6, Top4, Top2, Bot2, Bot4, Bot6, B64, UnB64, Pack1, Pack2, Join0, Join1, Join2;
    CharOf(a);
    CharOf(b);
    var v, w := UnB64(a).value, UnB64(b).value;
    FirstDigit(v, w);
    FourUnused(v, w);
    Small(0, Join0(v, w));
    SameDigit(Pack1(0, Join0(v, w)), w);
  }

  lemma ThreeDigits(a: bv8, b: bv8, c: bv8)
    requires Digit(a) && Digit(b) && Digit(c)
    ensures Merg0(a, b).Some? && Merg1(b, c).Some?
    ensures var x, y := Merg0(a, b).value, Merg1(b, c).value;
            Byte0(x) == a && Byte1(y, x) == b && (Byte2(0, y) == c <==> UnB64(c).value & 0x03 == 0)
  {
    hide Top6, Top4, Top2, Bot2, Bot4, Bot6, B64, UnB64, Pack1, Pack2, Join0, Join1, Join2;
    CharOf(a);
    CharOf(b);
    CharOf(c);
    var u, v, w := UnB64(a).value, UnB64(b).value, UnB64(c).value;
    FirstDigit(u, v);
    SecondDigit(u, v, w);
    TwoUnused(v, w);
    Small(0, Join1(v, w));
    SameDigit(Pack2(0, Join1(v, w)), w);
  }

  // ---------------------------------------------------------------------
  // The check of the padding
  // ---------------------------------------------------------------------

  /** Characters that isB64Char accepts, and then p padding characters. */
  ghost predicate Shaped(s: seq<bv8>, p: nat) {
    && p <= |s| && (forall i :: 0 <= i < |s| - p ==> IsB64Char(s[i]))
    && (forall i :: |s| - p <= i < |s| ==> s[i] == PAD)
  }

  lemma {:induction false} DropAll(s: seq<bv8>, k: nat)
    requires k <= |s| && (forall i :: 0 <= i < k ==> IsB64Char(s[i])) && (k < |s| ==> !IsB64Char(s[k]))
    ensures DropDigits(s) == s[k..]
  {
    hide IsB64Char;
    if k == 0 {
    } else {
      DropAll(s[1..], k - 1);
    }
  }

  lemma {:induction false} DropCount(s: seq<bv8>) returns (k: nat)
    ensures k <= |s| && (forall i :: 0 <= i < k ==> IsB64Char(s[i])) && DropDigits(s) == s[k..]
  {
    hide IsB64Char;
    if s == [] || !IsB64Char(s[0]) {
      k := 0;
    } else {
      var rest := DropCount(s[1..]);
      k := rest + 1;
      assert forall i :: 1 <= i < k ==> s[i] == s[1..][i - 1];
    }
  }

  lemma PadIsNoDigit()
    ensures !IsB64Char(PAD)
  {
  }

  lemma PadShaped(s: seq<bv8>)
    requires OkeyPad(s)
    ensures Shaped(s, 0) || Shaped(s, 1) || Shaped(s, 2)
  {
    hide IsB64Char, DropDigits;
    var k := DropCount(s);
    assert |s[k..]| <= 2;
    forall i | k <= i < |s| ensures s[i] == PAD {
      assert s[i] == s[k..][i - k];
    }
    assert Shaped(s, |s| - k);
  }

  lemma ShapedPad(s: seq<bv8>, p: nat)
    requires p <= 2 && Shaped(s, p)
    ensures OkeyPad(s)
  {
    hide IsB64Char, DropDigits;
    PadIsNoDigit();
    DropAll(s, |s| - p);
    assert |s[|s| - p..]| == p;
  }

  /** The padding check accepts at most two padding characters, all of them at the end. */
  lemma OkeyPadIs(s: seq<bv8>)
    ensures OkeyPad(s) <==> Shaped(s, 0) || Shaped(s, 1) || Shaped(s, 2)
  {
    hide *;
    if OkeyPad(s) {
      PadShaped(s);
    }
    if Shaped(s, 0) {
      ShapedPad(s, 0);
    } else if Shaped(s, 1) {
      ShapedPad(s, 1);
    } else if Shaped(s, 2) {
      ShapedPad(s, 2);
    }
  }

  lemma DigitsAreChars(c: bv8)
    ensures Digit(c) ==> IsB64Char(c)
    ensures IsB64Char(c) && c < 0x80 ==> Digit(c)
  {
  }

  // ---------------------------------------------------------------------
  // Round trip
  // ---------------------------------------------------------------------

  lemma GroupChars(bs: seq<bv8>, q: nat)
    requires q < |bs| / 3
    ensures |ToB64(bs)| == 4 * (|bs| / 3) + |Padding(bs)|
    ensures var s := ToB64(bs);
            && s[4 * q] == Byte0(bs[3 * q]) && s[4 * q + 1] == Byte1(bs[3 * q + 1], bs[3 * q])
            && s[4 * q + 2] == Byte2(bs[3 * q + 2], bs[3 * q + 1]) && s[4 * q + 3] == Byte3(bs[3 * q + 2])
  {
    hide Byte0, Byte1, Byte2, Byte3, Padding;
    var s := ToB64(bs);
    assert s[4 * q] == CharAt(bs, 4 * q) && s[4 * q + 1] == CharAt(bs, 4 * q + 1);
    assert s[4 * q + 2] == CharAt(bs, 4 * q + 2) && s[4 * q + 3] == CharAt(bs, 4 * q + 3);
  }

  lemma LastChars(bs: seq<bv8>)
    ensures |ToB64(bs)| == 4 * (|bs| / 3) + |Padding(bs)|
    ensures forall k :: 0 <= k < |Padding(bs)| ==> ToB64(bs)[4 * (|bs| / 3) + k] == Padding(bs)[k]
  {
    hide Padding;
  }

  /** The length is that of all groups of three bytes, the last one rounded up. */
  lemma EncodedLength(bs: seq<bv8>)
    ensures |ToB64(bs)| == 4 * ((|bs| + 2) / 3)
  {
    LastChars(bs);
  }

  /** Bytes of the groups before the last one. */
  lemma GroupBytes(bs: seq<bv8>, i: nat)
    requires i / 3 < |bs| / 3
    ensures i < |bs| && 4 * (i / 3) + 4 <= |ToB64(bs)| && ByteAt(ToB64(bs), i) == Some(bs[i])
  {
    hide Byte0, Byte1, Byte2, Byte3, Merg0, Merg1, Merg2, ToB64, Padding, Digit;
    var q := i / 3;
    GroupChars(bs, q);
    GroupDecodes(bs[3 * q], bs[3 * q + 1], bs[3 * q + 2]);
  }

  ghost function Wrapped(bs: seq<bv8>): (r: seq<Option<bv8>>)
    ensures |r| == |bs|
  {
    seq(|bs|, i requires 0 <= i < |bs| => Some(bs[i]))
  }

  lemma Forced(bs: seq<bv8>)
    ensures Force(Wrapped(bs)) == Parsed(bs)
  {
  }

  lemma WholeLast(bs: seq<bv8>, n: nat)
    requires |bs| == 3 * n + 3
    ensures |ToB64(bs)| == 4 * n + 4
    ensures var s := ToB64(bs); UnPad(s[4 * n], s[4 * n + 1], s[4 * n + 2], s[4 * n + 3]) == Wrapped(bs[3 * n..])
  {
    EncodedLength(bs);
    hide Byte0, Byte1, Byte2, Byte3, Merg0, Merg1, Merg2, ToB64, Padding, Digit;
    GroupChars(bs, n);
    GroupDecodes(bs[3 * n], bs[3 * n + 1], bs[3 * n + 2]);
    var s := ToB64(bs);
    DigitIsNoPad(s[4 * n + 2]);
    DigitIsNoPad(s[4 * n + 3]);
  }

  lemma OneLast(bs: seq<bv8>, n: nat)
    requires |bs| == 3 * n + 1
    ensures |ToB64(bs)| == 4 * n + 4
    ensures var s := ToB64(bs); UnPad(s[4 * n], s[4 * n + 1], s[4 * n + 2], s[4 * n + 3]) == Wrapped(bs[3 * n..])
  {
    LastChars(bs);
    hide Byte0, Byte1, Byte2, Byte3, Merg0, Merg1, Merg2, ToB64, Digit;
    GroupDecodes(bs[3 * n], 0, 0);
    var s := ToB64(bs);
    assert s[4 * n + 0] == Padding(bs)[0] && s[4 * n + 1] == Padding(bs)[1] && s[4 * n + 2] == Padding(bs)[2];
  }

  lemma TwoLast(bs: seq<bv8>, n: nat)
    requires |bs| == 3 * n + 2
    ensures |ToB64(bs)| == 4 * n + 4
    ensures var s := ToB64(bs); UnPad(s[4 * n], s[4 * n + 1], s[4 * n + 2], s[4 * n + 3]) == Wrapped(bs[3 * n..])
  {
    LastChars(bs);
    hide Byte0, Byte1, Byte2, Byte3, Merg0, Merg1, Merg2, ToB64, Digit;
    GroupDecodes(bs[3 * n], bs[3 * n + 1], 0);
    var s := ToB64(bs);
    assert s[4 * n + 0] == Padding(bs)[0] && s[4 * n + 1] == Padding(bs)[1];
    assert s[4 * n + 2] == Padding(bs)[2] && s[4 * n + 3] == Padding(bs)[3];
    DigitIsNoPad(s[4 * n + 2]);
  }

  /** The last group, with or without padding. */
  lemma LastBytes(bs: seq<bv8>)
    requires bs != []
    ensures |ToB64(bs)| == 4 * ((|bs| + 2) / 3)
    ensures var s, n := ToB64(bs), (|bs| + 2) / 3 - 1;
            UnPad(s[4 * n], s[4 * n + 1], s[4 * n + 2], s[4 * n + 3]) == Wrapped(bs[3 * n..])
  {
    hide *;
    var n := (|bs| + 2) / 3 - 1;
    if |bs| == 3 * n + 3 {
      WholeLast(bs, n);
    } else if |bs| == 3 * n + 1 {
      OneLast(bs, n);
    } else {
      TwoLast(bs, n);
    }
  }

  lemma DigitIsNoPad(c: bv8)
    requires Digit(c)
    ensures c != PAD
  {
  }

  lemma AllBytes(bs: seq<bv8>)
    requires bs != []
    ensures |ToB64(bs)| == 4 * ((|bs| + 2) / 3) && UnsafeFromB64(ToB64(bs)) == Wrapped(bs)
  {
    hide ByteAt, UnPad, ToB64, Merg0, Merg1, Merg2;
    var s, n := ToB64(bs), (|bs| + 2) / 3 - 1;
    LastBytes(bs);
    forall i | 0 <= i < 3 * n ensures i < |bs| && ByteAt(s, i) == Some(bs[i]) {
      GroupBytes(bs, i);
    }
    assert Wrapped(bs) == Wrapped(bs[..3 * n]) + Wrapped(bs[3 * n..]);
  }

  /** Every character that is printed is a digit, but for the padding. */
  lemma PrintedDigits(bs: seq<bv8>, i: nat)
    requires i < 4 * (|bs| / 3)
    ensures Digit(CharAt(bs, i))
  {
    hide Byte0, Byte1, Byte2, Byte3, Digit, Merg0, Merg1, Merg2;
    var q := i / 4;
    GroupDecodes(bs[3 * q], bs[3 * q + 1], bs[3 * q + 2]);
  }

  lemma PaddingShape(bs: seq<bv8>)
    ensures var p := if |bs| % 3 == 0 then 0 else 3 - |bs| % 3;
            p <= |Padding(bs)|
            && (forall i :: 0 <= i < |Padding(bs)| - p ==> Digit(Padding(bs)[i]))
            && (forall i :: |Padding(bs)| - p <= i < |Padding(bs)| ==> Padding(bs)[i] == PAD)
  {
    hide Byte0, Byte1, Byte2, Byte3, Digit, Merg0, Merg1, Merg2;
    var n := |bs| / 3;
    if |bs| % 3 == 1 {
      GroupDecodes(bs[3 * n], 0, 0);
    } else if |bs| % 3 == 2 {
      GroupDecodes(bs[3 * n], bs[3 * n + 1], 0);
    }
  }

  lemma PrintedShape(bs: seq<bv8>)
    ensures Shaped(ToB64(bs), if |bs| % 3 == 0 then 0 else 3 - |bs| % 3)
  {
    hide Byte0, Byte1, Byte2, Byte3, Digit, IsB64Char, Padding, CharAt;
    PaddingShape(bs);
    var s, m := ToB64(bs), 4 * (|bs| / 3);
    var p := if |bs| % 3 == 0 then 0 else 3 - |bs| % 3;
    forall i | 0 <= i < |s| - p ensures IsB64Char(s[i]) {
      if i < m { PrintedDigits(bs, i); }
      DigitsAreChars(s[i]);
    }
  }

  /** Parsing what was printed gives back the bytes, whatever they are and however many. */
  lemma RoundTrip(bs: seq<bv8>)
    ensures |ToB64(bs)| % 4 == 0 && FromByteString(ToB64(bs)) == Parsed(bs)
  {
    EncodedLength(bs);
    hide Force, UnsafeFromB64, OkeyPad, Shaped;
    if bs == [] {
      assert ToB64(bs) == [];
    } else {
      hide ToB64;
      PrintedShape(bs);
      OkeyPadIs(ToB64(bs));
      AllBytes(bs);
      Forced(bs);
    }
  }

  // ---------------------------------------------------------------------
  // What the parser makes of any string
  // ---------------------------------------------------------------------

  /** Whole groups, with at most two padding characters at the end of the last one. */
  ghost predicate Accepted(s: seq<bv8>) {
    s != [] && |s| % 4 == 0 && (Shaped(s, 0) || Shaped(s, 1) || Shaped(s, 2))
  }

  /** A letter of Latin-1 that is not in ASCII. */
  ghost predicate Foreign(s: seq<bv8>) {
    exists i :: 0 <= i < |s| && s[i] >= 0x80
  }

  lemma MergNone(a: bv8, b: bv8)
    ensures Merg0(a, b).Some? <==> Digit(a) && Digit(b)
    ensures Merg1(a, b).Some? <==> Digit(a) && Digit(b)
    ensures Merg2(a, b).Some? <==> Digit(a) && Digit(b)
  {
    hide UnB64, Join0, Join1, Join2;
  }

  lemma CharCases(c: bv8)
    ensures Digit(c) ==> c < 0x80 && c != PAD
    ensures IsB64Char(c) && !Digit(c) ==> c >= 0x80
    ensures PAD < 0x80
  {
  }

  /** The byte that uses character r of its group. */
  function Using(r: nat): (k: nat)
    requires r < 4
    ensures k < 3
  {
    if r == 0 then 0 else r - 1
  }

  lemma ByteNeeds(s: seq<bv8>, i: nat)
    requires 4 * (i / 3) + 4 <= |s|
    ensures ByteAt(s, i).Some? <==> Digit(s[4 * (i / 3) + i % 3]) && Digit(s[4 * (i / 3) + i % 3 + 1])
  {
    hide Merg0, Merg1, Merg2, Digit;
    var q, r := i / 3, i % 3;
    MergNone(s[4 * q + r], s[4 * q + r + 1]);
  }

  lemma UnPadNeeds(a: bv8, b: bv8, c: bv8, d: bv8, k: nat)
    requires k < |UnPad(a, b, c, d)|
    ensures UnPad(a, b, c, d)[k].Some? <==> Digit([a, b, c, d][k]) && Digit([a, b, c, d][k + 1])
  {
    hide Merg0, Merg1, Merg2, Digit;
    MergNone([a, b, c, d][k], [a, b, c, d][k + 1]);
  }

  /** Each byte is there if the two characters it comes from are digits. */
  lemma DecodedNeeds(s: seq<bv8>, k: nat)
    requires |s| >= 4 && |s| % 4 == 0 && k < |UnsafeFromB64(s)|
    ensures k < 3 * (|s| / 4) && 4 * (k / 3) + 4 <= |s|
    ensures UnsafeFromB64(s)[k].Some? <==> Digit(s[4 * (k / 3) + k % 3]) && Digit(s[4 * (k / 3) + k % 3 + 1])
  {
    hide ByteAt, UnPad, Digit;
    var n := |s| / 4 - 1;
    if k < 3 * n {
      ByteNeeds(s, k);
    } else {
      UnPadNeeds(s[4 * n], s[4 * n + 1], s[4 * n + 2], s[4 * n + 3], k - 3 * n);
    }
  }

  /** How many bytes come out of a string with p padding characters. */
  lemma DecodedLength(s: seq<bv8>, p: nat)
    requires s != [] && |s| % 4 == 0 && p <= 2 && Shaped(s, p)
    ensures |UnsafeFromB64(s)| == 3 * (|s| / 4) - p
  {
    PadIsNoDigit();
    hide ByteAt, IsB64Char;
  }

  lemma AllDigits(s: seq<bv8>, p: nat)
    requires s != [] && |s| % 4 == 0 && p <= 2 && Shaped(s, p) && !Foreign(s)
    ensures forall k :: 0 <= k < |UnsafeFromB64(s)| ==> UnsafeFromB64(s)[k].Some?
  {
    DecodedLength(s, p);
    hide UnsafeFromB64, Digit, IsB64Char;
    forall k | 0 <= k < |UnsafeFromB64(s)| ensures UnsafeFromB64(s)[k].Some? {
      DecodedNeeds(s, k);
      CharCases(s[4 * (k / 3) + k % 3]);
      CharCases(s[4 * (k / 3) + k % 3 + 1]);
    }
  }

  lemma SomeForeign(s: seq<bv8>, p: nat) returns (k: nat)
    requires s != [] && |s| % 4 == 0 && p <= 2 && Shaped(s, p) && Foreign(s)
    ensures k < |UnsafeFromB64(s)| && !UnsafeFromB64(s)[k].Some?
  {
    hide UnsafeFromB64, Digit, IsB64Char;
    DecodedLength(s, p);
    var i :| 0 <= i < |s| && s[i] >= 0x80;
    CharCases(s[i]);
    k := 3 * (i / 4) + Using(i % 4);
    DecodedNeeds(s, k);
  }

  /** Parsing fails as it should on exactly the strings that are not whole groups with their padding, and
      ends in a call of error on exactly those that have letters outside ASCII in them. */
  lemma Outcomes(s: seq<bv8>)
    ensures FromByteString(s).Rejected? <==> s != [] && !Accepted(s)
    ensures FromByteString(s).Error? <==> Accepted(s) && Foreign(s)
  {
    OkeyPadIs(s);
    hide UnsafeFromB64, Shaped, Foreign, OkeyPad;
    if Accepted(s) {
      var p := if Shaped(s, 0) then 0 else if Shaped(s, 1) then 1 else 2;
      if Foreign(s) {
        var k := SomeForeign(s, p);
      } else {
        AllDigits(s, p);
      }
    }
  }

  /** A capital A with diaeresis passes the check, and no digit. */
  lemma LatinLetter()
    ensures FromByteString([0xc4, 0x41, 0x41, 0x41]).Error?
  {
    var s: seq<bv8> := [0xc4, 0x41, 0x41, 0x41];
    assert s[0] >= 0x80;
    assert Shaped(s, 0);
    Outcomes(s);
    hide FromByteString;
  }

  // ---------------------------------------------------------------------
  // The strings that printing gives back
  // ---------------------------------------------------------------------

  /** The bits that the padding leaves unused are zero. */
  predicate Canonical(s: seq<bv8>)
    requires |s| % 4 == 0
  {
    s == [] ||
    var b, c, d := s[|s| - 3], s[|s| - 2], s[|s| - 1];
    if c == PAD then UnB64(b).Some? && UnB64(b).value & 0x0f == 0
    else d == PAD ==> UnB64(c).Some? && UnB64(c).value & 0x03 == 0
  }

  ghost predicate DecodesTo(s: seq<bv8>, r: seq<bv8>) {
    |s| >= 4 && |s| % 4 == 0 && UnsafeFromB64(s) == Wrapped(r)
  }

  lemma BytesOfGroup(s: seq<bv8>, r: seq<bv8>, q: nat)
    requires DecodesTo(s, r) && q < |s| / 4 - 1
    ensures 3 * q + 3 <= |r| && Merg0(s[4 * q], s[4 * q + 1]) == Some(r[3 * q])
    ensures Merg1(s[4 * q + 1], s[4 * q + 2]) == Some(r[3 * q + 1])
    ensures Merg2(s[4 * q + 2], s[4 * q + 3]) == Some(r[3 * q + 2])
  {
    hide Merg0, Merg1, Merg2, UnPad;
    var u := UnsafeFromB64(s);
    assert u[3 * q] == ByteAt(s, 3 * q) && u[3 * q + 1] == ByteAt(s, 3 * q + 1) && u[3 * q + 2] == ByteAt(s, 3 * q + 2);
  }

  /** Groups without padding are printed as they were. */
  lemma GroupPrinted(s: seq<bv8>, r: seq<bv8>, q: nat)
    requires DecodesTo(s, r) && q < |s| / 4 - 1
    ensures q < |r| / 3 && 4 * q + 4 <= |ToB64(r)| && ToB64(r)[4 * q..4 * q + 4] == s[4 * q..4 * q + 4]
  {
    hide Merg0, Merg1, Merg2, DecodesTo, ToB64, Byte0, Byte1, Byte2, Byte3, Padding, Digit;
    Size(s, r);
    BytesOfGroup(s, r, q);
    GroupChars(r, q);
    MergNone(s[4 * q], s[4 * q + 1]);
    MergNone(s[4 * q + 2], s[4 * q + 3]);
    GroupEncodes(s[4 * q], s[4 * q + 1], s[4 * q + 2], s[4 * q + 3]);
  }

  lemma Size(s: seq<bv8>, r: seq<bv8>)
    requires DecodesTo(s, r)
    ensures |s| >= 4 && |s| % 4 == 0 && 3 * (|s| / 4) - 3 < |r| <= 3 * (|s| / 4)
  {
    hide ByteAt, Merg0, Merg1, Merg2;
  }

  lemma BytesOfLast(s: seq<bv8>, r: seq<bv8>)
    requires DecodesTo(s, r)
    ensures var n := |s| / 4 - 1;
            |r| > 3 * n && UnPad(s[4 * n], s[4 * n + 1], s[4 * n + 2], s[4 * n + 3]) == Wrapped(r)[3 * n..]
  {
    hide ByteAt, UnPad;
  }

  /** The bytes of the last group, by the number of its padding characters. */
  lemma LastParsed(s: seq<bv8>, r: seq<bv8>, n: nat)
    requires DecodesTo(s, r) && |s| == 4 * n + 4
    ensures |r| > 3 * n && Merg0(s[4 * n], s[4 * n + 1]) == Some(r[3 * n])
    ensures |r| == if s[4 * n + 2] == PAD then 3 * n + 1 else if s[4 * n + 3] == PAD then 3 * n + 2 else 3 * n + 3
    ensures s[4 * n + 2] != PAD ==> Merg1(s[4 * n + 1], s[4 * n + 2]) == Some(r[3 * n + 1])
    ensures s[4 * n + 2] != PAD && s[4 * n + 3] != PAD ==> Merg2(s[4 * n + 2], s[4 * n + 3]) == Some(r[3 * n + 2])
  {
    hide Merg0, Merg1, Merg2, DecodesTo;
    BytesOfLast(s, r);
    var w := Wrapped(r)[3 * n..];
    assert w[0] == Some(r[3 * n]);
    assert |w| > 1 ==> w[1] == Some(r[3 * n + 1]);
    assert |w| > 2 ==> w[2] == Some(r[3 * n + 2]);
  }

  /** The last group as it is printed. */
  lemma WholeText(r: seq<bv8>, n: nat)
    requires |r| == 3 * n + 3
    ensures |ToB64(r)| == 4 * n + 4
    ensures ToB64(r)[4 * n..] == [Byte0(r[3 * n]), Byte1(r[3 * n + 1], r[3 * n]), Byte2(r[3 * n + 2], r[3 * n + 1]),
                                  Byte3(r[3 * n + 2])]
  {
    hide *;
    EncodedLength(r);
    GroupChars(r, n);
    TextOf(ToB64(r), n);
  }

  lemma PaddingOf(r: seq<bv8>, n: nat)
    requires |r| == 3 * n + 1 || |r| == 3 * n + 2
    ensures |r| / 3 == n && |Padding(r)| == 4
    ensures Padding(r) == if |r| == 3 * n + 2
                          then [Byte0(r[3 * n]), Byte1(r[3 * n + 1], r[3 * n]), Byte2(0, r[3 * n + 1]), PAD]
                          else [Byte0(r[3 * n]), Byte1(0, r[3 * n]), PAD, PAD]
  {
    hide Byte0, Byte1, Byte2, Byte3;
    assert |r| / 3 == n;
  }

  lemma PaddedText(r: seq<bv8>, n: nat)
    requires |r| == 3 * n + 1 || |r| == 3 * n + 2
    ensures |ToB64(r)| == 4 * n + 4
    ensures ToB64(r)[4 * n..] == if |r| == 3 * n + 2
                                 then [Byte0(r[3 * n]), Byte1(r[3 * n + 1], r[3 * n]), Byte2(0, r[3 * n + 1]), PAD]
                                 else [Byte0(r[3 * n]), Byte1(0, r[3 * n]), PAD, PAD]
  {
    hide *;
    PaddingOf(r, n);
    LastChars(r);
    Ends(ToB64(r), 4 * n, Padding(r));
  }

  lemma TextOf(s: seq<bv8>, n: nat)
    requires |s| == 4 * n + 4
    ensures s[4 * n..] == [s[4 * n], s[4 * n + 1], s[4 * n + 2], s[4 * n + 3]]
  {
  }

  lemma PrintedWhole(s: seq<bv8>, r: seq<bv8>, n: nat)
    requires DecodesTo(s, r) && |s| == 4 * n + 4 && Digit(s[4 * n + 2]) && Digit(s[4 * n + 3])
    ensures |ToB64(r)| == |s| && ToB64(r)[4 * n..] == s[4 * n..]
  {
    hide *;
    var a, b, c, d := s[4 * n], s[4 * n + 1], s[4 * n + 2], s[4 * n + 3];
    DigitIsNoPad(c);
    DigitIsNoPad(d);
    LastParsed(s, r, n);
    MergNone(a, b);
    GroupEncodes(a, b, c, d);
    WholeText(r, n);
    TextOf(s, n);
  }

  lemma PrintedThree(s: seq<bv8>, r: seq<bv8>, n: nat)
    requires DecodesTo(s, r) && |s| == 4 * n + 4 && Digit(s[4 * n + 2]) && s[4 * n + 3] == PAD
    ensures UnB64(s[4 * n + 2]).Some?
    ensures |ToB64(r)| == |s| && (ToB64(r)[4 * n..] == s[4 * n..] <==> UnB64(s[4 * n + 2]).value & 0x03 == 0)
  {
    hide *;
    var a, b, c := s[4 * n], s[4 * n + 1], s[4 * n + 2];
    DigitIsNoPad(c);
    IsDigit(c);
    LastParsed(s, r, n);
    MergNone(a, b);
    ThreeDigits(a, b, c);
    PaddedText(r, n);
    TextOf(s, n);
  }

  lemma PrintedTwo(s: seq<bv8>, r: seq<bv8>, n: nat)
    requires DecodesTo(s, r) && |s| == 4 * n + 4 && s[4 * n + 2] == s[4 * n + 3] == PAD
    ensures UnB64(s[4 * n + 1]).Some?
    ensures |ToB64(r)| == |s| && (ToB64(r)[4 * n..] == s[4 * n..] <==> UnB64(s[4 * n + 1]).value & 0x0f == 0)
  {
    hide *;
    var a, b := s[4 * n], s[4 * n + 1];
    LastParsed(s, r, n);
    MergNone(a, b);
    IsDigit(b);
    TwoDigits(a, b);
    PaddedText(r, n);
    TextOf(s, n);
  }

  lemma Ends(s: seq<bv8>, m: nat, t: seq<bv8>)
    requires |s| == m + |t| && forall k :: 0 <= k < |t| ==> s[m + k] == t[k]
    ensures s[m..] == t
  {
  }

  lemma LastPrinted(s: seq<bv8>, r: seq<bv8>, n: nat, p: nat)
    requires DecodesTo(s, r) && |s| == 4 * n + 4 && p <= 2 && Shaped(s, p) && !Foreign(s)
    ensures |ToB64(r)| == |s| && (ToB64(r)[4 * n..] == s[4 * n..] <==> Canonical(s))
  {
    hide DecodesTo, ToB64, UnB64, IsB64Char, Digit;
    CharCases(s[4 * n + 2]);
    CharCases(s[4 * n + 3]);
    if p == 0 {
      PrintedWhole(s, r, n);
    } else if p == 1 {
      PrintedThree(s, r, n);
    } else {
      PrintedTwo(s, r, n);
    }
  }

  lemma IsDigit(c: bv8)
    ensures Digit(c) <==> UnB64(c).Some?
  {
  }

  /** Printing what was parsed gives back the string exactly when the unused bits are zero. */
  lemma PrintedBack(s: seq<bv8>)
    requires FromByteString(s).Parsed?
    ensures |s| % 4 == 0 && (ToB64(FromByteString(s).bytes) == s <==> Canonical(s))
  {
    Outcomes(s);
    if s == [] {
      assert ToB64([]) == [];
    } else {
      hide ToB64, Canonical, OkeyPad, UnsafeFromB64, Shaped;
      var r, n := FromByteString(s).bytes, |s| / 4 - 1;
      var p := if Shaped(s, 0) then 0 else if Shaped(s, 1) then 1 else 2;
      Unwrapped(UnsafeFromB64(s), r);
      LastPrinted(s, r, n, p);
      forall q | 0 <= q < n ensures ToB64(r)[4 * q..4 * q + 4] == s[4 * q..4 * q + 4] {
        GroupPrinted(s, r, q);
      }
      GroupByGroup(ToB64(r), s, n);
    }
  }

  lemma Unwrapped(u: seq<Option<bv8>>, r: seq<bv8>)
    requires Force(u) == Parsed(r)
    ensures u == Wrapped(r)
  {
  }

  lemma GroupByGroup(s: seq<bv8>, t: seq<bv8>, n: nat)
    requires |s| == |t| == 4 * n + 4 && forall q :: 0 <= q < n ==> s[4 * q..4 * q + 4] == t[4 * q..4 * q + 4]
    ensures s == t <==> s[4 * n..] == t[4 * n..]
  {
    if s[4 * n..] == t[4 * n..] {
      forall i | 0 <= i < |s| ensures s[i] == t[i] {
        var q, r := i / 4, i % 4;
        if q < n {
          assert s[i] == s[4 * q..4 * q + 4][r] && t[i] == t[4 * q..4 * q + 4][r];
        } else {
          assert s[i] == s[4 * n..][r] && t[i] == t[4 * n..][r];
        }
      }
    }
  }

  /** The text QR== parses to the letter A, which is printed as QQ==. */
  lemma StrayBits()
    ensures var s := [0x51, 0x52, PAD, PAD];
            FromByteString(s).Parsed? && ToB64(FromByteString(s).bytes) != s
  {
    var s := [0x51, 0x52, PAD, PAD];
    assert Shaped(s, 2);
    assert UnB64(s[1]) == Some(17);
    assert !Canonical(s);
    hide *;
    Outcomes(s);
    NotForeign(s);
    PrintedBack(s);
  }

  lemma NotForeign(s: seq<bv8>)
    ensures s == [0x51, 0x52, PAD, PAD] ==> !Foreign(s)
  {
  }
}
