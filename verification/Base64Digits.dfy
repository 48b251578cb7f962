/** Base64 as section 4 of RFC 4648 describes it: the digits of a group in base 64, and the alphabet. */
module Base64Digits {
  import opened Words
  import opened Base64

  const UPPER: string := "ABCDEFGHIJKLMNOPQRSTUVWXYZ"
  const LOWER: string := "abcdefghijklmnopqrstuvwxyz"
  const OTHERS: string := "0123456789+/"

  /** Digit d of the alphabet. */
  function Letter(d: nat): (c: char)
    requires d < 64
  {
    (UPPER + LOWER + OTHERS)[d]
  }

  lemma Runs()
    ensures |UPPER| == 26 == |LOWER| && |OTHERS| == 12
    ensures forall k :: 0 <= k < 26 ==> UPPER[k] as int == 0x41 + k
    ensures forall k :: 0 <= k < 26 ==> LOWER[k] as int == 0x61 + k
    ensures forall k :: 0 <= k < 10 ==> OTHERS[k] as int == 0x30 + k
    ensures OTHERS[10] == '+' && OTHERS[11] == '/'
  {
  }

  lemma CharNumber(w: bv8)
    requires w < 64
    ensures w as int < 64
    ensures B64(w) as int == var d := w as int;
      if d <= 25 then 0x41 + d else if d <= 51 then 0x61 + (d - 26) else if d <= 61 then 0x30 + (d - 52)
      else if d == 62 then 0x2b else 0x2f
  {
  }

  lemma LetterNumber(d: nat)
    requires d < 64
    ensures Letter(d) as int ==
      if d <= 25 then 0x41 + d else if d <= 51 then 0x61 + (d - 26) else if d <= 61 then 0x30 + (d - 52)
      else if d == 62 then 0x2b else 0x2f
  {
    Runs();
    hide UPPER, LOWER, OTHERS;
  }

  // ---------------------------------------------------------------------
  // Digits of a group
  // ---------------------------------------------------------------------

  lemma SixAndTwo(x: bv8)
    ensures x as int == Top6(x) as int * 4 + Bot2(x) as int && Top6(x) < 64 && Bot2(x) < 4
  {
  }

  lemma FourAndFour(x: bv8)
    ensures x as int == Top4(x) as int * 16 + Bot4(x) as int && Top4(x) < 16 && Bot4(x) < 16
  {
  }

  lemma TwoAndSix(x: bv8)
    ensures x as int == Top2(x) as int * 64 + Bot6(x) as int && Top2(x) < 4 && Bot6(x) < 64
  {
  }

  lemma Below(b: bv8, c: bv8)
    requires b < c
    ensures 0 <= b as int < c as int
  {
  }

  /** Where the bits of a byte are cut. */
  lemma PartNumbers(x: bv8)
    ensures Top6(x) < 64 && Top6(x) as int == x as int / 4 && Bot2(x) < 4 && Bot2(x) as int == x as int % 4
    ensures Top4(x) < 16 && Top4(x) as int == x as int / 16 && Bot4(x) < 16 && Bot4(x) as int == x as int % 16
    ensures Top2(x) < 4 && Top2(x) as int == x as int / 64 && Bot6(x) < 64 && Bot6(x) as int == x as int % 64
  {
    hide *;
    SixAndTwo(x);
    FourAndFour(x);
    TwoAndSix(x);
    Below(Bot2(x), 4);
    Below(Bot4(x), 16);
    Below(Bot6(x), 64);
    DivModUnique(x as int, 4, Top6(x) as int, Bot2(x) as int);
    DivModUnique(x as int, 16, Top4(x) as int, Bot4(x) as int);
    DivModUnique(x as int, 64, Top2(x) as int, Bot6(x) as int);
  }

  lemma Above4(h: bv8, l: bv8, w: bv8)
    requires h < 4 && l < 16 && w == (h << 4) | l
    ensures w < 64 && w as int == h as int * 16 + l as int
  {
  }

  lemma Above2(h: bv8, l: bv8, w: bv8)
    requires h < 16 && l < 4 && w == (h << 2) | l
    ensures w < 64 && w as int == h as int * 4 + l as int
  {
  }

  lemma Packed(z: bv8, y: bv8)
    ensures Pack1(z, y) == (Bot2(y) << 4) | Top4(z) && Pack2(z, y) == (Bot4(y) << 2) | Top2(z)
  {
    hide Bot2, Bot4, Top2, Top4;
  }

  lemma Pack1Number(y: bv8, x: bv8)
    ensures Pack1(y, x) < 64 && Pack1(y, x) as int == x as int % 4 * 16 + y as int / 16
  {
    hide *;
    PartNumbers(x);
    PartNumbers(y);
    Packed(y, x);
    Above4(Bot2(x), Top4(y), Pack1(y, x));
  }

  lemma Pack2Number(z: bv8, y: bv8)
    ensures Pack2(z, y) < 64 && Pack2(z, y) as int == y as int % 16 * 4 + z as int / 64
  {
    hide *;
    PartNumbers(y);
    PartNumbers(z);
    Packed(z, y);
    Above2(Bot4(y), Top2(z), Pack2(z, y));
  }

  /** The 24 bits of three bytes in base 64. */
  lemma Expansion(x: int, y: int, z: int, n: int)
    requires 0 <= x < 256 && 0 <= y < 256 && 0 <= z < 256 && n == 0x1_0000 * x + 0x100 * y + z
    ensures n / 0x4_0000 == x / 4 && n / 0x1000 % 64 == x % 4 * 16 + y / 16
    ensures n / 0x40 % 64 == y % 16 * 4 + z / 64 && n % 64 == z % 64
  {
    var d1, d2 := x % 4 * 16 + y / 16, y % 16 * 4 + z / 64;
    DivModUnique(n, 0x4_0000, x / 4, 0x1000 * d1 + 0x40 * d2 + z % 64);
    DivModUnique(n, 0x1000, 64 * (x / 4) + d1, 0x40 * d2 + z % 64);
    DivModUnique(64 * (x / 4) + d1, 64, x / 4, d1);
    DivModUnique(n, 0x40, 0x1000 * (x / 4) + 64 * d1 + d2, z % 64);
    DivModUnique(0x1000 * (x / 4) + 64 * d1 + d2, 64, 64 * (x / 4) + d1, d2);
    DivModUnique(n, 64, 0x1000 * (x / 4) + 64 * d1 + d2, z % 64);
  }

  lemma CharIs(w: bv8, d: int)
    requires w < 64 && w as int == d
    ensures 0 <= d < 64 && B64(w) as int == Letter(d) as int
  {
    CharNumber(w);
    LetterNumber(d);
    hide B64, Letter;
  }

  lemma BytesAre(x: bv8, y: bv8, z: bv8)
    ensures 0 <= x as int < 256 && 0 <= y as int < 256 && 0 <= z as int < 256
    ensures Top6(x) < 64 && Pack1(y, x) < 64 && Pack2(z, y) < 64 && Bot6(z) < 64
    ensures Byte0(x) == B64(Top6(x)) && Byte1(y, x) == B64(Pack1(y, x))
    ensures Byte2(z, y) == B64(Pack2(z, y)) && Byte3(z) == B64(Bot6(z))
  {
    hide B64;
  }

  lemma DigitsOfGroup(x: bv8, y: bv8, z: bv8, n: int)
    requires n == 0x1_0000 * x as int + 0x100 * y as int + z as int
    ensures 0 <= n / 0x4_0000 < 64
    ensures Byte0(x) as int == Letter(n / 0x4_0000) as int && Byte1(y, x) as int == Letter(n / 0x1000 % 64) as int
    ensures Byte2(z, y) as int == Letter(n / 0x40 % 64) as int && Byte3(z) as int == Letter(n % 64) as int
  {
    BytesAre(x, y, z);
    hide *;
    PartNumbers(x);
    Pack1Number(y, x);
    Pack2Number(z, y);
    PartNumbers(z);
    Expansion(x as int, y as int, z as int, n);
    CharIs(Top6(x), n / 0x4_0000);
    CharIs(Pack1(y, x), n / 0x1000 % 64);
    CharIs(Pack2(z, y), n / 0x40 % 64);
    CharIs(Bot6(z), n % 64);
  }

  lemma GroupAt(bs: seq<bv8>, q: nat)
    requires q < |bs| / 3
    ensures |ToB64(bs)| >= 4 * q + 4
    ensures var s := ToB64(bs);
            && s[4 * q] == Byte0(bs[3 * q]) && s[4 * q + 1] == Byte1(bs[3 * q + 1], bs[3 * q])
            && s[4 * q + 2] == Byte2(bs[3 * q + 2], bs[3 * q + 1]) && s[4 * q + 3] == Byte3(bs[3 * q + 2])
  {
    hide Byte0, Byte1, Byte2, Byte3, Padding;
    assert ToB64(bs)[4 * q] == CharAt(bs, 4 * q) && ToB64(bs)[4 * q + 1] == CharAt(bs, 4 * q + 1);
    assert ToB64(bs)[4 * q + 2] == CharAt(bs, 4 * q + 2) && ToB64(bs)[4 * q + 3] == CharAt(bs, 4 * q + 3);
  }

  lemma TailIs(bs: seq<bv8>, q: nat)
    requires |bs| / 3 == q && |bs| % 3 != 0
    ensures |ToB64(bs)| == 4 * q + 4
    ensures var s, x := ToB64(bs)[4 * q..], bs[3 * q];
            s == if |bs| % 3 == 1 then [Byte0(x), Byte1(0, x), PAD, PAD]
                 else [Byte0(x), Byte1(bs[3 * q + 1], x), Byte2(0, bs[3 * q + 1]), PAD]
  {
    hide Byte0, Byte1, Byte2, CharAt;
    assert ToB64(bs)[4 * q..] == Padding(bs);
  }

  lemma PadNumber()
    ensures PAD as int == '=' as int
  {
  }

  /** Characters by their numbers. */
  predicate Spell(s: seq<bv8>, a: char, b: char, c: char, d: char) {
    && |s| == 4
    && s[0] as int == a as int && s[1] as int == b as int && s[2] as int == c as int && s[3] as int == d as int
  }

  /** Group q of the text: the four base-64 digits of its 24 bits, most significant first. */
  lemma GroupDigits(bs: seq<bv8>, q: nat, n: nat)
    requires q < |bs| / 3
    requires n == 0x1_0000 * bs[3 * q] as int + 0x100 * bs[3 * q + 1] as int + bs[3 * q + 2] as int
    ensures |ToB64(bs)| >= 4 * q + 4 && n / 0x4_0000 < 64
    ensures Spell(ToB64(bs)[4 * q..4 * q + 4],
                  Letter(n / 0x4_0000), Letter(n / 0x1000 % 64), Letter(n / 0x40 % 64), Letter(n % 64))
  {
    hide ToB64, Letter, Byte0, Byte1, Byte2, Byte3;
    GroupAt(bs, q);
    DigitsOfGroup(bs[3 * q], bs[3 * q + 1], bs[3 * q + 2], n);
  }

  /** One byte left over: its 8 bits and 16 zeros. */
  lemma OneLeft(bs: seq<bv8>, q: nat, n: nat)
    requires |bs| == 3 * q + 1 && n == 0x1_0000 * bs[3 * q] as int
    ensures |ToB64(bs)| == 4 * q + 4 && n / 0x4_0000 < 64
    ensures Spell(ToB64(bs)[4 * q..], Letter(n / 0x4_0000), Letter(n / 0x1000 % 64), '=', '=')
  {
    hide ToB64, Letter, Byte0, Byte1, Byte2, Byte3;
    TailIs(bs, q);
    DigitsOfGroup(bs[3 * q], 0, 0, n);
    PadNumber();
  }

  /** Two bytes left over: their 16 bits and 8 zeros. */
  lemma TwoLeft(bs: seq<bv8>, q: nat, n: nat)
    requires |bs| == 3 * q + 2 && n == 0x1_0000 * bs[3 * q] as int + 0x100 * bs[3 * q + 1] as int
    ensures |ToB64(bs)| == 4 * q + 4 && n / 0x4_0000 < 64
    ensures Spell(ToB64(bs)[4 * q..], Letter(n / 0x4_0000), Letter(n / 0x1000 % 64), Letter(n / 0x40 % 64), '=')
  {
    hide ToB64, Letter, Byte0, Byte1, Byte2, Byte3;
    TailIs(bs, q);
    DigitsOfGroup(bs[3 * q], bs[3 * q + 1], 0, n);
    PadNumber();
  }
}
