/** MixColumns and its inverse on packed rows. */
module AesMix {
  import opened AesBytes

  /** The state of AES as four rows. */
  datatype State = State(r0: bv32, r1: bv32, r2: bv32, r3: bv32)

  // ---------------------------------------------------------------------
  // Sections 5.1.3 and 5.3.3 of FIPS 197, byte by byte
  // ---------------------------------------------------------------------

  /** The entry of a column with x from the same row, and y, z and w from the next rows. */
  function MixByte(x: bv8, y: bv8, z: bv8, w: bv8): (s: bv8) {
    Plus(Plus(Product(x, 0x02), Product(y, 0x03)), Plus(z, w))
  }

  function InvMixByte(x: bv8, y: bv8, z: bv8, w: bv8): (s: bv8) {
    Plus(Plus(Product(x, 0x0e), Product(y, 0x0b)), Plus(Product(z, 0x0d), Product(w, 0x09)))
  }

  lemma DoubleAndTriple(x: bv8)
    ensures Product(x, 0x02) == Xtime(x) && Product(x, 0x03) == Plus(Xtime(x), x)
  {
    hide Xtime;
  }

  lemma Ninefold(x: bv8)
    ensures Product(x, 0x09) == Plus(Eightfold(x), x)
  {
    hide Xtime;
  }

  lemma Elevenfold(x: bv8)
    ensures Product(x, 0x0b) == Plus(Plus(Eightfold(x), Xtime(x)), x)
  {
    hide Xtime;
  }

  lemma ThirteenAndFourteen(x: bv8)
    ensures Product(x, 0x0d) == Plus(Plus(Eightfold(x), Xtime(Xtime(x))), x)
    ensures Product(x, 0x0e) == Plus(Plus(Eightfold(x), Xtime(Xtime(x))), Xtime(x))
  {
    hide Xtime;
  }

  function Eightfold(x: bv8): (r: bv8) {
    Xtime(Xtime(Xtime(x)))
  }

  // ---------------------------------------------------------------------
  // Row by row
  // ---------------------------------------------------------------------

  /** A row of MixColumns, from the row itself and the next ones. */
  function MixRow(a: bv32, b: bv32, c: bv32, d: bv32): (n: bv32) {
    Add(Add(Add(b, c), d), Add(Mult02(a), Mult02(b)))
  }

  /** What the inverse adds for two rows that are opposite to each other. */
  function Opposite(a: bv32, c: bv32): (e: bv32) {
    Mult02(Add(Mult02(a), Mult02(c)))
  }

  function InvMixRow(a: bv32, b: bv32, c: bv32, d: bv32): (n: bv32) {
    Add(Add(MixRow(a, b, c, d), Opposite(a, c)), Add(Mult02(Opposite(a, c)), Mult02(Opposite(b, d))))
  }

  function Mixed(s: State): (n: State) {
    State(MixRow(s.r0, s.r1, s.r2, s.r3), MixRow(s.r1, s.r2, s.r3, s.r0),
          MixRow(s.r2, s.r3, s.r0, s.r1), MixRow(s.r3, s.r0, s.r1, s.r2))
  }

  function InvMixed(s: State): (n: State) {
    State(InvMixRow(s.r0, s.r1, s.r2, s.r3), InvMixRow(s.r1, s.r2, s.r3, s.r0),
          InvMixRow(s.r2, s.r3, s.r0, s.r1), InvMixRow(s.r3, s.r0, s.r1, s.r2))
  }

  // ---------------------------------------------------------------------
  // The inverse
  // ---------------------------------------------------------------------

  /** The sum of a column. */
  function Sum(a: bv32, b: bv32, c: bv32, d: bv32): (t: bv32) {
    Add(Add(a, b), Add(c, d))
  }

  lemma SumRotates(a: bv32, b: bv32, c: bv32, d: bv32)
    ensures Sum(b, c, d, a) == Sum(a, b, c, d)
  {
    hide Add;
    AddCommutes(Add(b, c), Add(d, a));
    AddCommutes(d, a);
    AddCommutes(b, c);
    Interchange(a, d, b, c);
    AddCommutes(d, c);
  }

  /** A row in terms of the sum of its column. */
  lemma RowForm(a: bv32, b: bv32, c: bv32, d: bv32)
    ensures MixRow(a, b, c, d) == Add(Add(a, Sum(a, b, c, d)), Mult02(Add(a, b)))
  {
    hide Add, Mult02;
    Mult02Sum(a, b);
    AddAssociates(a, b, Add(c, d));
    CancelLeft(a, Add(b, Add(c, d)));
    AddAssociates(b, c, d);
  }

  lemma InvRowForm(a: bv32, b: bv32, c: bv32, d: bv32)
    ensures var t := Sum(a, b, c, d);
            InvMixRow(a, b, c, d) == Add(Add(MixRow(a, b, c, d), Mult02(Mult02(Add(a, c)))), Mult02(Mult02(Mult02(t))))
  {
    hide Add, Mult02, MixRow;
    Mult02Sum(a, c);
    Mult02Sum(b, d);
    Interchange(a, b, c, d);
    Mult02Sum(Add(a, c), Add(b, d));
    Mult02Sum(Mult02(Add(a, c)), Mult02(Add(b, d)));
    Mult02Sum(Mult02(Mult02(Add(a, c))), Mult02(Mult02(Add(b, d))));
  }

  /** Mult02 of the sums of two neighbours. */
  lemma Neighbours(a: bv32, b: bv32, c: bv32, d: bv32)
    ensures var p, r, u := Mult02(Add(a, b)), Mult02(Add(c, d)), Mult02(Add(a, c));
            Mult02(Add(b, c)) == Add(p, u) && Mult02(Add(d, a)) == Add(r, u) && Mult02(Sum(a, b, c, d)) == Add(p, r)
  {
    hide Add, Mult02;
    AddCommutes(a, b);
    Bridge(b, a, c);
    Mult02Sum(Add(a, b), Add(a, c));
    AddCommutes(c, d);
    AddCommutes(a, c);
    Bridge(d, c, a);
    Mult02Sum(Add(c, d), Add(a, c));
    Mult02Sum(Add(a, b), Add(c, d));
  }

  /** The rows of MixColumns, with the sums named. */
  lemma Rows(a: bv32, b: bv32, c: bv32, d: bv32)
    ensures var t, p, r, u := Sum(a, b, c, d), Mult02(Add(a, b)), Mult02(Add(c, d)), Mult02(Add(a, c));
            && MixRow(a, b, c, d) == Add(Add(a, t), p) && MixRow(b, c, d, a) == Add(Add(b, t), Add(p, u))
            && MixRow(c, d, a, b) == Add(Add(c, t), r) && MixRow(d, a, b, c) == Add(Add(d, t), Add(r, u))
  {
    hide *;
    SumRotates(a, b, c, d);
    SumRotates(b, c, d, a);
    SumRotates(c, d, a, b);
    RowForm(a, b, c, d);
    RowForm(b, c, d, a);
    RowForm(c, d, a, b);
    RowForm(d, a, b, c);
    Neighbours(a, b, c, d);
  }

  /** What the sums of the new rows are. */
  lemma NewSums(a: bv32, b: bv32, c: bv32, d: bv32, t: bv32, p: bv32, r: bv32, u: bv32)
    requires t == Sum(a, b, c, d)
    ensures var n0, n1, n2, n3 := Add(Add(a, t), p), Add(Add(b, t), Add(p, u)), Add(Add(c, t), r), Add(Add(d, t), Add(r, u));
            && Add(n0, n1) == Add(Add(a, b), u) && Add(n0, n2) == Add(Add(a, c), Add(p, r)) && Sum(n0, n1, n2, n3) == t
  {
    hide Add;
    Interchange(Add(a, t), p, Add(b, t), Add(p, u));
    CommonTail(a, b, t);
    CancelLeft(p, u);
    Interchange(Add(c, t), r, Add(d, t), Add(r, u));
    CommonTail(c, d, t);
    CancelLeft(r, u);
    CommonTail(Add(a, b), Add(c, d), u);
    Interchange(Add(a, t), p, Add(c, t), r);
    CommonTail(a, c, t);
  }

  /** The inverse gives back a row. */
  lemma Unmix(a: bv32, b: bv32, c: bv32, d: bv32)
    ensures InvMixRow(MixRow(a, b, c, d), MixRow(b, c, d, a), MixRow(c, d, a, b), MixRow(d, a, b, c)) == a
  {
    hide *;
    var t, p, r, u := Sum(a, b, c, d), Mult02(Add(a, b)), Mult02(Add(c, d)), Mult02(Add(a, c));
    Rows(a, b, c, d);
    Neighbours(a, b, c, d);
    var n0, n1, n2, n3 := MixRow(a, b, c, d), MixRow(b, c, d, a), MixRow(c, d, a, b), MixRow(d, a, b, c);
    NewSums(a, b, c, d, t, p, r, u);
    InvRowForm(n0, n1, n2, n3);
    RowForm(n0, n1, n2, n3);
    Mult02Sum(Add(a, b), u);
    Mult02Sum(Add(a, c), Mult02(t));
    Mult02Sum(u, Mult02(Mult02(t)));
    Collapse(a, t, p, Mult02(u), Mult02(Mult02(Mult02(t))));
  }

  lemma Collapse(a: bv32, t: bv32, p: bv32, v: bv32, w: bv32)
    ensures Add(Add(Add(Add(Add(Add(a, t), p), t), Add(p, v)), Add(v, w)), w) == a
  {
    hide *;
    AddAssociates(Add(a, t), p, t);
    CommonTail(a, p, t);
    Bridge(a, p, v);
    Bridge(a, v, w);
    AddCancels(a, w);
  }

  /** InvMixColumns undoes MixColumns. */
  lemma MixInverse(s: State)
    ensures InvMixed(Mixed(s)) == s
  {
    hide MixRow, InvMixRow;
    Unmix(s.r0, s.r1, s.r2, s.r3);
    Unmix(s.r1, s.r2, s.r3, s.r0);
    Unmix(s.r2, s.r3, s.r0, s.r1);
    Unmix(s.r3, s.r0, s.r1, s.r2);
  }

  // ---------------------------------------------------------------------
  // Packed rows hold the bytes that FIPS 197 asks for
  // ---------------------------------------------------------------------

  lemma MixRowBytes(a: bv32, b: bv32, c: bv32, d: bv32, j: nat)
    requires j < 4
    ensures Lane(MixRow(a, b, c, d), j) == MixByte(Lane(a, j), Lane(b, j), Lane(c, j), Lane(d, j))
  {
    hide Add, Plus, Mult02, Lane, Xtime, Product;
    var x, y, z, w := Lane(a, j), Lane(b, j), Lane(c, j), Lane(d, j);
    LaneSum(Add(Add(b, c), d), Add(Mult02(a), Mult02(b)), j);
    LaneSum(Add(b, c), d, j);
    LaneSum(b, c, j);
    LaneSum(Mult02(a), Mult02(b), j);
    LaneMult02(a, j);
    LaneMult02(b, j);
    DoubleAndTriple(x);
    DoubleAndTriple(y);
    PlusAssociates(Xtime(x), Xtime(y), y);
    PlusAssociates(Plus(Xtime(x), Xtime(y)), y, Plus(z, w));
    PlusAssociates(y, z, w);
    PlusCommutes(Plus(Xtime(x), Xtime(y)), Plus(y, Plus(z, w)));
  }

  /** The products of the inverse, sorted by powers of {02}. */
  lemma InvSorted(x: bv8, y: bv8, z: bv8, w: bv8)
    ensures InvMixByte(x, y, z, w)
         == Plus(Plus(MixByte(x, y, z, w), Plus(Xtime(Xtime(x)), Xtime(Xtime(z)))),
                 Plus(Plus(Eightfold(x), Eightfold(z)), Plus(Eightfold(y), Eightfold(w))))
  {
    hide Plus, Product, Xtime, Eightfold;
    DoubleAndTriple(x);
    DoubleAndTriple(y);
    Elevenfold(y);
    Ninefold(w);
    ThirteenAndFourteen(x);
    ThirteenAndFourteen(z);
    Sorting(Eightfold(x), Xtime(Xtime(x)), Xtime(x), Eightfold(y), Xtime(y), y, Eightfold(z), Xtime(Xtime(z)), z,
            Eightfold(w), w);
  }

  lemma Sorting(x8: bv8, x4: bv8, x2: bv8, y8: bv8, y2: bv8, y: bv8, z8: bv8, z4: bv8, z: bv8, w8: bv8, w: bv8)
    ensures Plus(Plus(Plus(Plus(x8, x4), x2), Plus(Plus(y8, y2), y)), Plus(Plus(Plus(z8, z4), z), Plus(w8, w)))
         == Plus(Plus(Plus(Plus(x2, Plus(y2, y)), Plus(z, w)), Plus(x4, z4)), Plus(Plus(x8, z8), Plus(y8, w8)))
  {
    hide *;
    PlusAssociates(x8, x4, x2);
    PlusAssociates(y8, y2, y);
    PlusAssociates(z8, z4, z);
    PlusInterchange(x8, Plus(x4, x2), y8, Plus(y2, y));
    PlusInterchange(z8, Plus(z4, z), w8, w);
    PlusInterchange(Plus(x8, y8), Plus(Plus(x4, x2), Plus(y2, y)), Plus(z8, w8), Plus(Plus(z4, z), w));
    PlusInterchange(x8, y8, z8, w8);
    PlusAssociates(x4, x2, Plus(y2, y));
    PlusAssociates(z4, z, w);
    PlusInterchange(x4, Plus(x2, Plus(y2, y)), z4, Plus(z, w));
    PlusCommutes(Plus(x4, z4), Plus(Plus(x2, Plus(y2, y)), Plus(z, w)));
    PlusCommutes(Plus(Plus(x8, z8), Plus(y8, w8)), Plus(Plus(Plus(x2, Plus(y2, y)), Plus(z, w)), Plus(x4, z4)));
  }

  lemma OppositeBytes(a: bv32, c: bv32, j: nat)
    requires j < 4
    ensures Lane(Opposite(a, c), j) == Plus(Xtime(Xtime(Lane(a, j))), Xtime(Xtime(Lane(c, j))))
    ensures Lane(Mult02(Opposite(a, c)), j) == Plus(Eightfold(Lane(a, j)), Eightfold(Lane(c, j)))
  {
    hide Add, Plus, Mult02, Lane, Xtime;
    LaneMult02(Add(Mult02(a), Mult02(c)), j);
    LaneSum(Mult02(a), Mult02(c), j);
    LaneMult02(a, j);
    LaneMult02(c, j);
    XtimeSum(Xtime(Lane(a, j)), Xtime(Lane(c, j)));
    LaneMult02(Opposite(a, c), j);
    XtimeSum(Xtime(Xtime(Lane(a, j))), Xtime(Xtime(Lane(c, j))));
  }

  lemma InvMixRowBytes(a: bv32, b: bv32, c: bv32, d: bv32, j: nat)
    requires j < 4
    ensures Lane(InvMixRow(a, b, c, d), j) == InvMixByte(Lane(a, j), Lane(b, j), Lane(c, j), Lane(d, j))
  {
    hide Add, Plus, Mult02, Lane, MixRow, Opposite, MixByte, InvMixByte, Xtime, Eightfold;
    var opposite := Opposite(a, c);
    var third := Add(Mult02(opposite), Mult02(Opposite(b, d)));
    LaneSum(Add(MixRow(a, b, c, d), opposite), third, j);
    LaneSum(MixRow(a, b, c, d), opposite, j);
    LaneSum(Mult02(opposite), Mult02(Opposite(b, d)), j);
    OppositeBytes(a, c, j);
    OppositeBytes(b, d, j);
    MixRowBytes(a, b, c, d, j);
    InvSorted(Lane(a, j), Lane(b, j), Lane(c, j), Lane(d, j));
  }
}
