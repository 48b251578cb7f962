/** The rounds of AES byte by byte, on matrices of four rows and four columns: sections 5.1 and 5.3 of
    FIPS 197, without packed rows. */
module AesRuns {
  import opened AesBytes
  import opened AesMix
  import opened AesCbc

  /** The byte in row i and column j. */
  function Byte(s: State, i: nat, j: nat): (b: bv8)
    requires i < 4 && j < 4
  {
    Lane(Row(s, i), j)
  }

  /** A block in memory is a matrix by columns. */
  lemma LoadByte(b: seq<bv8>, i: nat, j: nat)
    requires |b| == 16 && i < 4 && j < 4
    ensures Byte(Load(b), i, j) == b[i + 4 * j]
  {
    hide *;
    ByteIs(Load(b), i, j);
    LoadRow(b, i);
    LaneOfBytes(b[i], b[i + 4], b[i + 8], b[i + 12], j);
    EveryFourth(b, i, j);
  }

  lemma ByteIs(s: State, i: nat, j: nat)
    requires i < 4 && j < 4
    ensures Byte(s, i, j) == Lane(Row(s, i), j)
  {
    hide Lane, Row;
  }

  lemma EveryFourth(b: seq<bv8>, i: nat, j: nat)
    requires |b| == 16 && i < 4 && j < 4
    ensures [b[i], b[i + 4], b[i + 8], b[i + 12]][j] == b[i + 4 * j]
  {
    if j == 0 {
    } else if j == 1 {
    } else if j == 2 {
    } else {
    }
  }

  lemma LoadRow(b: seq<bv8>, i: nat)
    requires |b| == 16 && i < 4
    ensures Row(Load(b), i) == MkW(b[i], b[i + 4], b[i + 8], b[i + 12])
  {
    hide MkW;
  }

  lemma XorByte(s: State, k: State, i: nat, j: nat)
    requires i < 4 && j < 4
    ensures Byte(XorState(s, k), i, j) == Byte(s, i, j) ^ Byte(k, i, j)
  {
    hide Lane, Add;
    LaneSum(Row(s, i), Row(k, i), j);
  }

  predicate Cyclic(i: nat, k: nat, l: nat, m: nat) {
    || (i == 0 && k == 1 && l == 2 && m == 3)
    || (i == 1 && k == 2 && l == 3 && m == 0)
    || (i == 2 && k == 3 && l == 0 && m == 1)
    || (i == 3 && k == 0 && l == 1 && m == 2)
  }

  lemma NextRows(i: nat)
    requires i < 4
    ensures Cyclic(i, (i + 1) % 4, (i + 2) % 4, (i + 3) % 4)
  {
  }

  lemma MixedRow0(s: State)
    ensures Row(Mixed(s), 0) == MixRow(Row(s, 0), Row(s, 1), Row(s, 2), Row(s, 3))
  {
    hide MixRow;
  }

  lemma MixedRow1(s: State)
    ensures Row(Mixed(s), 1) == MixRow(Row(s, 1), Row(s, 2), Row(s, 3), Row(s, 0))
  {
    hide MixRow;
  }

  lemma MixedRow2(s: State)
    ensures Row(Mixed(s), 2) == MixRow(Row(s, 2), Row(s, 3), Row(s, 0), Row(s, 1))
  {
    hide MixRow;
  }

  lemma MixedRow3(s: State)
    ensures Row(Mixed(s), 3) == MixRow(Row(s, 3), Row(s, 0), Row(s, 1), Row(s, 2))
  {
    hide MixRow;
  }

  lemma MixedRow(s: State, i: nat, k: nat, l: nat, m: nat)
    requires Cyclic(i, k, l, m)
    ensures Row(Mixed(s), i) == MixRow(Row(s, i), Row(s, k), Row(s, l), Row(s, m))
  {
    hide Row, MixRow, Mixed;
    if i == 0 {
      MixedRow0(s);
    } else if i == 1 {
      MixedRow1(s);
    } else if i == 2 {
      MixedRow2(s);
    } else {
      MixedRow3(s);
    }
  }

  // ---------------------------------------------------------------------
  // Encryption
  // ---------------------------------------------------------------------

  type Matrix = m: seq<seq<bv8>> | |m| == 4 && forall i :: 0 <= i < 4 ==> |m[i]| == 4
    witness [[0, 0, 0, 0], [0, 0, 0, 0], [0, 0, 0, 0], [0, 0, 0, 0]]

  /** The bytes of a state. */
  ghost predicate Holds(m: Matrix, s: State) {
    forall i, j :: 0 <= i < 4 && 0 <= j < 4 ==> m[i][j] == Byte(s, i, j)
  }

  /** The substituted byte that ShiftRows puts into row i and column j. */
  function Sub(m: Matrix, i: nat, j: nat): (b: bv8)
    requires i < 4 && j < 4
  {
    SBox(m[i][(j + i) % 4])
  }

  /** A byte after SubBytes, ShiftRows, MixColumns and AddRoundKey. */
  function Rounded(n: Matrix, key: State, i: nat, j: nat): (b: bv8)
    requires i < 4 && j < 4
  {
    MixByte(Sub(n, i, j), Sub(n, (i + 1) % 4, j), Sub(n, (i + 2) % 4, j), Sub(n, (i + 3) % 4, j)) ^ Byte(key, i, j)
  }

  /** m is n after a round. */
  ghost predicate RoundOf(m: Matrix, n: Matrix, key: State) {
    forall i, j :: 0 <= i < 4 && 0 <= j < 4 ==> m[i][j] == Rounded(n, key, i, j)
  }

  /** The states of an encryption up to the last round but one, the first of them s xored with key 0. */
  ghost predicate Run(st: seq<Matrix>, eKey: seq<State>, s: State)
    requires |st| < |eKey|
  {
    && (|st| > 0 ==> Holds(st[0], XorState(s, eKey[0])))
    && forall r :: 0 < r < |st| ==> RoundOf(st[r], st[r - 1], eKey[r])
  }

  lemma SubByte(m: Matrix, s: State, i: nat, j: nat)
    requires i < 4 && j < 4 && Holds(m, s)
    ensures Sub(m, i, j) == Byte(SubShift(s), i, j)
  {
    hide SubShift, SBox, Lane, Row;
    SubShiftBytes(s, i, j);
  }

  lemma RoundByte(n: Matrix, s: State, key: State, i: nat, k: nat, l: nat, m: nat, j: nat)
    requires Cyclic(i, k, l, m) && j < 4 && Holds(n, s)
    ensures Byte(XorState(Mixed(SubShift(s)), key), i, j)
         == MixByte(Sub(n, i, j), Sub(n, k, j), Sub(n, l, j), Sub(n, m, j)) ^ Byte(key, i, j)
  {
    hide SubShift, Mixed, MixRow, MixByte, XorState, Sub, Lane, Row, Holds;
    var t := SubShift(s);
    XorByte(Mixed(t), key, i, j);
    MixedRow(t, i, k, l, m);
    MixRowBytes(Row(t, i), Row(t, k), Row(t, l), Row(t, m), j);
    SubByte(n, s, i, j);
    SubByte(n, s, k, j);
    SubByte(n, s, l, j);
    SubByte(n, s, m, j);
  }

  lemma RoundedByte(n: Matrix, s: State, key: State, i: nat, j: nat)
    requires i < 4 && j < 4 && Holds(n, s)
    ensures Byte(XorState(Mixed(SubShift(s)), key), i, j) == Rounded(n, key, i, j)
  {
    hide SubShift, Mixed, MixByte, XorState, Sub, Byte, Holds;
    NextRows(i);
    RoundByte(n, s, key, i, (i + 1) % 4, (i + 2) % 4, (i + 3) % 4, j);
  }

  lemma RoundHolds(m: Matrix, n: Matrix, s: State, key: State)
    requires Holds(n, s) && RoundOf(m, n, key)
    ensures Holds(m, XorState(Mixed(SubShift(s)), key))
  {
    hide SubShift, Mixed, Rounded, XorState, Byte;
    forall i: nat, j: nat | i < 4 && j < 4 ensures m[i][j] == Byte(XorState(Mixed(SubShift(s)), key), i, j) {
      RoundedByte(n, s, key, i, j);
    }
  }

  lemma {:induction false} RunHolds(st: seq<Matrix>, eKey: seq<State>, s: State, r: nat)
    requires r < |st| < |eKey| && Run(st, eKey, s)
    ensures Holds(st[r], Rounds(eKey, r, XorState(s, eKey[0])))
  {
    hide SubShift, Mixed, XorState, Holds, RoundOf;
    if r == 0 {
    } else {
      RunHolds(st, eKey, s, r - 1);
      RoundHolds(st[r], st[r - 1], Rounds(eKey, r - 1, XorState(s, eKey[0])), eKey[r]);
    }
  }

  function MatrixOf(s: State): (m: Matrix) {
    seq(4, i requires 0 <= i < 4 => seq(4, j requires 0 <= j < 4 => Byte(s, i, j)))
  }

  lemma NextMatrix(s: State, key: State)
    ensures RoundOf(MatrixOf(XorState(Mixed(SubShift(s)), key)), MatrixOf(s), key)
  {
    hide SubShift, Mixed, Rounded, XorState, Byte;
    var t := XorState(Mixed(SubShift(s)), key);
    MatrixHolds(s);
    forall i: nat, j: nat | i < 4 && j < 4 ensures MatrixOf(t)[i][j] == Rounded(MatrixOf(s), key, i, j) {
      RoundedByte(MatrixOf(s), s, key, i, j);
    }
  }

  /** Every encryption has such a run. */
  lemma {:induction false} SomeRun(eKey: seq<State>, s: State, n: nat) returns (st: seq<Matrix>)
    requires n < |eKey|
    ensures |st| == n && Run(st, eKey, s)
    ensures n > 0 ==> st[n - 1] == MatrixOf(Rounds(eKey, n - 1, XorState(s, eKey[0])))
  {
    hide SubShift, Mixed, XorState, MatrixOf, RoundOf, Holds;
    if n == 0 {
      st := [];
    } else {
      st := SomeRun(eKey, s, n - 1);
      var m := MatrixOf(Rounds(eKey, n - 1, XorState(s, eKey[0])));
      if n == 1 {
        MatrixHolds(XorState(s, eKey[0]));
      } else {
        NextMatrix(Rounds(eKey, n - 2, XorState(s, eKey[0])), eKey[n - 1]);
      }
      st := st + [m];
    }
  }

  lemma MatrixHolds(s: State)
    ensures Holds(MatrixOf(s), s)
  {
    hide Byte;
  }

  /** Section 5.1 of FIPS 197: the last round has no MixColumns. */
  lemma CipherBytes(st: seq<Matrix>, eKey: seq<State>, nRounds: nat, s: State, i: nat, j: nat)
    requires 1 <= nRounds == |st| < |eKey| && Run(st, eKey, s) && i < 4 && j < 4
    ensures Byte(Cipher(eKey, nRounds, s), i, j) == SBox(st[nRounds - 1][i][(j + i) % 4]) ^ Byte(eKey[nRounds], i, j)
  {
    RunHolds(st, eKey, s, nRounds - 1);
    hide SubShift, XorState, Rounds, Byte, SBox, Holds;
    var t := Rounds(eKey, nRounds - 1, XorState(s, eKey[0]));
    SubByte(st[nRounds - 1], t, i, j);
    XorByte(SubShift(t), eKey[nRounds], i, j);
  }

  // ---------------------------------------------------------------------
  // Decryption
  // ---------------------------------------------------------------------

  lemma InvMixedRow0(s: State)
    ensures Row(InvMixed(s), 0) == InvMixRow(Row(s, 0), Row(s, 1), Row(s, 2), Row(s, 3))
  {
    hide InvMixRow;
  }

  lemma InvMixedRow1(s: State)
    ensures Row(InvMixed(s), 1) == InvMixRow(Row(s, 1), Row(s, 2), Row(s, 3), Row(s, 0))
  {
    hide InvMixRow;
  }

  lemma InvMixedRow2(s: State)
    ensures Row(InvMixed(s), 2) == InvMixRow(Row(s, 2), Row(s, 3), Row(s, 0), Row(s, 1))
  {
    hide InvMixRow;
  }

  lemma InvMixedRow3(s: State)
    ensures Row(InvMixed(s), 3) == InvMixRow(Row(s, 3), Row(s, 0), Row(s, 1), Row(s, 2))
  {
    hide InvMixRow;
  }

  lemma InvMixedRow(s: State, i: nat, k: nat, l: nat, m: nat)
    requires Cyclic(i, k, l, m)
    ensures Row(InvMixed(s), i) == InvMixRow(Row(s, i), Row(s, k), Row(s, l), Row(s, m))
  {
    hide Row, InvMixRow, InvMixed;
    if i == 0 {
      InvMixedRow0(s);
    } else if i == 1 {
      InvMixedRow1(s);
    } else if i == 2 {
      InvMixedRow2(s);
    } else {
      InvMixedRow3(s);
    }
  }

  /** The substituted byte that InvShiftRows puts into row i and column j. */
  function InvSub(m: Matrix, i: nat, j: nat): (b: bv8)
    requires i < 4 && j < 4
  {
    ISBox(m[i][(j + 4 - i) % 4])
  }

  /** m is n after InvShiftRows, InvSubBytes and AddRoundKey. */
  ghost predicate Keyed(m: Matrix, n: Matrix, key: State) {
    forall i, j :: 0 <= i < 4 && 0 <= j < 4 ==> m[i][j] == InvSub(n, i, j) ^ Byte(key, i, j)
  }

  /** m is n after InvMixColumns. */
  ghost predicate Unmixed(m: Matrix, n: Matrix) {
    forall i, j :: 0 <= i < 4 && 0 <= j < 4 ==>
      m[i][j] == InvMixByte(n[i][j], n[(i + 1) % 4][j], n[(i + 2) % 4][j], n[(i + 3) % 4][j])
  }

  /** The states of a decryption, the last of them s xored with the last key; keyed are the states between
      the two halves of a round. */
  ghost predicate InvRun(st: seq<Matrix>, keyed: seq<Matrix>, eKey: seq<State>, s: State)
    requires |st| == |keyed| < |eKey|
  {
    && (|st| > 0 ==> Holds(st[|st| - 1], XorState(s, eKey[|st|])))
    && forall r :: 0 < r < |st| ==> Keyed(keyed[r], st[r], eKey[r]) && Unmixed(st[r - 1], keyed[r])
  }

  lemma InvSubShiftRow0(s: State)
    ensures var w := Row(s, 0);
            Row(InvSubShift(s), 0)
            == MkW(ISBox(Lane(w, 0)), ISBox(Lane(w, 1)), ISBox(Lane(w, 2)), ISBox(Lane(w, 3)))
  {
    hide ISBox, MkW, B0, B1, B2, B3;
  }

  lemma InvSubShiftRow1(s: State)
    ensures var w := Row(s, 1);
            Row(InvSubShift(s), 1)
            == MkW(ISBox(Lane(w, 3)), ISBox(Lane(w, 0)), ISBox(Lane(w, 1)), ISBox(Lane(w, 2)))
  {
    hide ISBox, MkW, B0, B1, B2, B3;
  }

  lemma InvSubShiftRow2(s: State)
    ensures var w := Row(s, 2);
            Row(InvSubShift(s), 2)
            == MkW(ISBox(Lane(w, 2)), ISBox(Lane(w, 3)), ISBox(Lane(w, 0)), ISBox(Lane(w, 1)))
  {
    hide ISBox, MkW, B0, B1, B2, B3;
  }

  lemma InvSubShiftRow3(s: State)
    ensures var w := Row(s, 3);
            Row(InvSubShift(s), 3)
            == MkW(ISBox(Lane(w, 1)), ISBox(Lane(w, 2)), ISBox(Lane(w, 3)), ISBox(Lane(w, 0)))
  {
    hide ISBox, MkW, B0, B1, B2, B3;
  }

  lemma InvSubShiftRow(s: State, i: nat, a: nat, b: nat, c: nat, d: nat)
    requires i < 4 && a == (4 - i) % 4 && Cyclic(a, b, c, d)
    ensures var w := Row(s, i);
            Row(InvSubShift(s), i) == MkW(ISBox(Lane(w, a)), ISBox(Lane(w, b)), ISBox(Lane(w, c)), ISBox(Lane(w, d)))
  {
    hide Row, ISBox, MkW, Lane, InvSubShift;
    if i == 0 {
      InvSubShiftRow0(s);
    } else if i == 1 {
      InvSubShiftRow1(s);
    } else if i == 2 {
      InvSubShiftRow2(s);
    } else {
      InvSubShiftRow3(s);
    }
  }

  lemma RowLane(s: State, i: nat, w3: bv8, w2: bv8, w1: bv8, w0: bv8, j: nat)
    requires i < 4 && j < 4 && Row(s, i) == MkW(w3, w2, w1, w0)
    ensures Byte(s, i, j) == [w3, w2, w1, w0][j]
  {
    hide Row, MkW, Lane;
    LaneOfBytes(w3, w2, w1, w0, j);
  }

  /** Column j of a row that starts with column a. */
  lemma Turned(i: nat, a: nat, b: nat, c: nat, d: nat, j: nat)
    requires i < 4 && a == (4 - i) % 4 && Cyclic(a, b, c, d) && j < 4
    ensures [a, b, c, d][j] == (j + 4 - i) % 4
  {
  }

  /** Sections 5.3.1 and 5.3.2 of FIPS 197: the byte in row i comes from i columns before. */
  lemma InvSubShiftBytes(s: State, i: nat, j: nat)
    requires i < 4 && j < 4
    ensures Byte(InvSubShift(s), i, j) == ISBox(Byte(s, i, (j + 4 - i) % 4))
  {
    hide *;
    var w, a := Row(s, i), (4 - i) % 4;
    var b, c, d := (a + 1) % 4, (a + 2) % 4, (a + 3) % 4;
    NextRows(a);
    InvSubShiftRow(s, i, a, b, c, d);
    RowLane(InvSubShift(s), i, ISBox(Lane(w, a)), ISBox(Lane(w, b)), ISBox(Lane(w, c)), ISBox(Lane(w, d)), j);
    Turned(i, a, b, c, d, j);
    ByteIs(s, i, (j + 4 - i) % 4);
    if j == 0 {
    } else if j == 1 {
    } else if j == 2 {
    } else {
    }
  }

  lemma InvSubByte(m: Matrix, s: State, i: nat, j: nat)
    requires i < 4 && j < 4 && Holds(m, s)
    ensures InvSub(m, i, j) == Byte(InvSubShift(s), i, j)
  {
    hide InvSubShift, ISBox, Byte;
    InvSubShiftBytes(s, i, j);
  }

  lemma KeyedHolds(m: Matrix, n: Matrix, s: State, key: State)
    requires Holds(n, s) && Keyed(m, n, key)
    ensures Holds(m, XorState(InvSubShift(s), key))
  {
    hide InvSubShift, XorState, InvSub, Byte;
    forall i: nat, j: nat | i < 4 && j < 4 ensures m[i][j] == Byte(XorState(InvSubShift(s), key), i, j) {
      InvSubByte(n, s, i, j);
      XorByte(InvSubShift(s), key, i, j);
    }
  }

  lemma UnmixedByte(n: Matrix, s: State, i: nat, k: nat, l: nat, m: nat, j: nat)
    requires Cyclic(i, k, l, m) && j < 4 && Holds(n, s)
    ensures Byte(InvMixed(s), i, j) == InvMixByte(n[i][j], n[k][j], n[l][j], n[m][j])
  {
    hide InvMixed, InvMixRow, InvMixByte, Lane, Row;
    InvMixedRow(s, i, k, l, m);
    InvMixRowBytes(Row(s, i), Row(s, k), Row(s, l), Row(s, m), j);
  }

  lemma UnmixedHolds(m: Matrix, n: Matrix, s: State)
    requires Holds(n, s) && Unmixed(m, n)
    ensures Holds(m, InvMixed(s))
  {
    forall i: nat, j: nat | i < 4 && j < 4 ensures m[i][j] == Byte(InvMixed(s), i, j) {
      hide InvMixed, InvMixByte, Byte;
      NextRows(i);
      UnmixedByte(n, s, i, (i + 1) % 4, (i + 2) % 4, (i + 3) % 4, j);
    }
  }

  /** What is left to do from matrix r on. */
  lemma {:induction false} InvRunHolds(st: seq<Matrix>, keyed: seq<Matrix>, eKey: seq<State>, s: State, r: nat)
    returns (t: State)
    requires r < |st| == |keyed| < |eKey| && InvRun(st, keyed, eKey, s)
    ensures Holds(st[r], t)
    ensures InvRounds(eKey, r, t) == InvRounds(eKey, |st| - 1, XorState(s, eKey[|st|]))
    decreases |st| - r
  {
    hide InvSubShift, InvMixed, XorState, Holds, Keyed, Unmixed;
    if r == |st| - 1 {
      t := XorState(s, eKey[|st|]);
    } else {
      var n := InvRunHolds(st, keyed, eKey, s, r + 1);
      KeyedHolds(keyed[r + 1], st[r + 1], n, eKey[r + 1]);
      UnmixedHolds(st[r], keyed[r + 1], XorState(InvSubShift(n), eKey[r + 1]));
      t := InvMixed(XorState(InvSubShift(n), eKey[r + 1]));
    }
  }

  /** Section 5.3 of FIPS 197: the last round has no InvMixColumns. */
  lemma InvCipherBytes(st: seq<Matrix>, keyed: seq<Matrix>, eKey: seq<State>, nRounds: nat, s: State, i: nat, j: nat)
    requires 1 <= nRounds == |st| == |keyed| < |eKey| && InvRun(st, keyed, eKey, s) && i < 4 && j < 4
    ensures Byte(InvCipher(eKey, nRounds, s), i, j) == ISBox(st[0][i][(j + 4 - i) % 4]) ^ Byte(eKey[0], i, j)
  {
    var t := InvRunHolds(st, keyed, eKey, s, 0);
    hide InvSubShift, XorState, Byte, ISBox, Holds;
    InvSubByte(st[0], t, i, j);
    XorByte(InvSubShift(t), eKey[0], i, j);
  }

  // ---------------------------------------------------------------------
  // Cipher block chaining
  // ---------------------------------------------------------------------

  /** A state in memory is a matrix by columns. */
  lemma StoreByte(s: State, i: nat, j: nat)
    requires i < 4 && j < 4
    ensures Store(s)[i + 4 * j] == Byte(s, i, j)
  {
    hide Byte, Store, Load;
    LoadStore(s);
    LoadByte(Store(s), i, j);
  }

  /** The block before block b, or the initial value. */
  function Before(iv: State, c: seq<State>, b: nat): (s: State)
    requires b <= |c|
  {
    if b == 0 then iv else c[b - 1]
  }

  /** Block i of the cipher text is the cipher of block i of the text xored with block i - 1 of the cipher
      text, or with the initial value. */
  lemma {:induction false} CbcBlock(eKey: seq<State>, nRounds: nat, iv: State, p: seq<State>, i: nat)
    requires 1 <= nRounds < |eKey| && i < |p|
    ensures var c := CbcEncrypted(eKey, nRounds, iv, p);
            c[i] == Cipher(eKey, nRounds, XorState(Before(iv, c, i), p[i]))
  {
    hide Cipher, XorState;
    if i < |p| - 1 {
      CbcBlock(eKey, nRounds, iv, p[..|p| - 1], i);
    }
  }

  /** The bytes of block b of the cipher text. */
  lemma CbcEncryptedBytes(st: seq<Matrix>, eKey: seq<State>, nRounds: nat, iv: State, p: seq<State>, b: nat,
                          i: nat, j: nat)
    requires 1 <= nRounds == |st| < |eKey| && b < |p| && i < 4 && j < 4
    requires Run(st, eKey, XorState(Before(iv, CbcEncrypted(eKey, nRounds, iv, p), b), p[b]))
    ensures Byte(CbcEncrypted(eKey, nRounds, iv, p)[b], i, j)
         == SBox(st[nRounds - 1][i][(j + i) % 4]) ^ Byte(eKey[nRounds], i, j)
  {
    hide Run, Cipher, XorState, Byte, CbcEncrypted, SBox;
    CbcBlock(eKey, nRounds, iv, p, b);
    CipherBytes(st, eKey, nRounds, XorState(Before(iv, CbcEncrypted(eKey, nRounds, iv, p), b), p[b]), i, j);
  }

  lemma DecryptedBlock(eKey: seq<State>, nRounds: nat, iv: State, c: seq<State>, b: nat)
    requires 1 <= nRounds < |eKey| && b < |c|
    ensures CbcDecrypted(eKey, nRounds, iv, c)[b] == XorState(InvCipher(eKey, nRounds, c[b]), Before(iv, c, b))
  {
    hide InvCipher, XorState;
  }

  /** The bytes of block b of the text. */
  lemma CbcDecryptedBytes(st: seq<Matrix>, keyed: seq<Matrix>, eKey: seq<State>, nRounds: nat, iv: State,
                          c: seq<State>, b: nat, i: nat, j: nat)
    requires 1 <= nRounds == |st| == |keyed| < |eKey| && b < |c| && i < 4 && j < 4
    requires InvRun(st, keyed, eKey, c[b])
    ensures Byte(CbcDecrypted(eKey, nRounds, iv, c)[b], i, j)
         == (ISBox(st[0][i][(j + 4 - i) % 4]) ^ Byte(eKey[0], i, j)) ^ Byte(Before(iv, c, b), i, j)
  {
    hide *;
    DecryptedBlock(eKey, nRounds, iv, c, b);
    InvCipherBytes(st, keyed, eKey, nRounds, c[b], i, j);
    XorByte(InvCipher(eKey, nRounds, c[b]), Before(iv, c, b), i, j);
  }
}
