/** AES on packed rows, and cipher block chaining in place: forwards for encryption, backwards for
    decryption. */
module AesCbc {
  import opened AesBytes
  import opened AesMix

  // ---------------------------------------------------------------------
  // SubBytesAndShift
  // ---------------------------------------------------------------------

  function SubShift(s: State): (t: State) {
    State(MkW(SBox(B3(s.r0)), SBox(B2(s.r0)), SBox(B1(s.r0)), SBox(B0(s.r0))),
          MkW(SBox(B2(s.r1)), SBox(B1(s.r1)), SBox(B0(s.r1)), SBox(B3(s.r1))),
          MkW(SBox(B1(s.r2)), SBox(B0(s.r2)), SBox(B3(s.r2)), SBox(B2(s.r2))),
          MkW(SBox(B0(s.r3)), SBox(B3(s.r3)), SBox(B2(s.r3)), SBox(B1(s.r3))))
  }

  function InvSubShift(s: State): (t: State) {
    State(MkW(ISBox(B3(s.r0)), ISBox(B2(s.r0)), ISBox(B1(s.r0)), ISBox(B0(s.r0))),
          MkW(ISBox(B0(s.r1)), ISBox(B3(s.r1)), ISBox(B2(s.r1)), ISBox(B1(s.r1))),
          MkW(ISBox(B1(s.r2)), ISBox(B0(s.r2)), ISBox(B3(s.r2)), ISBox(B2(s.r2))),
          MkW(ISBox(B2(s.r3)), ISBox(B1(s.r3)), ISBox(B0(s.r3)), ISBox(B3(s.r3))))
  }

  /** A row whose bytes were substituted, wherever they went. */
  lemma RowUnsub(w: bv32)
    ensures ISBox(SBox(B0(w))) == B0(w) && ISBox(SBox(B1(w))) == B1(w)
    ensures ISBox(SBox(B2(w))) == B2(w) && ISBox(SBox(B3(w))) == B3(w)
  {
    hide *;
    SBoxInverse(B0(w));
    SBoxInverse(B1(w));
    SBoxInverse(B2(w));
    SBoxInverse(B3(w));
  }

  lemma SubShiftInverse(s: State)
    ensures InvSubShift(SubShift(s)) == s
  {
    hide SBox, ISBox, MkW, B0, B1, B2, B3;
    RowUnsub(s.r0);
    RowUnsub(s.r1);
    RowUnsub(s.r2);
    RowUnsub(s.r3);
    BytesOfWord(SBox(B3(s.r0)), SBox(B2(s.r0)), SBox(B1(s.r0)), SBox(B0(s.r0)));
    BytesOfWord(SBox(B2(s.r1)), SBox(B1(s.r1)), SBox(B0(s.r1)), SBox(B3(s.r1)));
    BytesOfWord(SBox(B1(s.r2)), SBox(B0(s.r2)), SBox(B3(s.r2)), SBox(B2(s.r2)));
    BytesOfWord(SBox(B0(s.r3)), SBox(B3(s.r3)), SBox(B2(s.r3)), SBox(B1(s.r3)));
    WordOfBytes(s.r0);
    WordOfBytes(s.r1);
    WordOfBytes(s.r2);
    WordOfBytes(s.r3);
  }

  function Row(s: State, i: nat): (w: bv32)
    requires i < 4
  {
    match i
    case 0 => s.r0
    case 1 => s.r1
    case 2 => s.r2
    case 3 => s.r3
  }

  /** A row whose bytes are substituted and move i columns to the left. */
  function ShiftedRow(w: bv32, i: nat): (r: bv32)
    requires i < 4
  {
    MkW(SBox(Lane(w, i)), SBox(Lane(w, (1 + i) % 4)), SBox(Lane(w, (2 + i) % 4)), SBox(Lane(w, (3 + i) % 4)))
  }

  lemma SubShiftRow(s: State, i: nat)
    requires i < 4
    ensures Row(SubShift(s), i) == ShiftedRow(Row(s, i), i)
  {
    hide SBox, MkW, B0, B1, B2, B3;
  }

  lemma LaneOfBytes(w3: bv8, w2: bv8, w1: bv8, w0: bv8, j: nat)
    requires j < 4
    ensures Lane(MkW(w3, w2, w1, w0), j) == [w3, w2, w1, w0][j]
  {
    hide MkW, B0, B1, B2, B3;
    BytesOfWord(w3, w2, w1, w0);
  }

  /** Sections 5.1.1 and 5.1.2 of FIPS 197: the byte in row i comes from i columns further. */
  lemma SubShiftBytes(s: State, i: nat, j: nat)
    requires i < 4 && j < 4
    ensures Lane(Row(SubShift(s), i), j) == SBox(Lane(Row(s, i), (j + i) % 4))
  {
    hide SBox, MkW, SubShift, Row, Lane;
    SubShiftRow(s, i);
    var w := Row(s, i);
    LaneOfBytes(SBox(Lane(w, i)), SBox(Lane(w, (1 + i) % 4)), SBox(Lane(w, (2 + i) % 4)), SBox(Lane(w, (3 + i) % 4)),
                j);
  }

  // ---------------------------------------------------------------------
  // MixColumns and InvMixColumns
  // ---------------------------------------------------------------------

  /** MixColumns, which doubles the rows it reads. */
  method MixColumns(r: State) returns (n: State, m: State)
    ensures n == Mixed(r) && m == State(Mult02(r.r0), Mult02(r.r1), Mult02(r.r2), Mult02(r.r3))
  {
    hide Add, Mult02;
    var n0 := Add(Add(r.r1, r.r2), r.r3);
    var n1 := Add(Add(r.r2, r.r3), r.r0);
    var n2 := Add(Add(r.r3, r.r0), r.r1);
    var n3 := Add(Add(r.r0, r.r1), r.r2);
    var r0, r1, r2, r3 := Mult02(r.r0), Mult02(r.r1), Mult02(r.r2), Mult02(r.r3);
    n0, n1, n2, n3 := Add(n0, Add(r0, r1)), Add(n1, Add(r1, r2)), Add(n2, Add(r2, r3)), Add(n3, Add(r3, r0));
    n, m := State(n0, n1, n2, n3), State(r0, r1, r2, r3);
  }

  /** InvMixColumns, from MixColumns and the doubled rows it leaves. */
  method InvMixColumns(r: State) returns (n: State)
    ensures n == InvMixed(r)
  {
    hide Add, Mult02, MixRow;
    var m;
    n, m := MixColumns(r);
    var r0, r1 := Add(m.r0, m.r2), Add(m.r1, m.r3);
    r0, r1 := Mult02(r0), Mult02(r1);
    OppositeOrder(r.r0, r.r2);
    OppositeOrder(r.r1, r.r3);
    n := State(Add(n.r0, r0), Add(n.r1, r1), Add(n.r2, r0), Add(n.r3, r1));
    r0, r1 := Mult02(r0), Mult02(r1);
    AddCommutes(r0, r1);
    r0 := Add(r0, r1);
    n := State(Add(n.r0, r0), Add(n.r1, r0), Add(n.r2, r0), Add(n.r3, r0));
  }

  lemma OppositeOrder(a: bv32, c: bv32)
    ensures Opposite(a, c) == Opposite(c, a)
  {
    hide Add, Mult02;
    AddCommutes(Mult02(a), Mult02(c));
  }

  // ---------------------------------------------------------------------
  // ENCRYPT and DECRYPT
  // ---------------------------------------------------------------------

  function XorState(s: State, k: State): (t: State) {
    State(Add(s.r0, k.r0), Add(s.r1, k.r1), Add(s.r2, k.r2), Add(s.r3, k.r3))
  }

  lemma XorTwice(s: State, k: State)
    ensures XorState(XorState(s, k), k) == s
  {
    hide Add;
    AddCancels(s.r0, k.r0);
    AddCancels(s.r1, k.r1);
    AddCancels(s.r2, k.r2);
    AddCancels(s.r3, k.r3);
  }

  /** Rounds 1 to k of section 5.1 of FIPS 197. */
  function Rounds(eKey: seq<State>, k: nat, s: State): (t: State)
    requires k < |eKey|
  {
    if k == 0 then s else XorState(Mixed(SubShift(Rounds(eKey, k - 1, s))), eKey[k])
  }

  function Cipher(eKey: seq<State>, nRounds: nat, s: State): (t: State)
    requires 1 <= nRounds < |eKey|
  {
    XorState(SubShift(Rounds(eKey, nRounds - 1, XorState(s, eKey[0]))), eKey[nRounds])
  }

  /** Rounds k to 1 of section 5.3. */
  function InvRounds(eKey: seq<State>, k: nat, s: State): (t: State)
    requires k < |eKey|
  {
    if k == 0 then s else InvRounds(eKey, k - 1, InvMixed(XorState(InvSubShift(s), eKey[k])))
  }

  function InvCipher(eKey: seq<State>, nRounds: nat, s: State): (t: State)
    requires 1 <= nRounds < |eKey|
  {
    XorState(InvSubShift(InvRounds(eKey, nRounds - 1, XorState(s, eKey[nRounds]))), eKey[0])
  }

  lemma {:induction false} RoundsInverse(eKey: seq<State>, k: nat, s: State)
    requires k < |eKey|
    ensures InvRounds(eKey, k, SubShift(Rounds(eKey, k, s))) == SubShift(s)
  {
    hide SubShift, InvSubShift, Mixed, InvMixed, XorState;
    if k == 0 {
    } else {
      var t := SubShift(Rounds(eKey, k - 1, s));
      SubShiftInverse(Rounds(eKey, k, s));
      XorTwice(Mixed(t), eKey[k]);
      MixInverse(t);
      RoundsInverse(eKey, k - 1, s);
    }
  }

  /** Decryption of a block undoes its encryption, for any key schedule and any number of rounds. */
  lemma CipherInverse(eKey: seq<State>, nRounds: nat, s: State)
    requires 1 <= nRounds < |eKey|
    ensures InvCipher(eKey, nRounds, Cipher(eKey, nRounds, s)) == s
  {
    hide SubShift, InvSubShift, XorState, Rounds, InvRounds;
    var t := XorState(s, eKey[0]);
    XorTwice(SubShift(Rounds(eKey, nRounds - 1, t)), eKey[nRounds]);
    RoundsInverse(eKey, nRounds - 1, t);
    SubShiftInverse(t);
    XorTwice(s, eKey[0]);
  }

  /** ENCRYPT */
  method Encrypt(start: State, eKey: seq<State>, nRounds: nat) returns (state: State)
    requires 1 <= nRounds < |eKey|
    ensures state == Cipher(eKey, nRounds, start)
  {
    hide SubShift, Mixed, XorState;
    state := XorState(start, eKey[0]);
    for r := 1 to nRounds
      invariant state == Rounds(eKey, r - 1, XorState(start, eKey[0]))
    {
      state := SubShift(state);
      var temp, _ := MixColumns(state);
      state := XorState(temp, eKey[r]);
    }
    state := SubShift(state);
    state := XorState(state, eKey[nRounds]);
  }

  /** DECRYPT */
  method Decrypt(start: State, eKey: seq<State>, nRounds: nat) returns (state: State)
    requires 1 <= nRounds < |eKey|
    ensures state == InvCipher(eKey, nRounds, start)
  {
    hide InvSubShift, InvMixed, XorState;
    state := XorState(start, eKey[nRounds]);
    var r := nRounds - 1;
    while r > 0
      invariant 0 <= r < nRounds
      invariant InvRounds(eKey, r, state) == InvRounds(eKey, nRounds - 1, XorState(start, eKey[nRounds]))
    {
      state := InvSubShift(state);
      var temp := XorState(state, eKey[r]);
      state := InvMixColumns(temp);
      r := r - 1;
    }
    state := InvSubShift(state);
    state := XorState(state, eKey[0]);
  }

  // ---------------------------------------------------------------------
  // Blocks of bytes
  // ---------------------------------------------------------------------

  /** Load: the block is a matrix by columns, the words are its rows. */
  function Load(b: seq<bv8>): (s: State)
    requires |b| == 16
  {
    State(MkW(b[0], b[4], b[8], b[12]), MkW(b[1], b[5], b[9], b[13]),
          MkW(b[2], b[6], b[10], b[14]), MkW(b[3], b[7], b[11], b[15]))
  }

  function Store(s: State): (b: seq<bv8>)
    ensures |b| == 16
  {
    [B3(s.r0), B3(s.r1), B3(s.r2), B3(s.r3), B2(s.r0), B2(s.r1), B2(s.r2), B2(s.r3),
     B1(s.r0), B1(s.r1), B1(s.r2), B1(s.r3), B0(s.r0), B0(s.r1), B0(s.r2), B0(s.r3)]
  }

  lemma LoadStore(s: State)
    ensures Load(Store(s)) == s
  {
    hide MkW, B0, B1, B2, B3;
    WordOfBytes(s.r0);
    WordOfBytes(s.r1);
    WordOfBytes(s.r2);
    WordOfBytes(s.r3);
  }

  lemma LoadRows(b: seq<bv8>)
    requires |b| == 16
    ensures Load(b).r0 == MkW(b[0], b[4], b[8], b[12]) && Load(b).r1 == MkW(b[1], b[5], b[9], b[13])
    ensures Load(b).r2 == MkW(b[2], b[6], b[10], b[14]) && Load(b).r3 == MkW(b[3], b[7], b[11], b[15])
  {
    hide MkW;
  }

  lemma StoreColumns(s: State, b: seq<bv8>)
    requires |b| == 16
    requires B3(s.r0) == b[0] && B3(s.r1) == b[1] && B3(s.r2) == b[2] && B3(s.r3) == b[3]
    requires B2(s.r0) == b[4] && B2(s.r1) == b[5] && B2(s.r2) == b[6] && B2(s.r3) == b[7]
    requires B1(s.r0) == b[8] && B1(s.r1) == b[9] && B1(s.r2) == b[10] && B1(s.r3) == b[11]
    requires B0(s.r0) == b[12] && B0(s.r1) == b[13] && B0(s.r2) == b[14] && B0(s.r3) == b[15]
    ensures Store(s) == b
  {
    hide B0, B1, B2, B3;
  }

  lemma StoreLoad(b: seq<bv8>)
    requires |b| == 16
    ensures Store(Load(b)) == b
  {
    hide *;
    LoadRows(b);
    BytesOfWord(b[0], b[4], b[8], b[12]);
    BytesOfWord(b[1], b[5], b[9], b[13]);
    BytesOfWord(b[2], b[6], b[10], b[14]);
    BytesOfWord(b[3], b[7], b[11], b[15]);
    StoreColumns(Load(b), b);
  }

  function BlockAt(buf: seq<bv8>, i: nat): (s: State)
    requires 16 * i + 16 <= |buf|
  {
    Load(buf[16 * i..16 * i + 16])
  }

  /** The first n blocks of a buffer. */
  function Blocks(buf: seq<bv8>, n: nat): (blocks: seq<State>)
    requires 16 * n <= |buf|
    ensures |blocks| == n
  {
    seq(n, i requires 0 <= i < n => BlockAt(buf, i))
  }

  /** A buffer is known from its blocks and what comes after them. */
  lemma SameBuffer(a: seq<bv8>, b: seq<bv8>, n: nat)
    requires 16 * n <= |a| == |b| && Blocks(a, n) == Blocks(b, n) && a[16 * n..] == b[16 * n..]
    ensures a == b
  {
    hide Load, Store;
    forall k | 0 <= k < |a| ensures a[k] == b[k] {
      if k < 16 * n {
        SameByte(a, b, n, k);
      } else {
        assert a[k] == a[16 * n..][k - 16 * n];
      }
    }
  }

  lemma SameByte(a: seq<bv8>, b: seq<bv8>, n: nat, k: nat)
    requires k < 16 * n <= |a| == |b| && Blocks(a, n) == Blocks(b, n)
    ensures a[k] == b[k]
  {
    hide Load, Store;
    var i := k / 16;
    assert Blocks(a, n)[i] == Blocks(b, n)[i];
    StoreLoad(a[16 * i..16 * i + 16]);
    StoreLoad(b[16 * i..16 * i + 16]);
    assert a[k] == a[16 * i..16 * i + 16][k - 16 * i];
    assert b[k] == b[16 * i..16 * i + 16][k - 16 * i];
  }

  method StoreBlock(s: State, inp: array<bv8>, i: nat)
    requires 16 * i + 16 <= inp.Length
    modifies inp
    ensures inp[..] == old(inp[..16 * i]) + Store(s) + old(inp[16 * i + 16..])
  {
    var b := Store(s);
    hide Store;
    for k := 0 to 16
      invariant forall j :: 0 <= j < inp.Length ==>
        inp[j] == if 16 * i <= j < 16 * i + k then b[j - 16 * i] else old(inp[j])
    {
      inp[16 * i + k] := b[k];
    }
  }

  lemma BlocksAfter(was: seq<bv8>, now: seq<bv8>, i: nat, s: State, k: nat)
    requires 16 * i + 16 <= |was| && now == was[..16 * i] + Store(s) + was[16 * i + 16..] && 16 * k + 16 <= |was|
    ensures BlockAt(now, k) == if k == i then s else BlockAt(was, k)
  {
    LoadStore(s);
    hide Load, Store;
    if k == i {
      assert now[16 * i..16 * i + 16] == Store(s);
    } else {
      assert now[16 * k..16 * k + 16] == was[16 * k..16 * k + 16];
    }
  }

  // ---------------------------------------------------------------------
  // Cipher block chaining
  // ---------------------------------------------------------------------

  /** The chaining value after some blocks of cipher text. */
  function Chained(iv: State, c: seq<State>): (s: State) {
    if c == [] then iv else c[|c| - 1]
  }

  function CbcEncrypted(eKey: seq<State>, nRounds: nat, iv: State, p: seq<State>): (c: seq<State>)
    requires 1 <= nRounds < |eKey|
    ensures |c| == |p|
  {
    if p == [] then []
    else
      var c := CbcEncrypted(eKey, nRounds, iv, p[..|p| - 1]);
      c + [Cipher(eKey, nRounds, XorState(Chained(iv, c), p[|p| - 1]))]
  }

  function CbcDecrypted(eKey: seq<State>, nRounds: nat, iv: State, c: seq<State>): (p: seq<State>)
    requires 1 <= nRounds < |eKey|
    ensures |p| == |c|
  {
    seq(|c|, i requires 0 <= i < |c| => XorState(InvCipher(eKey, nRounds, c[i]), if i == 0 then iv else c[i - 1]))
  }

  lemma {:induction false} CbcInverse(eKey: seq<State>, nRounds: nat, iv: State, p: seq<State>)
    requires 1 <= nRounds < |eKey|
    ensures CbcDecrypted(eKey, nRounds, iv, CbcEncrypted(eKey, nRounds, iv, p)) == p
  {
    hide Cipher, InvCipher, XorState;
    if p == [] {
    } else {
      var n := |p| - 1;
      CbcInverse(eKey, nRounds, iv, p[..n]);
      var c := CbcEncrypted(eKey, nRounds, iv, p[..n]);
      var all := CbcEncrypted(eKey, nRounds, iv, p);
      var last := Chained(iv, c);
      CipherInverse(eKey, nRounds, XorState(last, p[n]));
      XorBack(last, p[n]);
      assert CbcDecrypted(eKey, nRounds, iv, all) == CbcDecrypted(eKey, nRounds, iv, c) + [p[n]];
    }
  }

  lemma XorBack(k: State, s: State)
    ensures XorState(XorState(k, s), k) == s
  {
    hide Add;
    AddCommutes(k.r0, s.r0);
    AddCommutes(k.r1, s.r1);
    AddCommutes(k.r2, s.r2);
    AddCommutes(k.r3, s.r3);
    XorTwice(s, k);
  }

  function Iv(iv: seq<bv32>): (s: State)
    requires |iv| == 4
  {
    State(iv[0], iv[1], iv[2], iv[3])
  }

  method StoreIv(s: State, iv: array<bv32>)
    requires iv.Length == 4
    modifies iv
    ensures Iv(iv[..]) == s
  {
    iv[0], iv[1], iv[2], iv[3] := s.r0, s.r1, s.r2, s.r3;
  }

  // ---------------------------------------------------------------------
  // In place
  // ---------------------------------------------------------------------

  /** The blocks before the cursor are encrypted, the others are as they were. */
  ghost predicate Encrypted(buf: seq<bv8>, was: seq<bv8>, n: nat, i: nat, eKey: seq<State>, nRounds: nat, iv: State) {
    && i <= n && 16 * n <= |was| == |buf| && 1 <= nRounds < |eKey|
    && Blocks(buf, i) == CbcEncrypted(eKey, nRounds, iv, Blocks(was, n)[..i]) && buf[16 * i..] == was[16 * i..]
  }

  /** One round of the loop of raazAESCBCEncryptCPortable. */
  method EncryptBlock(inp: array<bv8>, start: State, nRounds: nat, eKey: seq<State>, i: nat,
                      ghost was: seq<bv8>, ghost n: nat, ghost iv: State) returns (state: State)
    requires 1 <= nRounds < |eKey| && i < n && 16 * n <= inp.Length
    requires Encrypted(inp[..], was, n, i, eKey, nRounds, iv) && start == Chained(iv, Blocks(inp[..], i))
    modifies inp
    ensures Encrypted(inp[..], was, n, i + 1, eKey, nRounds, iv) && state == Chained(iv, Blocks(inp[..], i + 1))
  {
    hide Load, Store, Cipher, XorState;
    var temp := Load(inp[16 * i..16 * i + 16]);
    SameBlock(was, inp[..], i, i);
    state := XorState(start, temp);
    state := Encrypt(state, eKey, nRounds);
    ghost var before := inp[..];
    StoreBlock(state, inp, i);
    NextEncrypted(before, inp[..], i, state);
    assert Blocks(was, n)[..i + 1][..i] == Blocks(was, n)[..i];
  }

  lemma StartEncrypted(buf: seq<bv8>, n: nat, eKey: seq<State>, nRounds: nat, iv: State)
    requires 16 * n <= |buf| && 1 <= nRounds < |eKey|
    ensures Encrypted(buf, buf, n, 0, eKey, nRounds, iv) && iv == Chained(iv, Blocks(buf, 0))
  {
  }

  lemma EndEncrypted(buf: seq<bv8>, was: seq<bv8>, n: nat, eKey: seq<State>, nRounds: nat, iv: State)
    requires Encrypted(buf, was, n, n, eKey, nRounds, iv)
    ensures 1 <= nRounds < |eKey| && 16 * n <= |was| == |buf| && buf[16 * n..] == was[16 * n..]
    ensures Blocks(buf, n) == CbcEncrypted(eKey, nRounds, iv, Blocks(was, n))
  {
    hide Load, Cipher, XorState;
    assert Blocks(was, n)[..n] == Blocks(was, n);
  }

  /** raazAESCBCEncryptCPortable */
  method CbcEncrypt(inp: array<bv8>, nBlocks: nat, nRounds: nat, eKey: seq<State>, iv: array<bv32>)
    requires iv.Length == 4 && 16 * nBlocks <= inp.Length && 1 <= nRounds < |eKey|
    modifies inp, iv
    ensures Blocks(inp[..], nBlocks) == CbcEncrypted(eKey, nRounds, old(Iv(iv[..])), old(Blocks(inp[..], nBlocks)))
    ensures inp[16 * nBlocks..] == old(inp[16 * nBlocks..])
    ensures Iv(iv[..]) == Chained(old(Iv(iv[..])), Blocks(inp[..], nBlocks))
  {
    hide *;
    ghost var was, iv0 := inp[..], Iv(iv[..]);
    var state := Iv(iv[..]);
    StartEncrypted(was, nBlocks, eKey, nRounds, iv0);
    for i := 0 to nBlocks
      invariant Encrypted(inp[..], was, nBlocks, i, eKey, nRounds, iv0) && state == Chained(iv0, Blocks(inp[..], i))
    {
      state := EncryptBlock(inp, state, nRounds, eKey, i, was, nBlocks, iv0);
    }
    EndEncrypted(inp[..], was, nBlocks, eKey, nRounds, iv0);
    StoreIv(state, iv);
  }

  lemma SameBlock(was: seq<bv8>, now: seq<bv8>, i: nat, k: nat)
    requires 16 * i <= |was| == |now| && was[16 * i..] == now[16 * i..] && i <= k && 16 * k + 16 <= |was|
    ensures BlockAt(now, k) == BlockAt(was, k)
  {
    hide Load;
    assert now[16 * k..16 * k + 16] == now[16 * i..][16 * (k - i)..16 * (k - i) + 16];
    assert was[16 * k..16 * k + 16] == was[16 * i..][16 * (k - i)..16 * (k - i) + 16];
  }

  lemma NextEncrypted(was: seq<bv8>, now: seq<bv8>, i: nat, s: State)
    requires 16 * i + 16 <= |was| && now == was[..16 * i] + Store(s) + was[16 * i + 16..]
    ensures Blocks(now, i + 1) == Blocks(was, i) + [s] && now[16 * (i + 1)..] == was[16 * i..][16..]
  {
    hide Load, Store, BlockAt;
    forall k | 0 <= k < i + 1 ensures BlockAt(now, k) == (Blocks(was, i) + [s])[k] {
      BlocksAfter(was, now, i, s, k);
    }
  }

  /** The blocks after the cursor are decrypted. */
  ghost predicate Decrypted(buf: seq<bv8>, cursor: nat, c: seq<State>, p: seq<State>) {
    && |c| == |p| && 16 * |c| <= |buf|
    && forall k :: 0 <= k < |c| ==> BlockAt(buf, k) == if k <= cursor then c[k] else p[k]
  }

  lemma StartDecrypted(buf: seq<bv8>, n: nat, p: seq<State>)
    requires |p| == n >= 1 && 16 * n <= |buf|
    ensures Decrypted(buf, n - 1, Blocks(buf, n), p)
  {
    hide Load;
  }

  lemma NextDecrypted(was: seq<bv8>, now: seq<bv8>, cursor: nat, c: seq<State>, p: seq<State>)
    requires Decrypted(was, cursor, c, p) && 1 <= cursor < |c|
    requires now == was[..16 * cursor] + Store(p[cursor]) + was[16 * cursor + 16..]
    ensures Decrypted(now, cursor - 1, c, p) && now[16 * |c|..] == was[16 * |c|..]
  {
    hide Load, Store, BlockAt;
    forall k | 0 <= k < |c| ensures BlockAt(now, k) == if k <= cursor - 1 then c[k] else p[k] {
      BlocksAfter(was, now, cursor, p[cursor], k);
    }
  }

  lemma LastDecrypted(was: seq<bv8>, now: seq<bv8>, c: seq<State>, p: seq<State>)
    requires Decrypted(was, 0, c, p) && 1 <= |c| && now == was[..16 * 0] + Store(p[0]) + was[16 * 0 + 16..]
    ensures Blocks(now, |c|) == p && now[16 * |c|..] == was[16 * |c|..]
  {
    hide Load, Store, BlockAt;
    forall k | 0 <= k < |c| ensures BlockAt(now, k) == p[k] {
      BlocksAfter(was, now, 0, p[0], k);
    }
  }

  lemma BlockDecrypted(buf: seq<bv8>, cursor: nat, c: seq<State>, p: seq<State>, k: nat)
    requires Decrypted(buf, cursor, c, p) && k <= cursor && k < |c|
    ensures Load(buf[16 * k..16 * k + 16]) == c[k]
  {
    hide Load;
    assert BlockAt(buf, k) == c[k];
  }

  lemma PlainAt(eKey: seq<State>, nRounds: nat, iv: State, c: seq<State>, k: nat)
    requires 1 <= nRounds < |eKey| && k < |c|
    ensures CbcDecrypted(eKey, nRounds, iv, c)[k]
         == XorState(InvCipher(eKey, nRounds, c[k]), if k == 0 then iv else c[k - 1])
  {
    hide InvCipher, XorState;
  }

  /** One round of the loop of raazAESCBCDecryptCPortable. */
  method DecryptBlock(inp: array<bv8>, start: State, nRounds: nat, eKey: seq<State>, cursor: nat,
                      ghost iv: State, ghost c: seq<State>, ghost p: seq<State>) returns (temp: State)
    requires 1 <= nRounds < |eKey| && 1 <= cursor < |c| && 16 * |c| <= inp.Length
    requires p == CbcDecrypted(eKey, nRounds, iv, c) && Decrypted(inp[..], cursor, c, p) && start == c[cursor]
    modifies inp
    ensures Decrypted(inp[..], cursor - 1, c, p) && temp == c[cursor - 1]
    ensures inp[16 * |c|..] == old(inp[16 * |c|..])
  {
    hide *;
    PlainAt(eKey, nRounds, iv, c, cursor);
    var state := Decrypt(start, eKey, nRounds);
    BlockDecrypted(inp[..], cursor, c, p, cursor - 1);
    temp := Load(inp[16 * (cursor - 1)..16 * (cursor - 1) + 16]);
    state := XorState(state, temp);
    ghost var before := inp[..];
    StoreBlock(state, inp, cursor);
    NextDecrypted(before, inp[..], cursor, c, p);
  }

  /** After the loop: the first block, which is chained to the initial value. */
  method DecryptFirst(inp: array<bv8>, start: State, nRounds: nat, eKey: seq<State>, iv: State,
                      ghost c: seq<State>, ghost p: seq<State>)
    requires 1 <= nRounds < |eKey| && 1 <= |c| && 16 * |c| <= inp.Length
    requires p == CbcDecrypted(eKey, nRounds, iv, c) && Decrypted(inp[..], 0, c, p) && start == c[0]
    modifies inp
    ensures Blocks(inp[..], |c|) == p && inp[16 * |c|..] == old(inp[16 * |c|..])
  {
    hide *;
    PlainAt(eKey, nRounds, iv, c, 0);
    var state := Decrypt(start, eKey, nRounds);
    state := XorState(state, iv);
    ghost var before := inp[..];
    StoreBlock(state, inp, 0);
    LastDecrypted(before, inp[..], c, p);
  }

  /** raazAESCBCDecryptCPortable, which reads the last block before anything else. */
  method CbcDecrypt(inp: array<bv8>, nBlocks: nat, nRounds: nat, eKey: seq<State>, iv: array<bv32>)
    requires iv.Length == 4 && 1 <= nBlocks && 16 * nBlocks <= inp.Length && 1 <= nRounds < |eKey|
    modifies inp, iv
    ensures Blocks(inp[..], nBlocks) == CbcDecrypted(eKey, nRounds, old(Iv(iv[..])), old(Blocks(inp[..], nBlocks)))
    ensures inp[16 * nBlocks..] == old(inp[16 * nBlocks..])
    ensures Iv(iv[..]) == Chained(old(Iv(iv[..])), old(Blocks(inp[..], nBlocks)))
  {
    hide *;
    ghost var was, iv0 := inp[..], Iv(iv[..]);
    ghost var c := Blocks(was, nBlocks);
    ghost var p := CbcDecrypted(eKey, nRounds, iv0, c);
    StartDecrypted(was, nBlocks, p);
    BlockDecrypted(was, nBlocks - 1, c, p, nBlocks - 1);
    var state := Load(inp[16 * (nBlocks - 1)..16 * (nBlocks - 1) + 16]);
    var endIV := state;
    var cursor := nBlocks - 1;
    while cursor > 0
      invariant 0 <= cursor < nBlocks && Decrypted(inp[..], cursor, c, p) && state == c[cursor]
      invariant inp[16 * nBlocks..] == was[16 * nBlocks..] && iv[..] == old(iv[..])
    {
      state := DecryptBlock(inp, state, nRounds, eKey, cursor, iv0, c, p);
      cursor := cursor - 1;
    }
    DecryptFirst(inp, state, nRounds, eKey, Iv(iv[..]), c, p);
    StoreIv(endIV, iv);
    LastOf(iv0, c);
  }

  lemma LastOf(iv: State, c: seq<State>)
    requires c != []
    ensures Chained(iv, c) == c[|c| - 1]
  {
  }

  /** Encrypting and decrypting in place, from the same chaining value: the buffer is as it was, and both
      leave the same chaining value. */
  method RoundTrip(inp: array<bv8>, nBlocks: nat, nRounds: nat, eKey: seq<State>, iv: array<bv32>, iv2: array<bv32>)
    requires iv != iv2 && iv.Length == iv2.Length == 4 && iv[..] == iv2[..]
    requires 1 <= nBlocks && 16 * nBlocks <= inp.Length && 1 <= nRounds < |eKey|
    modifies inp, iv, iv2
    ensures inp[..] == old(inp[..]) && Iv(iv[..]) == Iv(iv2[..])
  {
    hide *;
    ghost var was, iv0 := inp[..], Iv(iv[..]);
    ghost var p := Blocks(was, nBlocks);
    CbcEncrypt(inp, nBlocks, nRounds, eKey, iv);
    CbcInverse(eKey, nRounds, iv0, p);
    CbcDecrypt(inp, nBlocks, nRounds, eKey, iv2);
    SameBuffer(was, inp[..], nBlocks);
  }
}
