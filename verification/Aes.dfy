/**
 * The AES block cipher and its inverse (bsd/crypto/crypto_cipher.cpp:51-126,
 * 169-205).  The state is an array of sixteen bytes that every step rewrites.
 */
module Aes {
  import opened Gf256
  import opened Sbox

  type Block = s: seq<bv8> | |s| == 16 witness seq(16, _ => 0)

  // ------------------------------------------------------------ steps as values

  /** Byte `j` of round key `round`, most significant byte of each word first. */
  function KeyByte(w: bv32, k: nat): bv8
    requires k < 4
  {
    (if k == 0 then (w >> 24) & 0xff else if k == 1 then (w >> 16) & 0xff else if k == 2 then (w >> 8) & 0xff
      else w & 0xff) as bv8
  }

  predicate HasRound(rk: seq<bv32>, round: nat) { 4 * round + 4 <= |rk| }

  function KeyColumn(c: Column, w: bv32): Column {
    Column(Xor(c.a0, KeyByte(w, 0)), Xor(c.a1, KeyByte(w, 1)), Xor(c.a2, KeyByte(w, 2)), Xor(c.a3, KeyByte(w, 3)))
  }

  function AddRoundKey(s: Block, rk: seq<bv32>, round: nat): Block
    requires HasRound(rk, round)
  {
    OfColumns(KeyColumn(ColumnAt(s, 0), rk[4 * round]), KeyColumn(ColumnAt(s, 1), rk[4 * round + 1]),
              KeyColumn(ColumnAt(s, 2), rk[4 * round + 2]), KeyColumn(ColumnAt(s, 3), rk[4 * round + 3]))
  }

  function SubBytes(s: Block): Block { seq(16, j requires 0 <= j < 16 => Sub(s[j])) }

  function InvSubBytes(s: Block): Block { seq(16, j requires 0 <= j < 16 => InvSub(s[j])) }

  function ShiftRows(s: Block): Block {
    [s[0], s[5], s[10], s[15], s[4], s[9], s[14], s[3], s[8], s[13], s[2], s[7], s[12], s[1], s[6], s[11]]
  }

  function InvShiftRows(s: Block): Block {
    [s[0], s[13], s[10], s[7], s[4], s[1], s[14], s[11], s[8], s[5], s[2], s[15], s[12], s[9], s[6], s[3]]
  }

  /** Row r of the state moves r columns to the left: section 5.1.2 of FIPS 197. */
  lemma ShiftRowsIsRotation(s: Block, r: nat, c: nat)
    requires r < 4 && c < 4
    ensures ShiftRows(s)[r + 4 * c] == s[r + 4 * ((c + r) % 4)]
  {
    if r == 0 {} else if r == 1 {} else if r == 2 {} else {}
  }

  function ColumnAt(s: Block, c: nat): Column
    requires c < 4
  {
    Column(s[4 * c], s[4 * c + 1], s[4 * c + 2], s[4 * c + 3])
  }

  function OfColumns(c0: Column, c1: Column, c2: Column, c3: Column): Block {
    [c0.a0, c0.a1, c0.a2, c0.a3, c1.a0, c1.a1, c1.a2, c1.a3, c2.a0, c2.a1, c2.a2, c2.a3, c3.a0, c3.a1, c3.a2, c3.a3]
  }

  function MixColumns(s: Block): Block {
    OfColumns(Mix(ColumnAt(s, 0)), Mix(ColumnAt(s, 1)), Mix(ColumnAt(s, 2)), Mix(ColumnAt(s, 3)))
  }

  function InvMixColumns(s: Block): Block {
    OfColumns(InvMix(ColumnAt(s, 0)), InvMix(ColumnAt(s, 1)), InvMix(ColumnAt(s, 2)), InvMix(ColumnAt(s, 3)))
  }

  // -------------------------------------------------------- each step is undone

  lemma SubBytesUndone(s: Block)
    ensures InvSubBytes(SubBytes(s)) == s && SubBytes(InvSubBytes(s)) == s
  {
    hide Sub, InvSub;
    forall j | 0 <= j < 16 ensures InvSubBytes(SubBytes(s))[j] == s[j] && SubBytes(InvSubBytes(s))[j] == s[j] {
      InvSubSub(s[j]);
      SubInvSub(s[j]);
    }
  }

  lemma ShiftRowsUndone(s: Block)
    ensures InvShiftRows(ShiftRows(s)) == s && ShiftRows(InvShiftRows(s)) == s
  {}

  lemma MixColumnsUndone(s: Block)
    ensures InvMixColumns(MixColumns(s)) == s && MixColumns(InvMixColumns(s)) == s
  {
    hide Mix, InvMix, OfColumns, ColumnAt;
    ColumnsOf(Mix(ColumnAt(s, 0)), Mix(ColumnAt(s, 1)), Mix(ColumnAt(s, 2)), Mix(ColumnAt(s, 3)));
    ColumnsOf(InvMix(ColumnAt(s, 0)), InvMix(ColumnAt(s, 1)), InvMix(ColumnAt(s, 2)), InvMix(ColumnAt(s, 3)));
    ColumnsBack(s);
    forall c: nat | c < 4
      ensures InvMix(Mix(ColumnAt(s, c))) == ColumnAt(s, c) && Mix(InvMix(ColumnAt(s, c))) == ColumnAt(s, c)
    {
      InvMixMix(ColumnAt(s, c));
      MixInvMix(ColumnAt(s, c));
    }
  }

  lemma ColumnsOf(c0: Column, c1: Column, c2: Column, c3: Column)
    ensures var s := OfColumns(c0, c1, c2, c3);
            ColumnAt(s, 0) == c0 && ColumnAt(s, 1) == c1 && ColumnAt(s, 2) == c2 && ColumnAt(s, 3) == c3
  {}

  lemma ColumnsBack(s: Block)
    ensures OfColumns(ColumnAt(s, 0), ColumnAt(s, 1), ColumnAt(s, 2), ColumnAt(s, 3)) == s
  {}

  lemma KeyColumnUndone(c: Column, w: bv32)
    ensures KeyColumn(KeyColumn(c, w), w) == c
  {
    hide Xor, KeyByte;
    XorTwice(c.a0, KeyByte(w, 0));
    XorTwice(c.a1, KeyByte(w, 1));
    XorTwice(c.a2, KeyByte(w, 2));
    XorTwice(c.a3, KeyByte(w, 3));
  }

  lemma XorTwice(p: bv8, k: bv8)
    ensures Xor(Xor(p, k), k) == p
  {
    hide Xor;
    XorAssoc(p, k, k);
    XorZero(k);
    XorZero(p);
  }

  lemma AddRoundKeyUndone(s: Block, rk: seq<bv32>, round: nat)
    requires HasRound(rk, round)
    ensures AddRoundKey(AddRoundKey(s, rk, round), rk, round) == s
  {
    hide KeyColumn, OfColumns, ColumnAt;
    var w0, w1, w2, w3 := rk[4 * round], rk[4 * round + 1], rk[4 * round + 2], rk[4 * round + 3];
    ColumnsOf(KeyColumn(ColumnAt(s, 0), w0), KeyColumn(ColumnAt(s, 1), w1), KeyColumn(ColumnAt(s, 2), w2),
      KeyColumn(ColumnAt(s, 3), w3));
    ColumnsBack(s);
    KeyColumnUndone(ColumnAt(s, 0), w0);
    KeyColumnUndone(ColumnAt(s, 1), w1);
    KeyColumnUndone(ColumnAt(s, 2), w2);
    KeyColumnUndone(ColumnAt(s, 3), w3);
  }

  // --------------------------------------------------------------------- rounds

  /** The encryption state after round `i`. */
  function Rounds(rk: seq<bv32>, input: Block, i: nat): Block
    requires HasRound(rk, i)
  {
    if i == 0 then AddRoundKey(input, rk, 0)
    else AddRoundKey(MixColumns(ShiftRows(SubBytes(Rounds(rk, input, i - 1)))), rk, i)
  }

  function Encrypt(rk: seq<bv32>, nr: nat, input: Block): Block
    requires nr >= 1 && HasRound(rk, nr)
  {
    AddRoundKey(ShiftRows(SubBytes(Rounds(rk, input, nr - 1))), rk, nr)
  }

  /** The rest of the decryption from the top of loop turn `i` on. */
  function Unrounds(rk: seq<bv32>, s: Block, i: nat): Block
    requires HasRound(rk, i)
    decreases i
  {
    if i == 0 then AddRoundKey(InvSubBytes(InvShiftRows(s)), rk, 0)
    else Unrounds(rk, InvMixColumns(AddRoundKey(InvSubBytes(InvShiftRows(s)), rk, i)), i - 1)
  }

  function Decrypt(rk: seq<bv32>, nr: nat, input: Block): Block
    requires nr >= 1 && HasRound(rk, nr)
  {
    Unrounds(rk, AddRoundKey(input, rk, nr), nr - 1)
  }

  lemma {:induction false} UnroundsUndo(rk: seq<bv32>, input: Block, i: nat)
    requires HasRound(rk, i)
    ensures Unrounds(rk, ShiftRows(SubBytes(Rounds(rk, input, i))), i) == input
  {
    hide AddRoundKey, SubBytes, InvSubBytes, ShiftRows, InvShiftRows, MixColumns, InvMixColumns;
    var e := Rounds(rk, input, i);
    ShiftRowsUndone(SubBytes(e));
    SubBytesUndone(e);
    if i == 0 {
      AddRoundKeyUndone(input, rk, 0);
    } else {
      var x := ShiftRows(SubBytes(Rounds(rk, input, i - 1)));
      AddRoundKeyUndone(MixColumns(x), rk, i);
      MixColumnsUndone(x);
      UnroundsUndo(rk, input, i - 1);
    }
  }

  /** Decryption undoes encryption, for every key schedule and number of rounds. */
  lemma DecryptEncrypt(rk: seq<bv32>, nr: nat, input: Block)
    requires nr >= 1 && HasRound(rk, nr)
    ensures Decrypt(rk, nr, Encrypt(rk, nr, input)) == input
  {
    hide AddRoundKey, SubBytes, ShiftRows, Rounds, Unrounds;
    AddRoundKeyUndone(ShiftRows(SubBytes(Rounds(rk, input, nr - 1))), rk, nr);
    UnroundsUndo(rk, input, nr - 1);
  }

  /** The decryption state at the top of loop turn `i`, for `n` the first turn. */
  function UnroundAt(rk: seq<bv32>, s: Block, n: nat, i: nat): Block
    requires i <= n && HasRound(rk, n)
    decreases n - i
  {
    if i == n then s
    else InvMixColumns(AddRoundKey(InvSubBytes(InvShiftRows(UnroundAt(rk, s, n, i + 1))), rk, i + 1))
  }

  lemma {:induction false} UnroundsAt(rk: seq<bv32>, s: Block, n: nat, i: nat)
    requires i <= n && HasRound(rk, n)
    ensures Unrounds(rk, s, n) == Unrounds(rk, UnroundAt(rk, s, n, i), i)
    decreases n - i
  {
    hide AddRoundKey, InvSubBytes, InvShiftRows, InvMixColumns;
    if i < n {
      UnroundsAt(rk, s, n, i + 1);
    }
  }

  lemma {:induction false} RoundsUndo(rk: seq<bv32>, s: Block, n: nat, i: nat)
    requires i <= n && HasRound(rk, n)
    ensures Rounds(rk, Unrounds(rk, s, n), i) == InvSubBytes(InvShiftRows(UnroundAt(rk, s, n, i)))
    decreases i
  {
    hide AddRoundKey, SubBytes, InvSubBytes, ShiftRows, InvShiftRows, MixColumns, InvMixColumns;
    var u := UnroundAt(rk, s, n, i);
    var e := InvSubBytes(InvShiftRows(u));
    AddRoundKeyUndone(e, rk, i);
    if i == 0 {
      UnroundsAt(rk, s, n, 0);
    } else {
      RoundsUndo(rk, s, n, i - 1);
      var w := UnroundAt(rk, s, n, i - 1);
      SubBytesUndone(InvShiftRows(w));
      ShiftRowsUndone(w);
      MixColumnsUndone(AddRoundKey(e, rk, i));
    }
  }

  /** Encryption undoes decryption, so the cipher permutes the blocks. */
  lemma EncryptDecrypt(rk: seq<bv32>, nr: nat, input: Block)
    requires nr >= 1 && HasRound(rk, nr)
    ensures Encrypt(rk, nr, Decrypt(rk, nr, input)) == input
  {
    hide AddRoundKey, SubBytes, InvSubBytes, ShiftRows, InvShiftRows, Rounds, Unrounds;
    var s := AddRoundKey(input, rk, nr);
    RoundsUndo(rk, s, nr - 1, nr - 1);
    SubBytesUndone(InvShiftRows(s));
    ShiftRowsUndone(s);
    AddRoundKeyUndone(input, rk, nr);
  }

  // --------------------------------------------------------- the code, in place

  /** One word of a round key into one column of the state. */
  method AddWord(s: array<bv8>, i: nat, w: bv32)
    requires s.Length == 16 && i < 4
    modifies s
    ensures ColumnAt(s[..], i) == KeyColumn(ColumnAt(old(s[..]), i), w)
    ensures forall j :: 0 <= j < 16 && !(4 * i <= j < 4 * i + 4) ==> s[j] == old(s[j])
  {
    hide Xor, KeyByte;
    s[4 * i] := Xor(s[4 * i], KeyByte(w, 0));
    s[4 * i + 1] := Xor(s[4 * i + 1], KeyByte(w, 1));
    s[4 * i + 2] := Xor(s[4 * i + 2], KeyByte(w, 2));
    s[4 * i + 3] := Xor(s[4 * i + 3], KeyByte(w, 3));
  }

  method AddRoundKeyInPlace(s: array<bv8>, rk: seq<bv32>, round: nat)
    requires s.Length == 16 && HasRound(rk, round)
    modifies s
    ensures s[..] == AddRoundKey(old(s[..]), rk, round)
  {
    hide KeyColumn;
    var i := 0;
    while i < 4
      invariant 0 <= i <= 4
      invariant forall c: nat :: c < i ==> ColumnAt(s[..], c) == KeyColumn(ColumnAt(old(s[..]), c), rk[4 * round + c])
      invariant forall j :: 4 * i <= j < 16 ==> s[j] == old(s[j])
    {
      AddWord(s, i, rk[4 * round + i]);
      i := i + 1;
    }
    ColumnsBack(s[..]);
  }

  method SubBytesInPlace(s: array<bv8>)
    requires s.Length == 16
    modifies s
    ensures s[..] == SubBytes(old(s[..]))
  {
    hide Sub;
    var i := 0;
    while i < 16
      invariant 0 <= i <= 16
      invariant forall j :: 0 <= j < i ==> s[j] == Sub(old(s[j]))
      invariant forall j :: i <= j < 16 ==> s[j] == old(s[j])
    {
      s[i] := Sub(s[i]);
      i := i + 1;
    }
  }

  method InvSubBytesInPlace(s: array<bv8>)
    requires s.Length == 16
    modifies s
    ensures s[..] == InvSubBytes(old(s[..]))
  {
    hide InvSub;
    var i := 0;
    while i < 16
      invariant 0 <= i <= 16
      invariant forall j :: 0 <= j < i ==> s[j] == InvSub(old(s[j]))
      invariant forall j :: i <= j < 16 ==> s[j] == old(s[j])
    {
      s[i] := InvSub(s[i]);
      i := i + 1;
    }
  }

  /** Four places take their successors' values in a cycle. */
  method Cycle(s: array<bv8>, a: nat, b: nat, c: nat, d: nat)
    requires s.Length == 16 && a < 16 && b < 16 && c < 16 && d < 16
    requires a != b && a != c && a != d && b != c && b != d && c != d
    modifies s
    ensures s[a] == old(s[b]) && s[b] == old(s[c]) && s[c] == old(s[d]) && s[d] == old(s[a])
    ensures forall j :: 0 <= j < 16 && j != a && j != b && j != c && j != d ==> s[j] == old(s[j])
  {
    var t := s[a];
    s[a] := s[b];
    s[b] := s[c];
    s[c] := s[d];
    s[d] := t;
  }

  method Exchange(s: array<bv8>, a: nat, b: nat)
    requires s.Length == 16 && a < 16 && b < 16
    modifies s
    ensures s[a] == old(s[b]) && s[b] == old(s[a])
    ensures forall j :: 0 <= j < 16 && j != a && j != b ==> s[j] == old(s[j])
  {
    var t := s[a];
    s[a] := s[b];
    s[b] := t;
  }

  lemma ShiftRowsAt(s: Block, t: Block)
    requires t[0] == s[0] && t[1] == s[5] && t[2] == s[10] && t[3] == s[15]
    requires t[4] == s[4] && t[5] == s[9] && t[6] == s[14] && t[7] == s[3]
    requires t[8] == s[8] && t[9] == s[13] && t[10] == s[2] && t[11] == s[7]
    requires t[12] == s[12] && t[13] == s[1] && t[14] == s[6] && t[15] == s[11]
    ensures t == ShiftRows(s)
  {}

  lemma InvShiftRowsAt(s: Block, t: Block)
    requires t[0] == s[0] && t[1] == s[13] && t[2] == s[10] && t[3] == s[7]
    requires t[4] == s[4] && t[5] == s[1] && t[6] == s[14] && t[7] == s[11]
    requires t[8] == s[8] && t[9] == s[5] && t[10] == s[2] && t[11] == s[15]
    requires t[12] == s[12] && t[13] == s[9] && t[14] == s[6] && t[15] == s[3]
    ensures t == InvShiftRows(s)
  {}

  method ShiftRowsInPlace(s: array<bv8>)
    requires s.Length == 16
    modifies s
    ensures s[..] == ShiftRows(old(s[..]))
  {
    hide ShiftRows;
    Cycle(s, 1, 5, 9, 13);
    Exchange(s, 2, 10);
    Exchange(s, 6, 14);
    Cycle(s, 15, 11, 7, 3);
    ShiftRowsAt(old(s[..]), s[..]);
  }

  method InvShiftRowsInPlace(s: array<bv8>)
    requires s.Length == 16
    modifies s
    ensures s[..] == InvShiftRows(old(s[..]))
  {
    hide InvShiftRows;
    Cycle(s, 13, 9, 5, 1);
    Exchange(s, 2, 10);
    Exchange(s, 6, 14);
    Cycle(s, 3, 7, 11, 15);
    InvShiftRowsAt(old(s[..]), s[..]);
  }

  /** One column of the state, rewritten in place. */
  method MixOne(s: array<bv8>, i: nat)
    requires s.Length == 16 && i < 4
    modifies s
    ensures ColumnAt(s[..], i) == Mix(ColumnAt(old(s[..]), i))
    ensures forall j :: 0 <= j < 16 && !(4 * i <= j < 4 * i + 4) ==> s[j] == old(s[j])
  {
    hide Xor, Xtime;
    var a0, a1, a2, a3 := s[4 * i], s[4 * i + 1], s[4 * i + 2], s[4 * i + 3];
    var t := Xor(Xor(Xor(a0, a1), a2), a3);
    s[4 * i] := Xor(s[4 * i], Xor(Xtime(Xor(a0, a1)), t));
    s[4 * i + 1] := Xor(s[4 * i + 1], Xor(Xtime(Xor(a1, a2)), t));
    s[4 * i + 2] := Xor(s[4 * i + 2], Xor(Xtime(Xor(a2, a3)), t));
    s[4 * i + 3] := Xor(s[4 * i + 3], Xor(Xtime(Xor(a3, a0)), t));
  }

  method MixColumnsInPlace(s: array<bv8>)
    requires s.Length == 16
    modifies s
    ensures s[..] == MixColumns(old(s[..]))
  {
    hide Mix;
    var c := 0;
    while c < 4
      invariant 0 <= c <= 4
      invariant forall k: nat :: k < c ==> ColumnAt(s[..], k) == Mix(ColumnAt(old(s[..]), k))
      invariant forall j :: 4 * c <= j < 16 ==> s[j] == old(s[j])
    {
      MixOne(s, c);
      c := c + 1;
    }
    ColumnsBack(s[..]);
  }

  method InvMixOne(s: array<bv8>, i: nat)
    requires s.Length == 16 && i < 4
    modifies s
    ensures ColumnAt(s[..], i) == InvMix(ColumnAt(old(s[..]), i))
    ensures forall j :: 0 <= j < 16 && !(4 * i <= j < 4 * i + 4) ==> s[j] == old(s[j])
  {
    hide Xor, Mul;
    var a := ColumnAt(s[..], i);
    var r0 := MulSum(a, BACKWARD);
    var r1 := MulSum(a, Turn(BACKWARD));
    var r2 := MulSum(a, Turn(Turn(BACKWARD)));
    var r3 := MulSum(a, Turn(Turn(Turn(BACKWARD))));
    s[4 * i], s[4 * i + 1], s[4 * i + 2], s[4 * i + 3] := r0, r1, r2, r3;
  }

  /** Four calls of xmul and their sum. */
  method MulSum(a: Column, p: Column) returns (r: bv8)
    ensures r == Dot(a, p)
  {
    hide Mul, Xor;
    var m0 := Xmul(a.a0, p.a0);
    var m1 := Xmul(a.a1, p.a1);
    var m2 := Xmul(a.a2, p.a2);
    var m3 := Xmul(a.a3, p.a3);
    XorAssoc(Xor(m0, m1), m2, m3);
    r := Xor(Xor(Xor(m0, m1), m2), m3);
  }

  method InvMixColumnsInPlace(s: array<bv8>)
    requires s.Length == 16
    modifies s
    ensures s[..] == InvMixColumns(old(s[..]))
  {
    hide InvMix;
    var c := 0;
    while c < 4
      invariant 0 <= c <= 4
      invariant forall k: nat :: k < c ==> ColumnAt(s[..], k) == InvMix(ColumnAt(old(s[..]), k))
      invariant forall j :: 4 * c <= j < 16 ==> s[j] == old(s[j])
    {
      InvMixOne(s, c);
      c := c + 1;
    }
    ColumnsBack(s[..]);
  }

  /** aes_block_encrypt. */
  method BlockEncrypt(rk: seq<bv32>, nr: nat, input: seq<bv8>) returns (out: seq<bv8>)
    requires nr >= 1 && HasRound(rk, nr) && |input| == 16
    ensures out == Encrypt(rk, nr, input) && |out| == 16
  {
    hide AddRoundKey, SubBytes, ShiftRows, MixColumns;
    var s := new bv8[16](i requires 0 <= i < 16 => input[i]);
    assert s[..] == input;
    AddRoundKeyInPlace(s, rk, 0);
    var i := 1;
    while i < nr
      invariant 1 <= i <= nr && s[..] == Rounds(rk, input, i - 1)
    {
      SubBytesInPlace(s);
      ShiftRowsInPlace(s);
      MixColumnsInPlace(s);
      AddRoundKeyInPlace(s, rk, i);
      i := i + 1;
    }
    SubBytesInPlace(s);
    ShiftRowsInPlace(s);
    AddRoundKeyInPlace(s, rk, nr);
    out := s[..];
  }

  /** aes_block_decrypt. */
  method BlockDecrypt(rk: seq<bv32>, nr: nat, input: seq<bv8>) returns (out: seq<bv8>)
    requires nr >= 1 && HasRound(rk, nr) && |input| == 16
    ensures out == Decrypt(rk, nr, input) && |out| == 16
  {
    hide AddRoundKey, InvSubBytes, InvShiftRows, InvMixColumns;
    var s := new bv8[16](i requires 0 <= i < 16 => input[i]);
    assert s[..] == input;
    AddRoundKeyInPlace(s, rk, nr);
    var i := nr - 1;
    while i > 0
      invariant 0 <= i <= nr - 1 && Unrounds(rk, s[..], i) == Decrypt(rk, nr, input)
    {
      InvShiftRowsInPlace(s);
      InvSubBytesInPlace(s);
      AddRoundKeyInPlace(s, rk, i);
      InvMixColumnsInPlace(s);
      i := i - 1;
    }
    InvShiftRowsInPlace(s);
    InvSubBytesInPlace(s);
    AddRoundKeyInPlace(s, rk, 0);
    out := s[..];
  }
}
