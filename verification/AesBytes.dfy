/**
 * The block cipher byte by byte, as section 5.1 of FIPS 197 writes it: rows
 * and columns by index, key bytes by shifts of the key words, field products
 * by 2 and 3 (bsd/crypto/crypto_cipher.cpp:51-84, 169-186).
 */
module AesBytes {
  import opened Gf256
  import opened Sbox
  import opened Aes

  /** The four key bytes spell the word, most significant first. */
  lemma KeyWord(w: bv32)
    ensures w == (KeyByte(w, 0) as bv32 << 24) | (KeyByte(w, 1) as bv32 << 16) | (KeyByte(w, 2) as bv32 << 8)
                 | KeyByte(w, 3) as bv32
  {}

  function At(c: Column, k: nat): bv8
    requires k < 4
  {
    if k == 0 then c.a0 else if k == 1 then c.a1 else if k == 2 then c.a2 else c.a3
  }

  lemma AtColumn(s: Block, c: nat, k: nat)
    requires c < 4 && k < 4
    ensures At(ColumnAt(s, c), k) == s[4 * c + k]
  {}

  /** Byte 4 * c + k of the state is masked with byte k of key word c. */
  lemma AddRoundKeyByte(s: Block, rk: seq<bv32>, round: nat, c: nat, k: nat)
    requires HasRound(rk, round) && c < 4 && k < 4
    ensures AddRoundKey(s, rk, round)[4 * c + k] == s[4 * c + k] ^ KeyByte(rk[4 * round + c], k)
  {
    hide KeyColumn, KeyByte, OfColumns, ColumnAt, At, Xor;
    XorBits(s[4 * c + k], KeyByte(rk[4 * round + c], k));
    var w0, w1, w2, w3 := rk[4 * round], rk[4 * round + 1], rk[4 * round + 2], rk[4 * round + 3];
    ColumnsOf(KeyColumn(ColumnAt(s, 0), w0), KeyColumn(ColumnAt(s, 1), w1), KeyColumn(ColumnAt(s, 2), w2),
      KeyColumn(ColumnAt(s, 3), w3));
    var t := AddRoundKey(s, rk, round);
    assert ColumnAt(t, c) == KeyColumn(ColumnAt(s, c), rk[4 * round + c]);
    AtColumn(t, c, k);
    AtColumn(s, c, k);
    KeyColumnByte(ColumnAt(s, c), rk[4 * round + c], k);
  }

  lemma KeyColumnByte(c: Column, w: bv32, k: nat)
    requires k < 4
    ensures At(KeyColumn(c, w), k) == Xor(At(c, k), KeyByte(w, k))
  {
    hide KeyByte, Xor;
    if k == 0 {} else if k == 1 {} else if k == 2 {} else {}
  }

  lemma XorBits(p: bv8, q: bv8)
    ensures Xor(p, q) == p ^ q
  {}

  /** Row `r` of column `c` after sub_bytes and shift_rows. */
  function Moved(p: Block, c: nat, r: nat): bv8
    requires c < 4 && r < 4
  {
    Sub(p[r + 4 * ((c + r) % 4)])
  }

  lemma MovedByte(p: Block, c: nat, r: nat)
    requires c < 4 && r < 4
    ensures ShiftRows(SubBytes(p))[4 * c + r] == Moved(p, c, r)
  {
    hide Sub, ShiftRows;
    ShiftRowsIsRotation(SubBytes(p), r, c);
  }

  function Xors(p: bv8, q: bv8, r: bv8, s: bv8): bv8 { p ^ q ^ r ^ s }

  /** Row `k` of a mixed column, in field products. */
  lemma MixRowByte(s: Block, c: nat, k: nat)
    requires c < 4 && k < 4
    ensures MixColumns(s)[4 * c + k] ==
            Xors(Mul(s[4 * c + k], 2), Mul(s[4 * c + (k + 1) % 4], 3), s[4 * c + (k + 2) % 4], s[4 * c + (k + 3) % 4])
  {
    hide Mix, Mul, OfColumns, ColumnAt, At, Circulant, Xors;
    ColumnsOf(Mix(ColumnAt(s, 0)), Mix(ColumnAt(s, 1)), Mix(ColumnAt(s, 2)), Mix(ColumnAt(s, 3)));
    var t, col := MixColumns(s), ColumnAt(s, c);
    assert ColumnAt(t, c) == Mix(col);
    AtColumn(t, c, k);
    AtColumn(s, c, k);
    AtColumn(s, c, (k + 1) % 4);
    AtColumn(s, c, (k + 2) % 4);
    AtColumn(s, c, (k + 3) % 4);
    MixIsCirculant(col);
    CirculantRow(col, k);
  }

  lemma MulOne(a: bv8)
    ensures Mul(a, 1) == a
  {
    MulSmall(a);
  }

  lemma CirculantRows(c: Column)
    ensures var r := Circulant(c, FORWARD);
            && r.a0 == Xors(Mul(c.a0, 2), Mul(c.a1, 3), c.a2, c.a3)
            && r.a1 == Xors(Mul(c.a1, 2), Mul(c.a2, 3), c.a3, c.a0)
            && r.a2 == Xors(Mul(c.a2, 2), Mul(c.a3, 3), c.a0, c.a1)
            && r.a3 == Xors(Mul(c.a3, 2), Mul(c.a0, 3), c.a1, c.a2)
  {
    hide Mul, Xor4, Xors;
    MulOne(c.a0);
    MulOne(c.a1);
    MulOne(c.a2);
    MulOne(c.a3);
    Regroup(Mul(c.a0, 2), Mul(c.a1, 3), c.a2, c.a3);
    Regroup(c.a0, Mul(c.a1, 2), Mul(c.a2, 3), c.a3);
    Regroup(c.a0, c.a1, Mul(c.a2, 2), Mul(c.a3, 3));
    Regroup(Mul(c.a0, 3), c.a1, c.a2, Mul(c.a3, 2));
  }

  lemma CirculantRow(c: Column, k: nat)
    requires k < 4
    ensures At(Circulant(c, FORWARD), k) ==
            Xors(Mul(At(c, k), 2), Mul(At(c, (k + 1) % 4), 3), At(c, (k + 2) % 4), At(c, (k + 3) % 4))
  {
    hide Mul, Xors, Circulant;
    CirculantRows(c);
    if k == 0 {
      assert (k + 1) % 4 == 1 && (k + 2) % 4 == 2 && (k + 3) % 4 == 3;
    } else if k == 1 {
      assert (k + 1) % 4 == 2 && (k + 2) % 4 == 3 && (k + 3) % 4 == 0;
    } else if k == 2 {
      assert (k + 1) % 4 == 3 && (k + 2) % 4 == 0 && (k + 3) % 4 == 1;
    } else {
      assert (k + 1) % 4 == 0 && (k + 2) % 4 == 1 && (k + 3) % 4 == 2;
    }
  }

  lemma Regroup(p: bv8, q: bv8, r: bv8, s: bv8)
    ensures Xor4(Column(p, q, r, s)) == Xors(p, q, r, s) == Xors(q, r, s, p) == Xors(r, s, p, q) == Xors(s, p, q, r)
  {}

  /** The state starts as the input under round key 0. */
  lemma StartByte(rk: seq<bv32>, input: Block, c: nat, k: nat)
    requires HasRound(rk, 0) && c < 4 && k < 4
    ensures Rounds(rk, input, 0)[4 * c + k] == input[4 * c + k] ^ KeyByte(rk[c], k)
  {
    hide AddRoundKey;
    AddRoundKeyByte(input, rk, 0, c, k);
  }

  /** Every byte of round `i` from four bytes of the round before and one of its key. */
  lemma RoundByte(rk: seq<bv32>, input: Block, i: nat, c: nat, k: nat)
    requires i >= 1 && HasRound(rk, i) && c < 4 && k < 4
    ensures var p := Rounds(rk, input, i - 1);
            Rounds(rk, input, i)[4 * c + k] ==
            Xors(Mul(Moved(p, c, k), 2), Mul(Moved(p, c, (k + 1) % 4), 3), Moved(p, c, (k + 2) % 4),
                 Moved(p, c, (k + 3) % 4)) ^ KeyByte(rk[4 * i + c], k)
  {
    hide AddRoundKey, MixColumns, ShiftRows, SubBytes, Moved, Mul, Xors, KeyByte;
    var p := Rounds(rk, input, i - 1);
    var s := ShiftRows(SubBytes(p));
    MovedByte(p, c, k);
    MovedByte(p, c, (k + 1) % 4);
    MovedByte(p, c, (k + 2) % 4);
    MovedByte(p, c, (k + 3) % 4);
    MixRowByte(s, c, k);
    AddRoundKeyByte(MixColumns(s), rk, i, c, k);
  }

  /** The last round leaves the columns unmixed. */
  lemma LastByte(rk: seq<bv32>, nr: nat, input: Block, c: nat, k: nat)
    requires nr >= 1 && HasRound(rk, nr) && c < 4 && k < 4
    ensures Encrypt(rk, nr, input)[4 * c + k] ==
            Moved(Rounds(rk, input, nr - 1), c, k) ^ KeyByte(rk[4 * nr + c], k)
  {
    hide AddRoundKey, ShiftRows, SubBytes, Moved, Rounds;
    var p := Rounds(rk, input, nr - 1);
    MovedByte(p, c, k);
    AddRoundKeyByte(ShiftRows(SubBytes(p)), rk, nr, c, k);
  }

  // --------------------------------------------------------- the key is mixed in

  lemma {:induction false} RoundsPrefix(rk: seq<bv32>, rk': seq<bv32>, input: Block, i: nat)
    requires HasRound(rk, i) && HasRound(rk', i) && forall j :: 0 <= j < 4 * i + 4 ==> rk[j] == rk'[j]
    ensures Rounds(rk, input, i) == Rounds(rk', input, i)
  {
    hide MixColumns, ShiftRows, SubBytes, KeyColumn;
    if i > 0 {
      RoundsPrefix(rk, rk', input, i - 1);
    }
  }

  /** Schedules that differ in one word of the last round key encrypt every block differently. */
  lemma LastKeyMatters(rk: seq<bv32>, rk': seq<bv32>, nr: nat, input: Block, c: nat)
    requires nr >= 1 && HasRound(rk, nr) && HasRound(rk', nr) && c < 4
    requires (forall j :: 0 <= j < 4 * nr ==> rk[j] == rk'[j]) && rk[4 * nr + c] != rk'[4 * nr + c]
    ensures Encrypt(rk, nr, input) != Encrypt(rk', nr, input)
  {
    hide Encrypt, Rounds, Moved;
    RoundsPrefix(rk, rk', input, nr - 1);
    var k := DifferentByte(rk[4 * nr + c], rk'[4 * nr + c]);
    LastByte(rk, nr, input, c, k);
    LastByte(rk', nr, input, c, k);
  }

  lemma DifferentByte(w: bv32, w': bv32) returns (k: nat)
    requires w != w'
    ensures k < 4 && KeyByte(w, k) != KeyByte(w', k)
  {
    KeyWord(w);
    KeyWord(w');
    hide KeyByte;
    k := if KeyByte(w, 0) != KeyByte(w', 0) then 0 else if KeyByte(w, 1) != KeyByte(w', 1) then 1
         else if KeyByte(w, 2) != KeyByte(w', 2) then 2 else 3;
  }
}
