/**
 * The bytes the streaming hashes append and HMAC mixes in, by index and with
 * their values (bsd/crypto/crypto_hash.cpp:112-132, 372-404; section 5.1 of
 * FIPS 180-4, section 2 of RFC 2104).
 */
module HashBytes {
  import opened Arith
  import opened Common
  import opened Hash

  /** One byte 0x80, then zeros up to eight bytes before the end of a block. */
  lemma PadByte(fill: nat, j: nat)
    requires fill < 64
    ensures 1 <= |PadBytes(fill)| <= 64 && (fill + |PadBytes(fill)|) % 64 == 56
    ensures j < |PadBytes(fill)| ==> PadBytes(fill)[j] == if j == 0 then 0x80 else 0x00
  {}

  lemma DivTwice(v: nat, p: nat)
    requires p > 0
    ensures v / 256 / p == v / (256 * p)
  {
    var q := v / 256;
    assert v == 256 * q + v % 256 && q == p * (q / p) + q % p;
    assert 256 * p * (q / p) == 256 * (p * (q / p));
    ModUnique(v, 256 * p, q / p, 256 * (q % p) + v % 256);
  }

  lemma {:induction false} PowPositive(n: nat)
    ensures Pow256(n) > 0
  {
    if n > 0 {
      PowPositive(n - 1);
    }
  }

  lemma {:induction false} LowByte(v: nat, n: nat, j: nat)
    requires j < n
    ensures Pow256(j) > 0 && LowBytes(v, n)[j] == (v / Pow256(j) % 256) as bv8
    decreases j
  {
    PowPositive(j);
    if j == 0 {
      assert v / 1 == v;
    } else {
      PowPositive(j - 1);
      LowByte(v / 256, n - 1, j - 1);
      DivTwice(v, Pow256(j - 1));
      var p := v / Pow256(j);
      assert v / 256 / Pow256(j - 1) == p;
    }
  }

  lemma {:induction false} ReversedAt(s: seq<bv8>, j: nat)
    requires j < |s|
    ensures Reversed(s)[j] == s[|s| - 1 - j]
  {
    if j < |s| - 1 {
      ReversedAt(s[1..], j);
    }
  }

  /** Byte `j` of the number, counted from the end of the field exactly for the big-endian algorithms. */
  lemma FieldByte(a: Algorithm, bits: nat, j: nat)
    requires j < 8
    ensures Pow256(j) > 0
    ensures LengthField(a, bits)[if a.bigEndian then 7 - j else j] == (bits / Pow256(j) % 256) as bv8
  {
    hide LowBytes, Reversed;
    LowByte(bits, 8, j);
    ReversedAt(LowBytes(bits, 8), 7 - j);
  }

  /**
   * A message of fewer than 56 bytes is one block: the bytes, 0x80, zeros, and
   * a length field that counts the padding too.
   */
  lemma ShortHash(a: Algorithm, m: seq<bv8>, block: seq<bv8>)
    requires |m| < 56 && |block| == 64 && block[..|m|] == m && block[|m|] == 0x80
    requires forall j :: |m| < j < 56 ==> block[j] == 0
    requires block[56..] == LengthField(a, 8 * 56)
    ensures H(a, m) == a.output(a.transform(a.init, block))
  {
    hide LengthField;
    var pad := PadBytes(|m| % 64);
    assert |pad| == 56 - |m|;
    assert m + Trailer(a, |m|) == block;
    OneBlock(a, a.init, block);
  }

  lemma OneBlock(a: Algorithm, s: State, m: seq<bv8>)
    requires |m| == 64
    ensures Blocks(a, s, m) == a.transform(s, m)
  {
    assert m[..64] == m && m[64..] == [];
  }

  /** Blocks are compressed in order: the last one last. */
  lemma {:induction false} BlocksLast(a: Algorithm, s: State, m: seq<bv8>, block: seq<bv8>)
    requires |m| % 64 == 0 && |block| == 64
    ensures Blocks(a, s, m + block) == a.transform(Blocks(a, s, m), block)
    decreases |m|
  {
    if m == [] {
      assert m + block == block;
      OneBlock(a, s, block);
    } else {
      assert (m + block)[..64] == m[..64] && (m + block)[64..] == m[64..] + block;
      BlocksLast(a, a.transform(s, m[..64]), m[64..], block);
    }
  }

  /** What stays buffered is the end of the message. */
  lemma {:induction false} RestIs(m: seq<bv8>)
    ensures Rest(m) == m[|m| - |m| % 64..]
    decreases |m|
  {
    if |m| >= 64 {
      RestIs(m[64..]);
      assert m[64..][|m| - 64 - |m| % 64..] == m[|m| - |m| % 64..];
    } else {
      assert m[0..] == m;
    }
  }

  /** What is appended to a message of `n` bytes: 0x80, zeros, and eight bytes for the bits before them. */
  lemma TrailerByte(a: Algorithm, n: nat, j: nat)
    ensures var t := Trailer(a, n); var end := |Trailer(a, n)| - 8;
            && 1 <= end <= 64 && (n + |t|) % 64 == 0
            && (j < end ==> t[j] == if j == 0 then 0x80 else 0x00)
            && t[end..] == LengthField(a, (n + end) % TWO64 * 8 % TWO64)
  {
    hide LengthField;
    var fill := n % 64;
    assert (n + (PadLen(fill) + 8)) % 64 == 0 by {
      ModUnique(n + PadLen(fill) + 8, 64, n / 64 + (fill + PadLen(fill) + 8) / 64, 0);
    }
  }

  /** HMAC with its two pads written out. */
  lemma HmacPads(a: Algorithm, key: seq<bv8>, data: seq<bv8>, inner: seq<bv8>, outer: seq<bv8>)
    requires |key| > 64 ==> |H(a, key)| <= 64
    requires |inner| == 64 && |outer| == 64
    requires var k := if |key| > 64 then H(a, key) else key;
             forall j :: 0 <= j < 64 ==>
               && inner[j] == (if j < |k| then k[j] else 0) ^ 0x36
               && outer[j] == (if j < |k| then k[j] else 0) ^ 0x5c
    ensures Hmac(a, key, data) == H(a, outer + H(a, inner + data))
  {
    hide H;
    var k := KeyBlock(a, key);
    assert XorAll(k, 0x36) == inner && XorAll(k, 0x5c) == outer;
  }
}
