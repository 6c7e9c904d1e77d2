/**
 * CBC with PKCS#7 padding and CTR over the block cipher
 * (bsd/crypto/crypto_cipher.cpp:207-323).
 */
module AesModes {
  import opened Common
  import opened Gf256
  import opened Aes
  import opened Arith

  /** A key schedule with its number of rounds. */
  datatype Key = Key(rk: seq<bv32>, nr: nat)
  {
    predicate Ok() { nr >= 1 && HasRound(rk, nr) }
  }


  function XorBlock(a: Block, b: Block): Block { seq(16, i requires 0 <= i < 16 => Xor(a[i], b[i])) }

  lemma XorBlockTwice(a: Block, b: Block)
    ensures XorBlock(XorBlock(a, b), b) == a
  {
    hide Xor;
    forall i | 0 <= i < 16 ensures XorBlock(XorBlock(a, b), b)[i] == a[i] {
      XorTwice(a[i], b[i]);
    }
  }

  // ------------------------------------------------------------------------ CBC

  lemma Whole(n: nat)
    requires n >= 16 && n % 16 == 0
    ensures (n - 16) % 16 == 0
  {}

  function Chain(key: Key, prev: Block, p: seq<bv8>): seq<bv8>
    requires key.Ok() && |p| % 16 == 0
    decreases |p|
  {
    if |p| < 16 then []
    else
      Whole(|p|);
      var c := Encrypt(key.rk, key.nr, XorBlock(p[..16], prev));
      c + Chain(key, c, p[16..])
  }

  function Unchain(key: Key, prev: Block, c: seq<bv8>): seq<bv8>
    requires key.Ok() && |c| % 16 == 0
    decreases |c|
  {
    if |c| < 16 then []
    else
      Whole(|c|);
      XorBlock(Decrypt(key.rk, key.nr, c[..16]), prev) + Unchain(key, c[..16], c[16..])
  }

  lemma {:induction false} UnchainChain(key: Key, prev: Block, p: seq<bv8>)
    requires key.Ok() && |p| % 16 == 0
    ensures |Chain(key, prev, p)| == |p| && Unchain(key, prev, Chain(key, prev, p)) == p
    decreases |p|
  {
    hide Encrypt, Decrypt, XorBlock;
    if |p| >= 16 {
      var x := XorBlock(p[..16], prev);
      var c := Encrypt(key.rk, key.nr, x);
      UnchainChain(key, c, p[16..]);
      DecryptEncrypt(key.rk, key.nr, x);
      XorBlockTwice(p[..16], prev);
      var all := Chain(key, prev, p);
      assert all[..16] == c && all[16..] == Chain(key, c, p[16..]);
      assert p == p[..16] + p[16..];
    }
  }

  /** `pad_val`, as a number and as a byte. */
  function PadCount(n: nat): (k: nat)
    ensures 1 <= k <= 16 && (n + k) % 16 == 0
  {
    16 - n % 16
  }

  function Padding(k: nat): seq<bv8>
    requires 1 <= k <= 16
  {
    seq(k, _ => k as bv8)
  }

  function Padded(p: seq<bv8>): seq<bv8> { p + Padding(PadCount(|p|)) }

  /** The end of aes_decrypt: a last byte between 1 and 16 is taken as padding. */
  function Unpadded(d: seq<bv8>): seq<bv8>
    requires |d| >= 16
  {
    var v := d[|d| - 1] as int;
    if 0 < v <= 16 then d[..|d| - v] else d
  }

  lemma PadByte(k: nat)
    requires 1 <= k <= 16
    ensures (k as bv8) as int == k
  {}

  lemma UnpaddedPadded(p: seq<bv8>)
    ensures |Padded(p)| >= 16 && Unpadded(Padded(p)) == p
  {
    var k := PadCount(|p|);
    PadByte(k);
    assert Padded(p)[|Padded(p)| - 1] == k as bv8;
  }

  /** aes_encrypt and aes_decrypt in CBC mode, as functions of the whole message. */
  function CbcEncrypt(key: Key, iv: Block, p: seq<bv8>): seq<bv8>
    requires key.Ok()
  {
    Chain(key, iv, Padded(p))
  }

  function CbcDecrypt(key: Key, iv: Block, c: seq<bv8>): seq<bv8>
    requires key.Ok()
  {
    if |c| == 0 || |c| % 16 != 0 then [] else
    var d := Unchain(key, iv, c);
    if |d| >= 16 then Unpadded(d) else d
  }

  /** Every message comes back, with its length. */
  lemma CbcRoundTrip(key: Key, iv: Block, p: seq<bv8>)
    requires key.Ok()
    ensures |CbcEncrypt(key, iv, p)| == |p| + PadCount(|p|)
    ensures CbcDecrypt(key, iv, CbcEncrypt(key, iv, p)) == p
  {
    hide Chain, Unchain, Unpadded;
    UnchainChain(key, iv, Padded(p));
    UnpaddedPadded(p);
  }

  /** aes_ciphertext_len, with its 32-bit wrap. */
  function CiphertextLen(n: nat): nat { ((n / 16 + 1) * 16) % TWO32 }

  /** The length reported is the length written exactly below the wrap. */
  lemma CiphertextLenExact(n: nat)
    requires n < TWO32
    ensures CiphertextLen(n) == n + PadCount(n) <==> n < TWO32 - 16
  {
    assert n == 16 * (n / 16) + n % 16;
  }

  lemma CiphertextLenWraps()
    ensures CiphertextLen(TWO32 - 16) == 0
  {}

  // ------------------------------------------------------------------------ CTR

  /** The counter step: from the last byte up, until a byte does not wrap to zero. */
  function Inc(c: seq<bv8>): (r: seq<bv8>)
    ensures |r| == |c|
  {
    if c == [] then []
    else
      var n := |c| - 1;
      if c[n] == 0xff then Inc(c[..n]) + [0] else c[..n] + [c[n] + 1]
  }

  /** Big-endian value. */
  function Value(c: seq<bv8>): nat {
    if c == [] then 0 else 256 * Value(c[..|c| - 1]) + c[|c| - 1] as int
  }

  lemma ByteStep(b: bv8)
    ensures if b == 0xff then b as int == 255 else (b + 1) as int == b as int + 1
    ensures 0 <= b as int < 256 && (0 as bv8) as int == 0
  {}

  lemma {:induction false} ValueBound(c: seq<bv8>)
    ensures Value(c) < Pow256(|c|)
  {
    if c != [] {
      ByteStep(c[|c| - 1]);
      ValueBound(c[..|c| - 1]);
    }
  }

  /** The last byte steps, and carries into the one before it exactly from 0xff. */
  lemma IncBytes(c: seq<bv8>, b: bv8)
    ensures Inc(c + [b]) == if b == 0xff then Inc(c) + [0x00] else c + [b + 0x01]
  {
    assert (c + [b])[..|c|] == c;
  }

  /** The step adds one modulo the counter's size. */
  lemma {:induction false} IncAddsOne(c: seq<bv8>)
    ensures Value(Inc(c)) == if Value(c) + 1 < Pow256(|c|) then Value(c) + 1 else 0
  {
    ValueBound(c);
    if c != [] {
      var n := |c| - 1;
      ByteStep(c[n]);
      ValueBound(c[..n]);
      if c[n] == 0xff {
        IncAddsOne(c[..n]);
        ValueLast(Inc(c[..n]), 0);
      } else {
        ValueLast(c[..n], c[n] + 1);
      }
    }
  }

  lemma ValueLast(c: seq<bv8>, b: bv8)
    ensures Value(c + [b]) == 256 * Value(c) + b as int
  {
    assert (c + [b])[..|c|] == c;
  }

  function Counter(iv: seq<bv8>, k: nat): (r: seq<bv8>)
    ensures |r| == |iv|
  {
    if k == 0 then iv else Inc(Counter(iv, k - 1))
  }

  lemma PowPositive(n: nat)
    ensures Pow256(n) > 0
  {}

  /** Counter block `k` is the initial value plus k, modulo the counter's size. */
  lemma {:induction false} CounterValue(iv: seq<bv8>, k: nat)
    ensures Pow256(|iv|) > 0
    ensures Value(Counter(iv, k)) == (Value(iv) + k) % Pow256(|iv|)
  {
    hide Value, Inc, Pow256;
    var m := Pow256(|iv|);
    PowPositive(|iv|);
    if k == 0 {
      ValueBound(iv);
      ModUnique(Value(iv), m, 0, Value(iv));
    } else {
      CounterValue(iv, k - 1);
      IncAddsOne(Counter(iv, k - 1));
      ModStep(Value(iv) + k - 1, m);
    }
  }

  function XorWith(a: seq<bv8>, ks: Block): (r: seq<bv8>)
    requires |a| <= 16
    ensures |r| == |a|
  {
    seq(|a|, i requires 0 <= i < |a| => Xor(a[i], ks[i]))
  }

  function Chunk(n: nat): (k: nat)
    ensures k <= 16 && k <= n && (n > 0 ==> k > 0)
  {
    if n > 16 then 16 else n
  }

  /** aes_encrypt in CTR mode from counter `c` on. */
  function Ctr(key: Key, c: Block, p: seq<bv8>): (r: seq<bv8>)
    requires key.Ok()
    ensures |r| == |p|
    decreases |p|
  {
    if p == [] then []
    else
      var k := Chunk(|p|);
      XorWith(p[..k], Encrypt(key.rk, key.nr, c)) + Ctr(key, Inc(c), p[k..])
  }

  /** The same call a second time restores the message. */
  lemma {:induction false} CtrTwice(key: Key, c: Block, p: seq<bv8>)
    requires key.Ok()
    ensures Ctr(key, c, Ctr(key, c, p)) == p
    decreases |p|
  {
    hide Encrypt, Inc, XorWith;
    if p != [] {
      var k := Chunk(|p|);
      var ks := Encrypt(key.rk, key.nr, c);
      var r := Ctr(key, c, p);
      assert r[..k] == XorWith(p[..k], ks) && r[k..] == Ctr(key, Inc(c), p[k..]);
      XorWithTwice(p[..k], ks);
      CtrTwice(key, Inc(c), p[k..]);
      assert p == p[..k] + p[k..];
    }
  }

  lemma XorWithTwice(a: seq<bv8>, ks: Block)
    requires |a| <= 16
    ensures XorWith(XorWith(a, ks), ks) == a
  {
    hide Xor;
    forall i | 0 <= i < |a| ensures XorWith(XorWith(a, ks), ks)[i] == a[i] {
      XorTwice(a[i], ks[i]);
    }
  }

  lemma {:induction false} CounterShift(c: seq<bv8>, k: nat)
    ensures Counter(Inc(c), k) == Counter(c, k + 1)
  {
    hide Inc;
    if k > 0 {
      CounterShift(c, k - 1);
    }
  }

  /** Byte `16 * b + i` is masked with byte `i` of the encryption of counter block `b`. */
  lemma {:induction false} CtrByte(key: Key, iv: Block, p: seq<bv8>, b: nat, i: nat)
    requires key.Ok() && i < 16 && 16 * b + i < |p|
    ensures Ctr(key, iv, p)[16 * b + i] == p[16 * b + i] ^ Encrypt(key.rk, key.nr, Counter(iv, b))[i]
    decreases b
  {
    hide Encrypt, Inc, Ctr;
    CtrStep(key, iv, p);
    var k := Chunk(|p|);
    var first := XorWith(p[..k], Encrypt(key.rk, key.nr, iv));
    if b == 0 {
      assert Ctr(key, iv, p)[i] == first[i];
    } else {
      var j := 16 * (b - 1) + i;
      assert Ctr(key, iv, p)[16 * b + i] == Ctr(key, Inc(iv), p[16..])[j] && p[16 * b + i] == p[16..][j];
      CtrByte(key, Inc(iv), p[16..], b - 1, i);
      CounterShift(iv, b - 1);
    }
  }

  /** No counter block repeats before the counter has gone all the way round. */
  lemma CountersDistinct(iv: seq<bv8>, i: nat, j: nat)
    requires i < j < i + Pow256(|iv|)
    ensures Counter(iv, i) != Counter(iv, j)
  {
    hide Value, Pow256, Counter;
    var m, v := Pow256(|iv|), Value(iv);
    CounterValue(iv, i);
    CounterValue(iv, j);
    ModDiffers(v + i, v + j, m);
  }

  /** aes_decrypt in CTR mode refuses lengths that are not whole blocks. */
  function CtrDecrypt(key: Key, iv: Block, c: seq<bv8>): seq<bv8>
    requires key.Ok()
  {
    if |c| == 0 || |c| % 16 != 0 then [] else Ctr(key, iv, c)
  }

  /** So, unlike in CBC mode, it undoes aes_encrypt exactly on whole blocks. */
  lemma CtrDecryptExact(key: Key, iv: Block, p: seq<bv8>)
    requires key.Ok()
    ensures CtrDecrypt(key, iv, Ctr(key, iv, p)) == p <==> |p| % 16 == 0
  {
    hide Ctr;
    CtrTwice(key, iv, p);
  }

  /** A message of one byte is lost. */
  lemma CtrDecryptDrops(key: Key, iv: Block, b: bv8)
    requires key.Ok()
    ensures CtrDecrypt(key, iv, Ctr(key, iv, [b])) == [] != [b]
  {
    hide Ctr;
  }

  // ----------------------------------------------------------- the code, in place

  /** One turn of the carry. */
  lemma IncLast(c: seq<bv8>, n: nat, rest: seq<bv8>)
    requires n < |c|
    ensures if c[n] == 0xff then Inc(c[..n + 1]) + rest == Inc(c[..n]) + ([0] + rest)
            else Inc(c[..n + 1]) + rest == c[..n] + [c[n] + 1] + rest
  {
    assert c[..n + 1][..n] == c[..n];
  }

  lemma Carry(x: bv8)
    ensures x + 1 == 0 <==> x == 0xff
  {}

  /** What one turn of the carry at byte `i` leaves, once the bytes after it are done. */
  lemma IncTurn(was: seq<bv8>, c: seq<bv8>, i: nat)
    requires i < |was| == |c| && c[..i + 1] == was[..i + 1] && Inc(was[..i + 1]) + c[i + 1..] == Inc(was)
    ensures var c' := c[i := c[i] + 1];
            && c'[..i] == was[..i]
            && if c'[i] != 0 then c' == Inc(was) else Inc(was[..i]) + c'[i..] == Inc(was)
  {
    hide Inc;
    var rest := c[i + 1..];
    assert c[i] == c[..i + 1][i] == was[i];
    IncLast(was, i, rest);
    Carry(was[i]);
    var c' := c[i := c[i] + 1];
    assert c'[..i] == c[..i + 1][..i] == was[..i] && c'[i..] == [c[i] + 1] + rest;
    assert c' == c'[..i] + [c[i] + 1] + rest;
  }

  method IncInPlace(c: array<bv8>)
    modifies c
    ensures c[..] == Inc(old(c[..]))
  {
    hide Inc;
    ghost var was := c[..];
    var i := c.Length - 1;
    assert was[..i + 1] == was && c[i + 1..] == [] && Inc(was) + [] == Inc(was);
    while i >= 0
      invariant -1 <= i < c.Length
      invariant c[..i + 1] == was[..i + 1]
      invariant Inc(was[..i + 1]) + c[i + 1..] == Inc(was)
    {
      ghost var before := c[..];
      IncTurn(was, before, i);
      c[i] := c[i] + 1;
      assert c[..] == before[i := before[i] + 1];
      if c[i] != 0 {
        return;
      }
      i := i - 1;
    }
    EmptyInc();
    assert was[..0] == [] && [] + c[..] == c[..] && c[0..] == c[..];
  }

  lemma EmptyInc()
    ensures Inc([]) == []
  {}

  /** `n` bytes of `b` into `out` from `off` on. */
  method Write(out: array<bv8>, off: nat, b: seq<bv8>)
    requires off + |b| <= out.Length
    modifies out
    ensures out[..off] == old(out[..off]) && out[off..off + |b|] == b && out[off + |b|..] == old(out[off + |b|..])
  {
    var i := 0;
    while i < |b|
      invariant 0 <= i <= |b|
      invariant forall j :: 0 <= j < i ==> out[off + j] == b[j]
      invariant forall j :: 0 <= j < out.Length && !(off <= j < off + i) ==> out[j] == old(out[j])
    {
      out[off + i] := b[i];
      i := i + 1;
    }
  }

  /** The last block of CBC: the tail of the message and its padding. */
  method LastBlock(tail: seq<bv8>) returns (b: seq<bv8>)
    requires |tail| < 16
    ensures b == tail + Padding(16 - |tail|)
  {
    var a := new bv8[16](_ => 0);
    Write(a, 0, tail);
    var pad := 16 - |tail|;
    var i := 0;
    while i < pad
      invariant 0 <= i <= pad && a[..|tail|] == tail
      invariant forall j :: |tail| <= j < |tail| + i ==> a[j] == pad as bv8
    {
      a[|tail| + i] := pad as bv8;
      i := i + 1;
    }
    b := a[..];
    assert b == tail + b[|tail|..] && b[|tail|..] == Padding(pad);
  }

  lemma Offsets(n: nat, off: nat)
    requires n % 16 == 0 && off % 16 == 0 && off <= n
    ensures (n - off) % 16 == 0 && (off + 16) % 16 == 0 && (off < n ==> off + 16 <= n)
  {}

  /** What one block adds to the output. */
  lemma ChainStep(key: Key, prev: Block, p: seq<bv8>) returns (c: Block)
    requires key.Ok() && |p| >= 16 && |p| % 16 == 0
    ensures |p[16..]| % 16 == 0 && Chain(key, prev, p) == c + Chain(key, c, p[16..])
    ensures c == Encrypt(key.rk, key.nr, XorBlock(p[..16], prev))
  {
    hide Encrypt, XorBlock;
    Whole(|p|);
    c := Encrypt(key.rk, key.nr, XorBlock(p[..16], prev));
  }

  /** Moving the next block of a padded message to what is done. */
  lemma ChainMove(key: Key, prev: Block, done: seq<bv8>, w: seq<bv8>, off: nat)
    requires key.Ok() && |w| % 16 == 0 && off % 16 == 0 && off < |w|
    ensures off + 16 <= |w| && (off + 16) % 16 == 0 && (|w| - off) % 16 == 0 && (|w| - (off + 16)) % 16 == 0
    ensures var c := Encrypt(key.rk, key.nr, XorBlock(w[off..off + 16], prev));
            done + c + Chain(key, c, w[off + 16..]) == done + Chain(key, prev, w[off..])
  {
    hide Encrypt, XorBlock, Chain;
    Offsets(|w|, off);
    Offsets(|w|, off + 16);
    var c := ChainStep(key, prev, w[off..]);
    assert w[off..][..16] == w[off..off + 16] && w[off..][16..] == w[off + 16..];
    assert (done + c) + Chain(key, c, w[off + 16..]) == done + (c + Chain(key, c, w[off + 16..]));
  }

  /** One block of CBC encryption into the output. */
  method ChainBlock(key: Key, prev: Block, x: Block, out: array<bv8>, off: nat) returns (c: seq<bv8>)
    requires key.Ok() && off + 16 <= out.Length
    modifies out
    ensures |c| == 16 && c == Encrypt(key.rk, key.nr, XorBlock(x, prev))
    ensures out[..off + 16] == old(out[..off]) + c && out[off + 16..] == old(out[off + 16..])
  {
    hide Encrypt, XorBlock;
    c := BlockEncrypt(key.rk, key.nr, XorBlock(x, prev));
    Write(out, off, c);
    assert out[..off + 16] == out[..off] + out[off..off + 16];
  }

  /** aes_encrypt in CBC mode. */
  method CbcEncryptInto(key: Key, iv: Block, input: seq<bv8>, out: array<bv8>, outMax: nat) returns (n: nat)
    requires key.Ok() && |input| < TWO32 - 16 && outMax <= out.Length
    modifies out
    ensures outMax < |input| + PadCount(|input|) ==> n == 0 && out[..] == old(out[..])
    ensures outMax >= |input| + PadCount(|input|) ==>
              n <= out.Length && out[..n] == CbcEncrypt(key, iv, input) && out[n..] == old(out[n..])
  {
    hide Encrypt, XorBlock, Chain, CiphertextLen;
    CiphertextLenExact(|input|);
    n := CiphertextLen(|input|);
    if outMax < n {
      return 0;
    }
    ghost var w := Padded(input);
    var prev, off := iv, 0;
    assert w[0..] == w && out[..0] == [];
    while off + 16 <= |input|
      invariant off <= |input| && off % 16 == 0 && |prev| == 16 && (n - off) % 16 == 0
      invariant out[..off] + Chain(key, prev, w[off..]) == CbcEncrypt(key, iv, input)
      invariant out[n..] == old(out[n..])
    {
      ghost var before := out[..];
      ChainMove(key, prev, out[..off], w, off);
      assert w[off..off + 16] == input[off..off + 16];
      prev := ChainBlock(key, prev, input[off..off + 16], out, off);
      TailKept(before, out[..], off + 16, n);
      off := off + 16;
    }
    var b := LastBlock(input[off..]);
    LastOffset(|input|, off);
    assert w[off..] == b;
    assert b[..16] == b && b[16..] == [];
    ghost var before := out[..];
    ghost var c := ChainStep(key, prev, b);
    ChainEmpty(key);
    prev := ChainBlock(key, prev, b, out, off);
    TailKept(before, out[..], off + 16, n);
    assert prev + [] == prev;
  }

  lemma TailKept(a: seq<bv8>, b: seq<bv8>, k: nat, n: nat)
    requires k <= n <= |a| == |b| && a[k..] == b[k..]
    ensures a[n..] == b[n..]
  {
    assert a[n..] == a[k..][n - k..];
  }

  lemma LastOffset(n: nat, off: nat)
    requires off <= n < off + 16 && off % 16 == 0
    ensures n + PadCount(n) == off + 16 && PadCount(n) == 16 - (n - off)
  {}

  lemma ChainEmpty(key: Key)
    requires key.Ok()
    ensures forall prev: Block :: Chain(key, prev, []) == []
  {}

  lemma UnchainStep(key: Key, prev: Block, c: seq<bv8>) returns (d: Block)
    requires key.Ok() && |c| >= 16 && |c| % 16 == 0
    ensures |c[16..]| % 16 == 0 && Unchain(key, prev, c) == d + Unchain(key, c[..16], c[16..])
    ensures d == XorBlock(Decrypt(key.rk, key.nr, c[..16]), prev)
  {
    hide Decrypt, XorBlock;
    Whole(|c|);
    d := XorBlock(Decrypt(key.rk, key.nr, c[..16]), prev);
  }

  /** One block of CBC decryption into the output. */
  method UnchainBlock(key: Key, prev: Block, x: Block, out: array<bv8>, off: nat) returns (ghost d: seq<bv8>)
    requires key.Ok() && off + 16 <= out.Length
    modifies out
    ensures |d| == 16 && d == XorBlock(Decrypt(key.rk, key.nr, x), prev)
    ensures out[..off + 16] == old(out[..off]) + d && out[off + 16..] == old(out[off + 16..])
  {
    hide Decrypt, XorBlock;
    var plain := BlockDecrypt(key.rk, key.nr, x);
    var b := XorBlock(plain, prev);
    Write(out, off, b);
    d := b;
    assert out[..off + 16] == out[..off] + out[off..off + 16];
  }

  /** The block loop of CBC decryption. */
  method UnchainAll(key: Key, iv: Block, input: seq<bv8>, out: array<bv8>)
    requires key.Ok() && |input| % 16 == 0 && |input| <= out.Length
    modifies out
    ensures out[..|input|] == Unchain(key, iv, input) && out[|input|..] == old(out[|input|..])
  {
    hide Decrypt, XorBlock, Unchain;
    var prev, off := iv, 0;
    assert input[0..] == input && out[..0] == [];
    while off < |input|
      invariant off <= |input| && off % 16 == 0 && |prev| == 16 && (|input| - off) % 16 == 0
      invariant out[..off] + Unchain(key, prev, input[off..]) == Unchain(key, iv, input)
      invariant out[|input|..] == old(out[|input|..])
    {
      Offsets(|input|, off);
      ghost var done := out[..off];
      Offsets(|input|, off + 16);
      ghost var d := UnchainStep(key, prev, input[off..]);
      assert input[off..][..16] == input[off..off + 16] && input[off..][16..] == input[off + 16..];
      ghost var d' := UnchainBlock(key, prev, input[off..off + 16], out, off);
      prev := input[off..off + 16];
      assert (done + d) + Unchain(key, prev, input[off + 16..]) == done + (d + Unchain(key, prev, input[off + 16..]));
      off := off + 16;
    }
    UnchainEmpty(key, prev);
    assert input[off..] == [] && out[..off] + [] == out[..off];
  }

  /** aes_decrypt in CBC mode; the caller's buffer must hold the padded text. */
  method CbcDecryptInto(key: Key, iv: Block, input: seq<bv8>, out: array<bv8>) returns (n: nat)
    requires key.Ok() && |input| < TWO32 && |input| <= out.Length
    modifies out
    ensures n <= |input| && out[..n] == CbcDecrypt(key, iv, input) && out[|input|..] == old(out[|input|..])
  {
    hide Unchain;
    if |input| == 0 || |input| % 16 != 0 {
      return 0;
    }
    UnchainAll(key, iv, input, out);
    Offsets(|input|, 0);
    var off := |input|;
    var v := out[off - 1] as int;
    n := if 0 < v <= 16 then off - v else off;
    assert out[..off][..n] == out[..n];
  }

  lemma UnchainEmpty(key: Key, prev: Block)
    requires key.Ok()
    ensures Unchain(key, prev, []) == []
  {}

  lemma CtrStep(key: Key, c: Block, p: seq<bv8>)
    requires key.Ok() && p != []
    ensures var k := Chunk(|p|);
            Ctr(key, c, p) == XorWith(p[..k], Encrypt(key.rk, key.nr, c)) + Ctr(key, Inc(c), p[k..])
  {
    hide Encrypt, Inc, XorWith;
  }

  /** Moving the next chunk of a message to what is done. */
  lemma CtrMove(key: Key, c: Block, done: seq<bv8>, p: seq<bv8>, off: nat, k: nat)
    requires key.Ok() && off < |p| && k == Chunk(|p| - off)
    ensures done + XorWith(p[off..off + k], Encrypt(key.rk, key.nr, c)) + Ctr(key, Inc(c), p[off + k..])
         == done + Ctr(key, c, p[off..])
  {
    hide Encrypt, Inc, XorWith, Ctr, Chunk;
    var rest := p[off..];
    CtrStep(key, c, rest);
    assert rest[..k] == p[off..off + k] && rest[k..] == p[off + k..];
    var first, last := XorWith(rest[..k], Encrypt(key.rk, key.nr, c)), Ctr(key, Inc(c), rest[k..]);
    assert (done + first) + last == done + (first + last);
  }

  lemma CtrEmpty(key: Key, c: Block)
    requires key.Ok()
    ensures Ctr(key, c, []) == []
  {}

  /** One turn of the CTR loop. */
  method CtrBlock(key: Key, counter: array<bv8>, p: seq<bv8>, out: array<bv8>, off: nat)
    requires key.Ok() && counter.Length == 16 && counter != out && |p| <= 16 && off + |p| <= out.Length
    modifies counter, out
    ensures counter[..] == Inc(old(counter[..]))
    ensures out[..off + |p|] == old(out[..off]) + XorWith(p, Encrypt(key.rk, key.nr, old(counter[..])))
    ensures out[off + |p|..] == old(out[off + |p|..])
  {
    hide Encrypt, Inc, XorWith;
    var ks := BlockEncrypt(key.rk, key.nr, counter[..]);
    Write(out, off, XorWith(p, ks));
    assert out[..off + |p|] == out[..off] + out[off..off + |p|];
    IncInPlace(counter);
  }

  /** The block loop of CTR mode. */
  method CtrAll(key: Key, iv: Block, input: seq<bv8>, out: array<bv8>)
    requires key.Ok() && |input| <= out.Length
    modifies out
    ensures out[..|input|] == Ctr(key, iv, input) && out[|input|..] == old(out[|input|..])
  {
    hide Encrypt, Inc, XorWith, Ctr;
    var counter := new bv8[16](i requires 0 <= i < 16 => iv[i]);
    assert counter[..] == iv;
    var off := 0;
    assert input[0..] == input && out[..0] == [];
    while off < |input|
      invariant 0 <= off <= |input|
      invariant out[..off] + Ctr(key, counter[..], input[off..]) == Ctr(key, iv, input)
      invariant out[|input|..] == old(out[|input|..])
    {
      ghost var before := out[..];
      var k := Chunk(|input| - off);
      CtrMove(key, counter[..], out[..off], input, off, k);
      CtrBlock(key, counter, input[off..off + k], out, off);
      TailKept(before, out[..], off + k, |input|);
      off := off + k;
    }
    CtrEmpty(key, counter[..]);
    assert input[off..] == [] && out[..off] + [] == out[..off];
  }

  /**
   * aes_encrypt in CTR mode; it asks for room for the padding it does not
   * write, and for none when that length wraps to 0.
   */
  method CtrInto(key: Key, iv: Block, input: seq<bv8>, out: array<bv8>, outMax: nat) returns (n: nat)
    requires key.Ok() && |input| < TWO32 && outMax <= out.Length
    requires |input| >= TWO32 - 16 ==> |input| <= out.Length
    modifies out
    ensures outMax < CiphertextLen(|input|) ==> n == 0 && out[..] == old(out[..])
    ensures outMax >= CiphertextLen(|input|) ==>
              n == |input| <= out.Length && out[..n] == Ctr(key, iv, input) && out[n..] == old(out[n..])
  {
    hide CiphertextLen, Ctr;
    CiphertextLenExact(|input|);
    if outMax < CiphertextLen(|input|) {
      return 0;
    }
    n := |input|;
    CtrAll(key, iv, input, out);
  }
}
