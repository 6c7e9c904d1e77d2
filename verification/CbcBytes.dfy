/**
 * CBC mode block by block (bsd/crypto/crypto_cipher.cpp:207-264, 296-323):
 * every block by its index, with the exclusive or of bytes written out.
 */
module CbcBytes {
  import opened Aes
  import opened Gf256
  import opened AesModes

  /** The sixteen bytes of `s` from `at` on, each combined with its byte of `mask`. */
  function Masked(s: seq<bv8>, at: nat, mask: Block): Block
    requires at + 16 <= |s|
  {
    seq(16, i requires 0 <= i < 16 => s[at + i] ^ mask[i])
  }

  lemma MaskedBlock(s: seq<bv8>, at: nat, mask: Block)
    requires at + 16 <= |s|
    ensures XorBlock(s[at..at + 16], mask) == Masked(s, at, mask)
  {}

  /** Block `b` of a message. */
  function BlockAt(s: seq<bv8>, b: nat): Block
    requires 16 * b + 16 <= |s|
  {
    s[16 * b..16 * b + 16]
  }

  /** What block `b` is combined with: the ciphertext block before it, or the initial vector. */
  function Before(iv: Block, c: seq<bv8>, b: nat): Block
    requires 16 * b <= |c|
  {
    if b == 0 then iv else BlockAt(c, b - 1)
  }

  lemma BlockOfRest(s: seq<bv8>, b: nat)
    requires b > 0 && 16 * b + 16 <= |s|
    ensures BlockAt(s[16..], b - 1) == BlockAt(s, b)
  {}

  lemma BeforeRest(prev: Block, c: seq<bv8>, b: nat)
    requires b > 0 && 16 * b <= |c|
    ensures Before(prev, c, b) == Before(c[..16], c[16..], b - 1)
  {}

  lemma ChainHead(key: Key, prev: Block, p: seq<bv8>) returns (first: Block)
    requires key.Ok() && |p| % 16 == 0 && |p| >= 16
    ensures |p[16..]| % 16 == 0 && |Chain(key, prev, p)| == |p|
    ensures Chain(key, prev, p)[..16] == first && Chain(key, prev, p)[16..] == Chain(key, first, p[16..])
    ensures first == Encrypt(key.rk, key.nr, Masked(p, 0, prev))
  {
    hide Encrypt, XorBlock, Masked, Chain;
    UnchainChain(key, prev, p);
    MaskedBlock(p, 0, prev);
    first := ChainStep(key, prev, p);
    assert p[0..0 + 16] == p[..16];
  }

  lemma {:induction false} ChainBlocks(key: Key, prev: Block, p: seq<bv8>, b: nat)
    requires key.Ok() && |p| % 16 == 0 && 16 * b + 16 <= |p|
    ensures |Chain(key, prev, p)| == |p|
    ensures var c := Chain(key, prev, p);
            BlockAt(c, b) == Encrypt(key.rk, key.nr, Masked(p, 16 * b, Before(prev, c, b)))
    decreases |p|
  {
    hide Encrypt, Masked, BlockAt, Chain;
    var all := Chain(key, prev, p);
    var first := ChainHead(key, prev, p);
    if b == 0 {
      FirstBlock(all);
    } else {
      hide Before;
      ChainBlocks(key, first, p[16..], b - 1);
      BlockOfRest(all, b);
      MaskedRest(p, b, Before(prev, all, b));
      BeforeRest(prev, all, b);
    }
  }

  lemma FirstBlock(s: seq<bv8>)
    requires |s| >= 16
    ensures BlockAt(s, 0) == s[..16]
  {}

  lemma MaskedRest(p: seq<bv8>, b: nat, mask: Block)
    requires b > 0 && 16 * b + 16 <= |p|
    ensures Masked(p[16..], 16 * (b - 1), mask) == Masked(p, 16 * b, mask)
  {}

  /** Every padding byte is the count. */
  lemma PaddedBytes(p: seq<bv8>, j: nat)
    ensures |Padded(p)| == |p| + 16 - |p| % 16 && Padded(p)[..|p|] == p
    ensures |p| <= j < |Padded(p)| ==> Padded(p)[j] as nat == 16 - |p| % 16
  {
    PadByte(PadCount(|p|));
  }

  /** Ciphertext block `b` encrypts block `b` of the padded message, masked with the ciphertext block before it. */
  lemma CbcBlock(key: Key, iv: Block, p: seq<bv8>, b: nat)
    requires key.Ok() && 16 * b <= |p|
    ensures |CbcEncrypt(key, iv, p)| == |Padded(p)| && 16 * b + 16 <= |Padded(p)|
    ensures var c := CbcEncrypt(key, iv, p);
            BlockAt(c, b) == Encrypt(key.rk, key.nr, Masked(Padded(p), 16 * b, Before(iv, c, b)))
  {
    hide Chain, Masked, BlockAt, Encrypt;
    PaddedBytes(p, 0);
    WholeBlocks(|p|, b);
    ChainBlocks(key, iv, Padded(p), b);
  }

  lemma WholeBlocks(n: nat, b: nat)
    requires 16 * b <= n
    ensures 16 * b + 16 <= n + 16 - n % 16
  {}

  lemma {:induction false} UnchainBlocks(key: Key, prev: Block, c: seq<bv8>, b: nat)
    requires key.Ok() && |c| % 16 == 0 && 16 * b + 16 <= |c|
    ensures |Unchain(key, prev, c)| == |c|
    ensures BlockAt(Unchain(key, prev, c), b) ==
            Masked(Decrypt(key.rk, key.nr, BlockAt(c, b)), 0, Before(prev, c, b))
    decreases |c|
  {
    hide Decrypt, XorBlock, Masked, BlockAt;
    UnchainLength(key, prev, c);
    var all, d := Unchain(key, prev, c), Decrypt(key.rk, key.nr, c[..16]);
    MaskedBlock(d, 0, prev);
    assert d[0..0 + 16] == d;
    assert all[..16] == XorBlock(d, prev) && all[16..] == Unchain(key, c[..16], c[16..]);
    FirstBlock(c);
    if b == 0 {
      FirstBlock(all);
    } else {
      UnchainBlocks(key, c[..16], c[16..], b - 1);
      BlockOfRest(all, b);
      BlockOfRest(c, b);
      BeforeRest(prev, c, b);
    }
  }

  lemma {:induction false} UnchainLength(key: Key, prev: Block, c: seq<bv8>)
    requires key.Ok() && |c| % 16 == 0
    ensures |Unchain(key, prev, c)| == |c|
    decreases |c|
  {
    hide Decrypt, XorBlock;
    if |c| >= 16 {
      UnchainLength(key, c[..16], c[16..]);
    }
  }

  /** Block `b` of what aes_decrypt works on: the decrypted block, masked with the ciphertext block before it. */
  function Opened(key: Key, iv: Block, c: seq<bv8>, b: nat): Block
    requires key.Ok() && 16 * b + 16 <= |c|
  {
    Masked(Decrypt(key.rk, key.nr, BlockAt(c, b)), 0, Before(iv, c, b))
  }

  /** The decrypted message: how many bytes it has, and each of them. */
  lemma CbcDecryptByte(key: Key, iv: Block, c: seq<bv8>, b: nat, i: nat)
    requires key.Ok() && |c| % 16 == 0 && 16 * b + 16 <= |c| && i < 16
    ensures var d, last := CbcDecrypt(key, iv, c), Opened(key, iv, c, |c| / 16 - 1)[15] as nat;
            && |d| == (if 1 <= last <= 16 then |c| - last else |c|)
            && (16 * b + i < |d| ==> d[16 * b + i] == Opened(key, iv, c, b)[i])
  {
    hide Unchain, Masked, Decrypt, BlockAt;
    UnchainLength(key, iv, c);
    var d, n := Unchain(key, iv, c), |c| / 16 - 1;
    UnchainBlocks(key, iv, c, b);
    UnchainBlocks(key, iv, c, n);
    BlockByte(d, b, i);
    BlockByte(d, n, 15);
  }

  lemma BlockByte(s: seq<bv8>, b: nat, i: nat)
    requires 16 * b + 16 <= |s| && i < 16
    ensures BlockAt(s, b)[i] == s[16 * b + i]
  {}

  /** The first ciphertext block tells initial vectors apart. */
  lemma FirstBlockVector(key: Key, iv: Block, iv': Block, p: seq<bv8>)
    requires key.Ok()
    ensures |CbcEncrypt(key, iv, p)| >= 16 && |CbcEncrypt(key, iv', p)| >= 16
    ensures CbcEncrypt(key, iv, p)[..16] == CbcEncrypt(key, iv', p)[..16] <==> iv == iv'
  {
    hide Encrypt, Decrypt, Masked, BlockAt, CbcEncrypt, Padded;
    CbcBlock(key, iv, p, 0);
    CbcBlock(key, iv', p, 0);
    FirstBlock(CbcEncrypt(key, iv, p));
    FirstBlock(CbcEncrypt(key, iv', p));
    var x, x' := Masked(Padded(p), 0, iv), Masked(Padded(p), 0, iv');
    DecryptEncrypt(key.rk, key.nr, x);
    DecryptEncrypt(key.rk, key.nr, x');
    if x == x' {
      MaskedCancels(Padded(p), 0, iv, iv');
    }
  }

  lemma MaskedCancels(s: seq<bv8>, at: nat, x: Block, y: Block)
    requires at + 16 <= |s| && Masked(s, at, x) == Masked(s, at, y)
    ensures x == y
  {
    hide Masked, Xor;
    forall i: nat | i < 16 ensures x[i] == y[i] {
      MaskedByte(s, at, x, i);
      MaskedByte(s, at, y, i);
      XorCancels(s[at + i], x[i], y[i]);
    }
  }

  lemma MaskedByte(s: seq<bv8>, at: nat, mask: Block, i: nat)
    requires at + 16 <= |s| && i < 16
    ensures Masked(s, at, mask)[i] == Xor(s[at + i], mask[i])
  {}

  lemma XorCancels(a: bv8, x: bv8, y: bv8)
    requires Xor(a, x) == Xor(a, y)
    ensures x == y
  {}
}
