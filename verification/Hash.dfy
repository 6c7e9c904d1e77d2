/**
 * The block-buffered streaming hashes and HMAC (bsd/crypto/crypto_hash.cpp:79-139,
 * 215-275, 307-404).  SHA-256, MD5 and SHA-1 share this code up to the block
 * transform, the initial state, the byte order of the length field and the
 * encoding of the result, which are the fields of `Algorithm`.
 */
module Hash {
  import opened Common
  import Arith


  type State = seq<bv32>

  datatype Algorithm = Algorithm(
    init: State,
    transform: (State, seq<bv8>) -> State,
    bigEndian: bool,
    output: State -> seq<bv8>)

  // ----------------------------------------------------------- the reference form

  /** The chaining state after all whole blocks of `m`. */
  function Blocks(a: Algorithm, s: State, m: seq<bv8>): State
    decreases |m|
  {
    if |m| < 64 then s else Blocks(a, a.transform(s, m[..64]), m[64..])
  }

  /** What is left of `m` after its whole blocks. */
  function Rest(m: seq<bv8>): (r: seq<bv8>)
    ensures |r| < 64 && |r| <= |m|
    decreases |m|
  {
    if |m| < 64 then m else Rest(m[64..])
  }

  /** A context: chaining state, byte count, buffered bytes. */
  datatype Context = Context(state: State, total: nat, pending: seq<bv8>)

  function Absorb(a: Algorithm, c: Context, data: seq<bv8>): Context {
    var m := c.pending + data;
    Context(Blocks(a, c.state, m), (c.total + |data|) % TWO64, Rest(m))
  }

  lemma {:induction false} BlocksConcat(a: Algorithm, s: State, x: seq<bv8>, y: seq<bv8>)
    ensures Blocks(a, s, x + y) == Blocks(a, Blocks(a, s, x), Rest(x) + y)
    ensures Rest(x + y) == Rest(Rest(x) + y)
    decreases |x|
  {
    if |x| >= 64 {
      assert (x + y)[..64] == x[..64] && (x + y)[64..] == x[64..] + y;
      BlocksConcat(a, a.transform(s, x[..64]), x[64..], y);
    }
  }

  /** Two updates are one update with the concatenation. */
  lemma AbsorbTwice(a: Algorithm, c: Context, x: seq<bv8>, y: seq<bv8>)
    ensures Absorb(a, Absorb(a, c, x), y) == Absorb(a, c, x + y)
  {
    hide Blocks, Rest;
    BlocksConcat(a, c.state, c.pending + x, y);
    assert (c.pending + x) + y == c.pending + (x + y);
    Arith.ModAdd(c.total + |x|, |y|, TWO64);
  }

  function AbsorbAll(a: Algorithm, c: Context, chunks: seq<seq<bv8>>): Context
    decreases |chunks|
  {
    if chunks == [] then c else AbsorbAll(a, Absorb(a, c, chunks[0]), chunks[1..])
  }

  function Concat(chunks: seq<seq<bv8>>): seq<bv8> {
    if chunks == [] then [] else chunks[0] + Concat(chunks[1..])
  }

  /** A context between calls: fewer than 64 buffered bytes, a 64-bit count. */
  predicate Ok(c: Context) { |c.pending| < 64 && c.total < TWO64 }

  /** However a message is cut into updates, the context is that of one update. */
  lemma {:induction false} AnySplit(a: Algorithm, c: Context, chunks: seq<seq<bv8>>)
    requires Ok(c)
    ensures AbsorbAll(a, c, chunks) == Absorb(a, c, Concat(chunks))
    decreases |chunks|
  {
    hide Blocks;
    if chunks == [] {
      assert c.pending + [] == c.pending;
      BlocksShort(a, c.state, c.pending);
    } else {
      AnySplit(a, Absorb(a, c, chunks[0]), chunks[1..]);
      AbsorbTwice(a, c, chunks[0], Concat(chunks[1..]));
    }
  }

  lemma BlocksShort(a: Algorithm, s: State, m: seq<bv8>)
    requires |m| < 64
    ensures Blocks(a, s, m) == s
  {}

  // ---------------------------------------------------------------------- padding

  /** Bytes of padding before the length field, from the buffer's fill. */
  function PadLen(fill: nat): (n: nat)
    requires fill < 64
    ensures 1 <= n <= 64 && (fill + n + 8) % 64 == 0
  {
    if fill < 56 then 56 - fill else 120 - fill
  }

  function Zeros(n: nat): seq<bv8> { seq(n, _ => 0) }

  function PadBytes(fill: nat): (p: seq<bv8>)
    requires fill < 64
    ensures |p| == PadLen(fill)
  {
    [0x80] + Zeros(PadLen(fill) - 1)
  }

  /** The low bytes of a number, least significant first. */
  function LowBytes(v: nat, n: nat): (r: seq<bv8>)
    ensures |r| == n
  {
    if n == 0 then [] else [(v % 256) as bv8] + LowBytes(v / 256, n - 1)
  }

  function Reversed(s: seq<bv8>): (r: seq<bv8>)
    ensures |r| == |s|
  {
    if s == [] then [] else Reversed(s[1..]) + [s[0]]
  }

  function LengthField(a: Algorithm, bits: nat): (r: seq<bv8>)
    ensures |r| == 8
  {
    if a.bigEndian then Reversed(LowBytes(bits, 8)) else LowBytes(bits, 8)
  }

  /** The final function as the code runs it: the count it encodes already includes the padding. */
  function Finish(a: Algorithm, c: Context): Context
    requires Ok(c)
  {
    var d := Absorb(a, c, PadBytes(|c.pending|));
    Absorb(a, d, LengthField(a, d.total * 8 % TWO64))
  }

  /** Everything the code appends to a message of `n` bytes. */
  function Trailer(a: Algorithm, n: nat): seq<bv8> {
    var pad := PadBytes(n % 64);
    pad + LengthField(a, (n + |pad|) % TWO64 * 8 % TWO64)
  }

  function Start(a: Algorithm): Context { Context(a.init, 0, []) }

  /** The hash as a function of the whole message. */
  function H(a: Algorithm, m: seq<bv8>): seq<bv8> {
    a.output(Blocks(a, a.init, m + Trailer(a, |m|)))
  }

  lemma {:induction false} RestLength(m: seq<bv8>)
    ensures |Rest(m)| == |m| % 64
    decreases |m|
  {
    if |m| >= 64 {
      RestLength(m[64..]);
    }
  }

  /** Padding and length field always end on a block boundary. */
  lemma FinishEmpties(a: Algorithm, c: Context)
    requires Ok(c)
    ensures Finish(a, c).pending == []
  {
    hide Blocks, Rest, LengthField;
    var pad := PadBytes(|c.pending|);
    var d := Absorb(a, c, pad);
    var field := LengthField(a, d.total * 8 % TWO64);
    AbsorbTwice(a, c, pad, field);
    var m := c.pending + (pad + field);
    RestLength(m);
    assert |m| == |c.pending| + PadLen(|c.pending|) + 8;
  }

  /** Absorbing a message and finishing computes H of it. */
  lemma FinishIsHash(a: Algorithm, m: seq<bv8>)
    ensures Ok(Absorb(a, Start(a), m))
    ensures a.output(Finish(a, Absorb(a, Start(a), m)).state) == H(a, m)
  {
    hide Blocks, Rest, LengthField, PadBytes;
    var c := Absorb(a, Start(a), m);
    assert [] + m == m;
    RestLength(m);
    var pad := PadBytes(|c.pending|);
    var d := Absorb(a, c, pad);
    var field := LengthField(a, d.total * 8 % TWO64);
    AbsorbTwice(a, c, pad, field);
    AbsorbTwice(a, Start(a), m, pad + field);
    assert [] + (m + (pad + field)) == m + (pad + field);
    Arith.ModAdd(|m|, |pad|, TWO64);
  }

  /** The length field never holds the message length of FIPS 180-4 and RFC 1321. */
  lemma LengthFieldNeverStandard(n: nat)
    ensures (n + PadLen(n % 64)) % TWO64 * 8 % TWO64 != n * 8 % TWO64
  {}

  // --------------------------------------------------------- the code, in place

  class Digest {
    const algo: Algorithm
    var state: State
    var total: nat
    const buf: array<bv8>
    var bufLen: nat

    ghost predicate Valid()
      reads this
    {
      buf.Length == 64 && bufLen < 64 && total < TWO64
    }

    ghost function Value(): Context
      reads this, buf
      requires buf.Length == 64 && bufLen <= 64
    {
      Context(state, total, buf[..bufLen])
    }

    /** sha256_init, md5_init, sha1_init. */
    constructor (algo: Algorithm)
      ensures Valid() && this.algo == algo && Value() == Start(algo) && fresh(buf)
    {
      this.algo := algo;
      state, total, bufLen := algo.init, 0, 0;
      buf := new bv8[64];
    }

    method Append(data: seq<bv8>)
      requires buf.Length == 64 && bufLen + |data| <= 64
      modifies this`bufLen, buf
      ensures bufLen == old(bufLen) + |data| && buf[..bufLen] == old(buf[..bufLen]) + data
    {
      var i := 0;
      while i < |data|
        invariant 0 <= i <= |data|
        invariant bufLen == old(bufLen)
        invariant buf[..bufLen + i] == old(buf[..bufLen]) + data[..i]
      {
        buf[bufLen + i] := data[i];
        i := i + 1;
      }
      bufLen := bufLen + |data|;
    }

    /** The loop over whole blocks taken straight from the input. */
    method TakeBlocks(data: seq<bv8>) returns (rest: seq<bv8>)
      modifies this`state
      ensures state == Blocks(algo, old(state), data) && rest == Rest(data) && |rest| < 64
    {
      rest := data;
      while |rest| >= 64
        invariant Blocks(algo, state, rest) == Blocks(algo, old(state), data) && Rest(rest) == Rest(data)
      {
        state := algo.transform(state, rest[..64]);
        rest := rest[64..];
      }
    }

    /** sha256_update, md5_update, sha1_update. */
    method Update(data: seq<bv8>)
      requires Valid()
      modifies this`state, this`total, this`bufLen, buf
      ensures Valid() && Value() == Absorb(algo, old(Value()), data)
    {
      ghost var m := buf[..bufLen] + data;
      var fill := 64 - bufLen;
      total := (total + |data|) % TWO64;
      var rest := data;
      if bufLen > 0 && |rest| >= fill {
        assert m[..64] == buf[..bufLen] + rest[..fill] && m[64..] == rest[fill..];
        Append(rest[..fill]);
        assert buf[..64] == m[..64];
        state := algo.transform(state, buf[..64]);
        rest := rest[fill..];
        bufLen := 0;
      }
      assert bufLen == 0 ==> Blocks(algo, state, rest) == Blocks(algo, old(state), m) && Rest(rest) == Rest(m) by {
        assert old(bufLen) == 0 ==> m == data;
      }
      assert bufLen > 0 ==> Blocks(algo, old(state), m) == old(state) && Rest(m) == m;
      assert bufLen > 0 ==> Blocks(algo, state, rest) == state && Rest(rest) == rest;
      hide Blocks, Rest;
      rest := TakeBlocks(rest);
      if |rest| > 0 {
        Append(rest);
      }
    }

    /** sha256_final, md5_final, sha1_final. */
    method Final() returns (digest: seq<bv8>)
      requires Valid()
      modifies this`state, this`total, this`bufLen, buf
      ensures Valid() && Value() == Finish(algo, old(Value()))
      ensures digest == algo.output(Finish(algo, old(Value())).state)
    {
      hide Absorb, LengthField;
      var pad := PadBytes(bufLen);
      Update(pad);
      var field := LengthField(algo, total * 8 % TWO64);
      Update(field);
      digest := algo.output(state);
    }
  }

  /** sha256_hash and its siblings. */
  method HashOnce(algo: Algorithm, data: seq<bv8>) returns (digest: seq<bv8>)
    ensures digest == H(algo, data)
  {
    hide Absorb, Finish, H;
    var d := new Digest(algo);
    d.Update(data);
    FinishIsHash(algo, data);
    digest := d.Final();
  }

  /** Hashing a message in pieces. */
  method HashPieces(algo: Algorithm, pieces: seq<seq<bv8>>) returns (digest: seq<bv8>)
    ensures digest == H(algo, Concat(pieces))
  {
    hide Absorb, Finish, H;
    var d := new Digest(algo);
    StartOk(algo);
    var i := 0;
    while i < |pieces|
      invariant 0 <= i <= |pieces| && d.Valid() && d.algo == algo && fresh(d) && fresh(d.buf)
      invariant AbsorbAll(algo, d.Value(), pieces[i..]) == AbsorbAll(algo, Start(algo), pieces)
    {
      assert pieces[i..][1..] == pieces[i + 1..];
      d.Update(pieces[i]);
      i := i + 1;
    }
    AnySplit(algo, Start(algo), pieces);
    FinishIsHash(algo, Concat(pieces));
    digest := d.Final();
  }

  lemma StartOk(algo: Algorithm)
    ensures Ok(Start(algo))
  {}

  // ------------------------------------------------------------------------- HMAC

  function XorAll(s: seq<bv8>, b: bv8): seq<bv8> { seq(|s|, i requires 0 <= i < |s| => s[i] ^ b) }

  /** A key of one block: hashed first when longer, filled with zeros when shorter. */
  function KeyBlock(a: Algorithm, key: seq<bv8>): seq<bv8>
    requires |key| > 64 ==> |H(a, key)| <= 64
  {
    var k := if |key| > 64 then H(a, key) else key;
    k + Zeros(64 - |k|)
  }

  /** HMAC of section 2 of RFC 2104, over the hash the code computes. */
  function Hmac(a: Algorithm, key: seq<bv8>, data: seq<bv8>): seq<bv8>
    requires |key| > 64 ==> |H(a, key)| <= 64
  {
    var k := KeyBlock(a, key);
    H(a, XorAll(k, 0x5c) + H(a, XorAll(k, 0x36) + data))
  }

  /** hmac_sha256. */
  method HmacInto(algo: Algorithm, key: seq<bv8>, data: seq<bv8>) returns (mac: seq<bv8>)
    requires |key| > 64 ==> |H(algo, key)| <= 64
    ensures mac == Hmac(algo, key, data)
  {
    hide H;
    var k := key;
    if |k| > 64 {
      k := HashOnce(algo, k);
    }
    var kPad := k + Zeros(64 - |k|);
    var iPad, oPad := XorAll(kPad, 0x36), XorAll(kPad, 0x5c);
    mac := HashPieces(algo, [iPad, data]);
    Two(iPad, data);
    ghost var inner := mac;
    mac := HashPieces(algo, [oPad, mac]);
    Two(oPad, inner);
  }

  lemma Two(x: seq<bv8>, y: seq<bv8>)
    ensures Concat([x, y]) == x + y
  {
    assert [x, y][1..] == [y] && [y][1..] == [];
    assert Concat([y]) == y + [] == y;
  }
}
