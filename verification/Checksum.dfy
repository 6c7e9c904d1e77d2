/**
 * The Internet checksum and the headers that carry it
 * (iokit/IONetFamily/ipv4.c:24-55, 98-116; icmp.c:19-71; RFC 1071 section 1).
 * Memory is bytes; a 16-bit field in network order is two of them, high first.
 */
module Checksum {
  import opened Arith
  import opened Common

  const MTU: nat := 1500

  // ------------------------------------------------------------------ the checksum

  /** A 16-bit word from its bytes. */
  function Word(hi: nat, lo: nat): nat { 256 * hi + lo }

  function Hi(v: nat): Byte
    requires v < 0x1_0000
  {
    v / 256
  }

  function Lo(v: nat): Byte { v % 256 }

  lemma WordBytes(v: nat)
    requires v < 0x1_0000
    ensures Word(Hi(v), Lo(v)) == v
  {}

  /** Unsigned 32-bit arithmetic. */
  function Wrap(x: nat): (r: nat)
    ensures r < TWO32
  {
    x % TWO32
  }

  lemma WrapAdd(x: nat, y: nat)
    ensures Wrap(Wrap(x) + y) == Wrap(x + y)
  {
    ModAdd(x, y, TWO32);
  }

  lemma WrapSmall(x: nat)
    requires x < TWO32
    ensures Wrap(x) == x
  {}

  /** The big-endian 16-bit words, the last odd byte padded with zero. */
  function Sum16(p: seq<Byte>): nat
    decreases |p|
  {
    if |p| == 0 then 0
    else if |p| == 1 then Word(p[0], 0)
    else Word(p[0], p[1]) + Sum16(p[2..])
  }

  /** Ones'-complement folding: the residue modulo 65535, with 65535 for the nonzero multiples. */
  function Fold(sum: nat): (r: nat)
    ensures r < 0x1_0000
  {
    if sum == 0 then 0 else 1 + (sum - 1) % 0xffff
  }

  function Complement(sum: nat): (r: nat)
    ensures r < 0x1_0000
  {
    0xffff - Fold(sum)
  }

  /** The host value ip_checksum stores; its result is this value in network order. */
  function Check(p: seq<Byte>): (r: nat)
    ensures r < 0x1_0000
  {
    Complement(Wrap(Sum16(p)))
  }

  /** NET_HTONS. */
  function Swap16(v: nat): (r: nat)
    requires v < 0x1_0000
    ensures r < 0x1_0000 && (r == 0 <==> v == 0)
  {
    Word(Lo(v), Hi(v))
  }

  lemma FoldStep(sum: nat)
    requires sum >= 0x1_0000
    ensures Fold(sum % 0x1_0000 + sum / 0x1_0000) == Fold(sum) && sum % 0x1_0000 + sum / 0x1_0000 < sum
  {
    var hi, lo := sum / 0x1_0000, sum % 0x1_0000;
    assert sum == 0x1_0000 * hi + lo;
    var q, r := (lo + hi - 1) / 0xffff, (lo + hi - 1) % 0xffff;
    ModUnique(sum - 1, 0xffff, hi + q, r);
  }

  /** The folding loop of ip_checksum. */
  method FoldLoop(start: nat) returns (sum: nat)
    ensures sum == Fold(start)
  {
    hide Fold;
    sum := start;
    while sum / 0x1_0000 != 0
      invariant Fold(sum) == Fold(start)
      decreases sum
    {
      FoldStep(sum);
      sum := sum % 0x1_0000 + sum / 0x1_0000;
    }
    FoldSmall(sum);
  }

  /** ip_checksum: the words into a 32-bit accumulator, the folding loop, the complement. */
  method IpChecksum(p: seq<Byte>) returns (r: nat)
    requires |p| < TWO32
    ensures r == Swap16(Check(p))
  {
    hide Fold, Word, Wrap, Swap16;
    var sum: nat, i: nat := 0, 0;
    assert p[0..] == p;
    while i + 1 < |p|
      invariant i <= |p| && i % 2 == 0 && sum < TWO32
      invariant Wrap(sum + Sum16(p[i..])) == Wrap(Sum16(p))
    {
      var w := Word(p[i], p[i + 1]);
      assert p[i..][2..] == p[i + 2..];
      WrapAdd(sum + w, Sum16(p[i + 2..]));
      sum := Wrap(sum + w);
      i := i + 2;
    }
    if |p| % 2 == 1 {
      sum := Wrap(sum + Word(p[|p| - 1], 0));
    } else {
      WrapSmall(sum);
    }
    sum := FoldLoop(sum);
    r := Swap16(0xffff - sum);
  }

  lemma FoldSmall(sum: nat)
    requires sum < 0x1_0000
    ensures Fold(sum) == sum
  {}

  // --------------------------------------------------------------- byte by byte

  /** Four bytes as a number, most significant first. */
  function Spelled(a: nat, b: nat, c: nat, d: nat): nat { 0x100_0000 * a + 0x1_0000 * b + 0x100 * c + d }

  /** Word `o` of a packet is its two bytes, the high one first. */
  lemma WordAtBytes(p: seq<Byte>, o: nat)
    requires o + 2 <= |p|
    ensures WordAt(p, o) == Spelled(0, 0, p[o], p[o + 1])
    ensures o + 4 <= |p| ==> QuadAt(p, o) == Spelled(p[o], p[o + 1], p[o + 2], p[o + 3])
  {}

  /** Even places weigh 256, odd places 1. */
  lemma {:induction false} SumBytes(p: seq<Byte>, q: seq<Byte>, x: Byte)
    requires |p| % 2 == 0
    ensures Sum16(p + [x]) == Sum16(p) + 0x100 * x
    ensures Sum16(p + [x] + q) == Sum16(p) + 0x100 * x + (if q == [] then 0 else q[0] + Sum16(q[1..]))
  {
    SumConcat(p, [x]);
    SumConcat(p, [x] + q);
    assert p + [x] + q == p + ([x] + q);
    if q != [] {
      assert ([x] + q)[2..] == q[1..];
    }
  }

  /** The example of section 3 of RFC 1071. */
  lemma RfcExample()
    ensures Sum16([0x00, 0x01, 0xf2, 0x03, 0xf4, 0xf5, 0xf6, 0xf7]) == 0x2_ddf0
    ensures Check([0x00, 0x01, 0xf2, 0x03, 0xf4, 0xf5, 0xf6, 0xf7]) == 0x220d
  {
    var p: seq<Byte> := [0x00, 0x01, 0xf2, 0x03, 0xf4, 0xf5, 0xf6, 0xf7];
    assert p[2..] == [0xf2, 0x03, 0xf4, 0xf5, 0xf6, 0xf7] && p[2..][2..] == [0xf4, 0xf5, 0xf6, 0xf7];
    assert p[2..][2..][2..] == [0xf6, 0xf7] && p[2..][2..][2..][2..] == [];
  }

  // ---------------------------------------------------------------- what it detects

  lemma {:induction false} SumConcat(a: seq<Byte>, b: seq<Byte>)
    requires |a| % 2 == 0
    ensures Sum16(a + b) == Sum16(a) + Sum16(b)
    decreases |a|
  {
    if a == [] {
      assert a + b == b;
    } else {
      assert (a + b)[2..] == a[2..] + b;
      SumConcat(a[2..], b);
    }
  }

  /** Below 131075 bytes the accumulator cannot wrap. */
  lemma {:induction false} SumBound(p: seq<Byte>)
    ensures Sum16(p) <= 0xffff * ((|p| + 1) / 2)
    decreases |p|
  {
    if |p| >= 2 {
      SumBound(p[2..]);
    }
  }

  lemma NoWrap(p: seq<Byte>)
    requires |p| <= 131074
    ensures Sum16(p) < TWO32 && Check(p) == Complement(Sum16(p))
  {
    hide Complement;
    SumBound(p);
    WrapSmall(Sum16(p));
  }

  /** A packet whose word at the even offset `o` is set to `v`. */
  function Patch(p: seq<Byte>, o: nat, v: nat): (r: seq<Byte>)
    requires o + 2 <= |p| && v < 0x1_0000
    ensures |r| == |p|
  {
    p[..o] + [Hi(v), Lo(v)] + p[o + 2..]
  }

  function WordAt(p: seq<Byte>, o: nat): (v: nat)
    requires o + 2 <= |p|
    ensures v < 0x1_0000
  {
    Word(p[o], p[o + 1])
  }

  lemma PatchFields(p: seq<Byte>, o: nat, v: nat)
    requires o + 2 <= |p| && v < 0x1_0000
    ensures Patch(p, o, v)[..o] == p[..o] && Patch(p, o, v)[o + 2..] == p[o + 2..] && WordAt(Patch(p, o, v), o) == v
    ensures forall i :: 0 <= i < |p| && i != o && i != o + 1 ==> Patch(p, o, v)[i] == p[i]
  {
    hide Hi, Lo, Word;
    WordBytes(v);
  }

  lemma SumSplit(p: seq<Byte>, o: nat)
    requires o % 2 == 0 && o + 2 <= |p|
    ensures Sum16(p) == Sum16(p[..o]) + WordAt(p, o) + Sum16(p[o + 2..])
  {
    hide Sum16, Word;
    var a, b := p[..o], p[o + 2..];
    var pair := [p[o], p[o + 1]];
    assert p == a + (pair + b);
    SumConcat(a, pair + b);
    SumPair(p[o], p[o + 1], b);
  }

  lemma SumPatch(p: seq<Byte>, o: nat, v: nat)
    requires o % 2 == 0 && o + 2 <= |p| && v < 0x1_0000
    ensures Sum16(Patch(p, o, v)) == Sum16(p) - WordAt(p, o) + v
  {
    hide Sum16, Word, Hi, Lo;
    var p' := Patch(p, o, v);
    WordBytes(v);
    SumSplit(p, o);
    SumSplit(p', o);
    assert p'[..o] == p[..o] && p'[o + 2..] == p[o + 2..] && p'[o] == Hi(v) && p'[o + 1] == Lo(v);
  }

  lemma SumPair(x: Byte, y: Byte, b: seq<Byte>)
    ensures Sum16([x, y] + b) == Word(x, y) + Sum16(b)
  {
    assert ([x, y] + b)[2..] == b;
  }

  /** The receiver's test is a statement about the sum modulo 65535. */
  lemma CheckZero(p: seq<Byte>)
    requires |p| <= 131074
    ensures Check(p) == 0 <==> Sum16(p) > 0 && Sum16(p) % 0xffff == 0
  {
    SumBound(p);
    var s := Sum16(p);
    WrapSmall(s);
    if s > 0 {
      var q, r := (s - 1) / 0xffff, (s - 1) % 0xffff;
      assert s - 1 == 0xffff * q + r;
      if r + 1 < 0xffff {
        ModUnique(s, 0xffff, q, r + 1);
      } else {
        ModUnique(s, 0xffff, q + 1, 0);
      }
    }
  }

  /** Storing the checksum of a packet whose checksum word is zero makes the packet verify. */
  lemma Verifies(p: seq<Byte>, o: nat)
    requires |p| <= 131074 && o % 2 == 0 && o + 2 <= |p| && WordAt(p, o) == 0
    ensures Check(Patch(p, o, Check(p))) == 0
  {
    hide Sum16, Complement, Check, Patch;
    NoWrap(p);
    SumPatch(p, o, Check(p));
    CheckZero(Patch(p, o, Check(p)));
    FoldComplement(Sum16(p));
  }

  lemma FoldComplement(s: nat)
    ensures s + Complement(s) > 0 && (s + Complement(s)) % 0xffff == 0
  {
    if s > 0 {
      var q, r := (s - 1) / 0xffff, (s - 1) % 0xffff;
      assert s - 1 == 0xffff * q + r;
      ModUnique(s + Complement(s), 0xffff, q + 1, 0);
    }
  }

  /**
   * A verified packet with one word changed still verifies exactly when the
   * words agree modulo 65535 and the changed packet is not all zeros.
   */
  lemma OneWord(p: seq<Byte>, o: nat, v: nat)
    requires |p| <= 131074 && o % 2 == 0 && o + 2 <= |p| && v < 0x1_0000 && Check(p) == 0
    ensures Check(Patch(p, o, v)) == 0 <==>
            || v == WordAt(p, o)
            || (v == 0xffff && WordAt(p, o) == 0)
            || (v == 0 && WordAt(p, o) == 0xffff && Sum16(p) > 0xffff)
  {
    var w, s, s' := WordAt(p, o), Sum16(p), Sum16(Patch(p, o, v));
    SumPatch(p, o, v);
    CheckZero(p);
    CheckZero(Patch(p, o, v));
    WordLeq(p, o);
    var q := s / 0xffff;
    assert s == 0xffff * q;
    var d := v - w;
    if d == 0 || d == 0xffff || d == -0xffff {
      ModUnique(s', 0xffff, if d == 0 then q else if d > 0 then q + 1 else q - 1, 0);
    } else if d > 0 {
      ModUnique(s', 0xffff, q, d);
    } else {
      ModUnique(s', 0xffff, q - 1, d + 0xffff);
    }
  }

  lemma WordLeq(p: seq<Byte>, o: nat)
    requires o % 2 == 0 && o + 2 <= |p|
    ensures WordAt(p, o) <= Sum16(p)
  {
    SumPatch(p, o, 0);
  }

  // ------------------------------------------------------------------- IPv4 headers

  const HEADER: nat := 20

  /** NET_HTONL, as bytes in memory. */
  function Quad(v: nat): (q: seq<Byte>)
    requires v < TWO32
    ensures |q| == 4
  {
    var high, low := v / 0x1_0000, v % 0x1_0000;
    [Hi(high), Lo(high), Hi(low), Lo(low)]
  }

  function QuadAt(p: seq<Byte>, o: nat): nat
    requires o + 4 <= |p|
  {
    0x1_0000 * WordAt(p, o) + WordAt(p, o + 2)
  }

  lemma QuadBytes(v: nat)
    requires v < TWO32
    ensures QuadAt(Quad(v), 0) == v
  {
    hide Hi, Lo, Word;
    WordBytes(v / 0x1_0000);
    WordBytes(v % 0x1_0000);
  }

  /** The header before its checksum is stored. */
  function Blank(src: nat, dst: nat, proto: Byte, plen: nat): (h: seq<Byte>)
    requires src < TWO32 && dst < TWO32 && plen < 0x1_0000
    ensures |h| == HEADER
  {
    var total := (HEADER + plen) % 0x1_0000;
    [0x45, 0, Hi(total), Lo(total), 0, 0, 0x40, 0, 64, proto, 0, 0] + Quad(src) + Quad(dst)
  }

  function Header(src: nat, dst: nat, proto: Byte, plen: nat): (h: seq<Byte>)
    requires src < TWO32 && dst < TWO32 && plen < 0x1_0000
    ensures |h| == HEADER
  {
    var blank := Blank(src, dst, proto, plen);
    Patch(blank, 10, Check(blank))
  }

  /** Every header hdr_fill builds has checksum 0. */
  lemma HeaderVerifies(src: nat, dst: nat, proto: Byte, plen: nat)
    requires src < TWO32 && dst < TWO32 && plen < 0x1_0000
    ensures Check(Header(src, dst, proto, plen)) == 0
  {
    hide Quad, Hi, Lo, Check, Patch;
    Verifies(Blank(src, dst, proto, plen), 10);
  }

  /** Every byte of the header hdr_fill builds, but for the checksum in bytes 10 and 11. */
  lemma HeaderBytes(src: nat, dst: nat, proto: Byte, plen: nat)
    requires src < TWO32 && dst < TWO32 && plen < 0x1_0000
    ensures var h := Header(src, dst, proto, plen);
            && h[0] == 0x45 && h[1] == 0 && Spelled(0, 0, h[2], h[3]) == (20 + plen) % 0x1_0000
            && h[4] == 0 && h[5] == 0 && h[6] == 0x40 && h[7] == 0 && h[8] == 64 && h[9] == proto
            && Spelled(h[12], h[13], h[14], h[15]) == src
            && Spelled(h[16], h[17], h[18], h[19]) == dst
  {
    hide Check, Patch, Quad;
    var b := Blank(src, dst, proto, plen);
    PatchFields(b, 10, Check(b));
    QuadBytes(src);
    QuadBytes(dst);
    WordAtBytes(Quad(src), 0);
    WordAtBytes(Quad(dst), 0);
    WordBytes((HEADER + plen) % 0x1_0000);
    assert b[12] == Quad(src)[0] && b[13] == Quad(src)[1] && b[14] == Quad(src)[2] && b[15] == Quad(src)[3];
    assert b[16] == Quad(dst)[0] && b[17] == Quad(dst)[1] && b[18] == Quad(dst)[2] && b[19] == Quad(dst)[3];
  }

  lemma SwapBytes(v: nat)
    requires v < 0x1_0000
    ensures Lo(Swap16(v)) == Hi(v) && Hi(Swap16(v)) == Lo(v)
  {
    hide Hi, Lo;
    PairBytes(Lo(v), Hi(v));
  }

  lemma PairBytes(hi: Byte, lo: Byte)
    ensures Word(hi, lo) < 0x1_0000 && Hi(Word(hi, lo)) == hi && Lo(Word(hi, lo)) == lo
  {}

  /** A u16 stored in little-endian memory. */
  method Store16(a: array<Byte>, o: nat, v: nat)
    requires o + 2 <= a.Length && v < 0x1_0000
    modifies a
    ensures a[..] == old(a[..])[o := Lo(v)][o + 1 := Hi(v)]
  {
    a[o] := Lo(v);
    a[o + 1] := Hi(v);
  }

  /** Storing the result of ip_checksum puts the host value in network order. */
  lemma StoredCheck(p: seq<Byte>, o: nat, v: nat)
    requires o + 2 <= |p| && v < 0x1_0000
    ensures p[o := Lo(Swap16(v))][o + 1 := Hi(Swap16(v))] == Patch(p, o, v)
  {
    SwapBytes(v);
    hide Swap16, Hi, Lo;
  }

  /** hdr_fill, into a header inside a frame. */
  method FillHeader(frame: array<Byte>, at: nat, src: nat, dst: nat, proto: Byte, plen: nat)
    requires at + HEADER <= frame.Length && src < TWO32 && dst < TWO32 && plen < 0x1_0000
    modifies frame
    ensures frame[..] == old(frame[..at]) + Header(src, dst, proto, plen) + old(frame[at + HEADER..])
  {
    hide Check, Patch, Quad, Hi, Lo, Swap16;
    var blank := Blank(src, dst, proto, plen);
    hide Blank;
    WriteAt(frame, at, blank);
    assert frame[at..at + HEADER] == blank;
    var r := IpChecksum(frame[at..at + HEADER]);
    ghost var before := frame[..];
    Store16(frame, at + 10, r);
    StoredCheck(blank, 10, Check(blank));
    Splice(old(frame[..at]), blank, old(frame[at + HEADER..]), Lo(r), Hi(r));
  }

  method WriteAt(frame: array<Byte>, at: nat, bytes: seq<Byte>)
    requires at + |bytes| <= frame.Length
    modifies frame
    ensures frame[..] == old(frame[..at]) + bytes + old(frame[at + |bytes|..])
  {
    for i := 0 to |bytes|
      invariant forall k :: 0 <= k < frame.Length ==> frame[k] == if at <= k < at + i then bytes[k - at]
                else old(frame[k])
    {
      frame[at + i] := bytes[i];
    }
  }

  lemma Splice(a: seq<Byte>, b: seq<Byte>, c: seq<Byte>, x: Byte, y: Byte)
    requires |b| == HEADER
    ensures (a + b + c)[|a| + 10 := x][|a| + 11 := y] == a + b[10 := x][11 := y] + c
  {}

  // ------------------------------------------------------------------- IPv4 receive

  datatype Datagram = Datagram(proto: nat, payload: seq<Byte>, src: nat)

  /** A whole IPv4 packet without options, for this host, whose header words sum to a positive multiple of 65535. */
  predicate Acceptable(pkt: seq<Byte>, ip: nat) {
    && |pkt| >= HEADER && pkt[0] == 0x45
    && HEADER <= WordAt(pkt, 2) <= |pkt|
    && (QuadAt(pkt, 16) == ip || (ip == 0 && QuadAt(pkt, 16) == 0xffff_ffff))
    && Sum16(pkt[..HEADER]) > 0 && Sum16(pkt[..HEADER]) % 0xffff == 0
  }

  /** ipv4_rx, up to the hand-over to the protocols. */
  method Receive(pkt: seq<Byte>, ip: nat) returns (r: Option<Datagram>)
    ensures r.Some? <==> Acceptable(pkt, ip)
    ensures r.Some? ==> r.value == Datagram(pkt[9], pkt[HEADER..WordAt(pkt, 2)], QuadAt(pkt, 12))
  {
    hide Check, Swap16, Word, Sum16;
    if |pkt| < HEADER {
      return None;
    }
    if pkt[0] / 16 != 4 || pkt[0] % 16 != 5 {
      return None;
    }
    var total := WordAt(pkt, 2);
    if total < HEADER || total > |pkt| {
      return None;
    }
    var dst := QuadAt(pkt, 16);
    if dst != ip && !(ip == 0 && dst == 0xffff_ffff) {
      return None;
    }
    var check := IpChecksum(pkt[..HEADER]);
    CheckZero(pkt[..HEADER]);
    if check != 0 {
      return None;
    }
    return Some(Datagram(pkt[9], pkt[HEADER..total], QuadAt(pkt, 12)));
  }

  /** Everything ipv4_send may build, padded or not on the way, arrives at the addressed host as it was sent. */
  lemma HeaderAccepted(src: nat, dst: nat, proto: Byte, payload: seq<Byte>, padding: seq<Byte>)
    requires src < TWO32 && dst < TWO32 && |payload| <= MTU - HEADER
    ensures var pkt := Header(src, dst, proto, |payload|) + payload + padding;
            && Acceptable(pkt, dst)
            && Datagram(pkt[9], pkt[HEADER..WordAt(pkt, 2)], QuadAt(pkt, 12)) == Datagram(proto, payload, src)
  {
    hide Header, Check, Word, Sum16;
    var h := Header(src, dst, proto, |payload|);
    var pkt := h + payload + padding;
    HeaderVerifies(src, dst, proto, |payload|);
    CheckZero(h);
    HeaderFields(src, dst, proto, |payload|);
    assert pkt[..HEADER] == h;
    assert forall i :: 0 <= i < HEADER ==> pkt[i] == h[i];
    assert WordAt(pkt, 2) == WordAt(h, 2) && QuadAt(pkt, 16) == QuadAt(h, 16) && QuadAt(pkt, 12) == QuadAt(h, 12);
    hide WordAt, QuadAt;
    assert pkt[HEADER..HEADER + |payload|] == payload;
  }

  lemma HeaderFields(src: nat, dst: nat, proto: Byte, plen: nat)
    requires src < TWO32 && dst < TWO32 && plen <= MTU - HEADER
    ensures var h := Header(src, dst, proto, plen);
            && h[0] == 0x45 && h[9] == proto && WordAt(h, 2) == HEADER + plen
            && QuadAt(h, 12) == src && QuadAt(h, 16) == dst
  {
    hide Check, Patch, Quad, Hi, Lo, Word;
    var b := Blank(src, dst, proto, plen);
    PatchFields(b, 10, Check(b));
    QuadBytes(src);
    QuadBytes(dst);
    WordBytes(HEADER + plen);
    assert (HEADER + plen) % 0x1_0000 == HEADER + plen;
    assert b[12] == Quad(src)[0] && b[13] == Quad(src)[1] && b[14] == Quad(src)[2] && b[15] == Quad(src)[3];
    assert b[16] == Quad(dst)[0] && b[17] == Quad(dst)[1] && b[18] == Quad(dst)[2] && b[19] == Quad(dst)[3];
  }

  // -------------------------------------------------------------------------- ICMP

  /** The echo reply: same packet, type 0, checksum recomputed. */
  function Reply(pkt: seq<Byte>): (r: seq<Byte>)
    requires |pkt| >= 8
    ensures |r| == |pkt|
  {
    var blank := Patch(pkt[0 := 0], 2, 0);
    Patch(blank, 2, Check(blank))
  }

  /** Every echo reply has checksum 0, odd lengths included, and keeps the code, identifier, sequence and data. */
  lemma ReplyVerifies(pkt: seq<Byte>)
    requires 8 <= |pkt| <= MTU
    ensures Check(Reply(pkt)) == 0
    ensures Reply(pkt)[0] == 0 && Reply(pkt)[1] == pkt[1] && Reply(pkt)[4..] == pkt[4..]
  {
    hide Check, Patch, WordAt;
    var plain: seq<Byte> := pkt[0 := 0];
    var blank := Patch(plain, 2, 0);
    PatchFields(plain, 2, 0);
    PatchFields(blank, 2, Check(blank));
    Verifies(blank, 2);
    assert plain[4..] == pkt[4..];
  }

  /** icmp_rx: an echo request is answered, anything else is not. */
  method EchoReply(pkt: seq<Byte>) returns (r: Option<seq<Byte>>)
    requires |pkt| <= MTU
    ensures r == if |pkt| >= 8 && pkt[0] == 8 then Some(Reply(pkt)) else None
  {
    if |pkt| < 8 {
      return None;
    }
    if pkt[0] == 0 {
      return None;
    }
    if pkt[0] != 8 {
      return None;
    }
    var reply := new Byte[MTU](_ => 0);
    for i := 0 to |pkt|
      invariant reply[..i] == pkt[..i]
    {
      reply[i] := pkt[i];
    }
    reply[0] := 0;
    Store16(reply, 2, 0);
    ghost var blank: seq<Byte> := Patch(pkt[0 := 0], 2, 0);
    assert reply[..|pkt|] == blank;
    hide Check, Patch, Swap16, Hi, Lo;
    var c := IpChecksum(reply[..|pkt|]);
    Store16(reply, 2, c);
    StoredCheck(blank, 2, Check(blank));
    assert reply[..|pkt|] == blank[2 := Lo(c)][3 := Hi(c)];
    return Some(reply[..|pkt|]);
  }

  /** The request before its checksum is stored. */
  function RequestBlank(id: nat, sequence: nat): (p: seq<Byte>)
    requires id < 0x1_0000 && sequence < 0x1_0000
    ensures |p| == 16
  {
    [8, 0, 0, 0, Hi(id), Lo(id), Hi(sequence), Lo(sequence)] + seq(8, _ => 0x78)
  }

  lemma RequestFields(id: nat, sequence: nat)
    requires id < 0x1_0000 && sequence < 0x1_0000
    ensures var p := RequestBlank(id, sequence);
            && p[0] == 8 && p[1] == 0 && WordAt(p, 2) == 0 && WordAt(p, 4) == id && WordAt(p, 6) == sequence
            && forall i :: 8 <= i < 16 ==> p[i] == 0x78
  {
    WordBytes(id);
    WordBytes(sequence);
    hide Hi, Lo;
  }

  lemma SameWords(p: seq<Byte>, q: seq<Byte>)
    requires |p| == |q| == 16 && forall i :: 4 <= i < 8 ==> p[i] == q[i]
    ensures WordAt(p, 4) == WordAt(q, 4) && WordAt(p, 6) == WordAt(q, 6)
  {}

  /** icmp_echo_request: the packet it sends. */
  method EchoRequest(id: nat, sequence: nat) returns (pkt: seq<Byte>)
    requires id < 0x1_0000 && sequence < 0x1_0000
    ensures |pkt| == 16 && Check(pkt) == 0
    ensures pkt[0] == 8 && pkt[1] == 0 && WordAt(pkt, 4) == id && WordAt(pkt, 6) == sequence
    ensures forall i :: 8 <= i < 16 ==> pkt[i] == 0x78
  {
    hide Swap16, Check, Patch, Hi, Lo, WordAt, RequestBlank;
    var blank := RequestBlank(id, sequence);
    RequestFields(id, sequence);
    var c := IpChecksum(blank);
    Verifies(blank, 2);
    StoredCheck(blank, 2, Check(blank));
    PatchFields(blank, 2, Check(blank));
    pkt := blank[2 := Lo(c)][3 := Hi(c)];
    SameWords(blank, pkt);
  }
}
