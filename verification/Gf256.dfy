/**
 * The field GF(2^8) of the AES cipher (bsd/crypto/crypto_cipher.cpp:38-49).
 */
module Gf256 {

  /** xtime: multiplication by x modulo x^8 + x^4 + x^3 + x + 1. */
  function Xtime(a: bv8): bv8 { (a << 1) ^ (((a >> 7) & 1) * 0x1b) }

  /** The loop of xmul from turn `i` on. */
  function MulFrom(a: bv8, b: bv8, p: bv8, i: nat): bv8
    requires i <= 8
    decreases 8 - i
  {
    if i == 8 then p
    else MulFrom(Xtime(a), b >> 1, if b & 1 != 0 then p ^ a else p, i + 1)
  }

  /** xmul. */
  function Mul(a: bv8, b: bv8): bv8 { MulFrom(a, b, 0, 0) }

  method Xmul(a: bv8, b: bv8) returns (p: bv8)
    ensures p == Mul(a, b)
  {
    var x, y := a, b;
    p := 0;
    var i := 0;
    while i < 8
      invariant 0 <= i <= 8 && MulFrom(x, y, p, i) == Mul(a, b)
    {
      if y & 1 != 0 {
        p := p ^ x;
      }
      x := Xtime(x);
      y := y >> 1;
      i := i + 1;
    }
  }

  // Bit steps with names, so that the unrolling below is a matter of equations.

  function Xor(p: bv8, q: bv8): bv8 { p ^ q }

  function Bit(b: bv8, a: bv8): bv8 { if b & 1 != 0 then a else 0 }

  function Half(b: bv8): bv8 { b >> 1 }

  /** One turn of the loop. */
  lemma MulTurn(a: bv8, b: bv8, p: bv8, i: nat)
    requires i < 8
    ensures MulFrom(a, b, p, i) == MulFrom(Xtime(a), Half(b), Xor(p, Bit(b, a)), i + 1)
  {
    hide Xtime;
  }

  /** The loop unrolled: one shifted copy of `a` for every bit of `b`. */
  function Unrolled(a: bv8, b: bv8): bv8 {
    var a1 := Xtime(a); var a2 := Xtime(a1); var a3 := Xtime(a2); var a4 := Xtime(a3);
    var a5 := Xtime(a4); var a6 := Xtime(a5); var a7 := Xtime(a6);
    var b1 := Half(b); var b2 := Half(b1); var b3 := Half(b2); var b4 := Half(b3);
    var b5 := Half(b4); var b6 := Half(b5); var b7 := Half(b6);
    Xor(Xor(Xor(Xor(Xor(Xor(Xor(Xor(0, Bit(b, a)), Bit(b1, a1)), Bit(b2, a2)), Bit(b3, a3)),
                        Bit(b4, a4)), Bit(b5, a5)), Bit(b6, a6)), Bit(b7, a7))
  }

  lemma MulUnrolled(a: bv8, b: bv8)
    ensures Mul(a, b) == Unrolled(a, b)
  {
    hide Xtime, Bit, Xor, Half, MulFrom;
    var a1 := Xtime(a); var a2 := Xtime(a1); var a3 := Xtime(a2); var a4 := Xtime(a3);
    var a5 := Xtime(a4); var a6 := Xtime(a5); var a7 := Xtime(a6);
    var b1 := Half(b); var b2 := Half(b1); var b3 := Half(b2); var b4 := Half(b3);
    var b5 := Half(b4); var b6 := Half(b5); var b7 := Half(b6);
    var p1 := Xor(0, Bit(b, a));
    var p2 := Xor(p1, Bit(b1, a1));
    var p3 := Xor(p2, Bit(b2, a2));
    var p4 := Xor(p3, Bit(b3, a3));
    var p5 := Xor(p4, Bit(b4, a4));
    var p6 := Xor(p5, Bit(b5, a5));
    var p7 := Xor(p6, Bit(b6, a6));
    MulTurn(a, b, 0, 0);
    MulTurn(a1, b1, p1, 1);
    MulTurn(a2, b2, p2, 2);
    MulTurn(a3, b3, p3, 3);
    MulTurn(a4, b4, p4, 4);
    MulTurn(a5, b5, p5, 5);
    MulTurn(a6, b6, p6, 6);
    MulTurn(a7, b7, p7, 7);
    MulDone(Xtime(a7), Half(b7), Xor(p7, Bit(b7, a7)));
  }

  lemma MulDone(a: bv8, b: bv8, p: bv8)
    ensures MulFrom(a, b, p, 8) == p
  {}

  // What pins the product down: xtime is multiplication by x modulo the field
  // polynomial 0x11b, 1 is neutral, and the product is additive in each factor.

  lemma XtimeReduces(a: bv8)
    ensures Xtime(a) as bv16 == (if a & 0x80 != 0 then ((a as bv16) << 1) ^ 0x11b else (a as bv16) << 1)
    ensures Mul(a, 1) == a && Mul(a, 2) == Xtime(a)
  {
    MulUnrolled(a, 1);
    MulUnrolled(a, 2);
  }

  lemma XtimeLinear(a: bv8, b: bv8)
    ensures Xtime(Xor(a, b)) == Xor(Xtime(a), Xtime(b))
  {}

  lemma BitAdditive(a: bv8, b: bv8, c: bv8)
    ensures Half(Xor(b, c)) == Xor(Half(b), Half(c))
    ensures Bit(Xor(b, c), a) == Xor(Bit(b, a), Bit(c, a))
    ensures Bit(a, Xor(b, c)) == Xor(Bit(a, b), Bit(a, c))
  {}

  // The group laws of Xor.

  lemma XorAssoc(p: bv8, q: bv8, r: bv8)
    ensures Xor(Xor(p, q), r) == Xor(p, Xor(q, r))
  {}

  lemma XorComm(p: bv8, q: bv8)
    ensures Xor(p, q) == Xor(q, p)
  {}

  lemma XorZero(p: bv8)
    ensures Xor(p, 0) == p && Xor(0, p) == p && Xor(p, p) == 0
  {}

  lemma XorSwap(p: bv8, q: bv8, r: bv8, s: bv8)
    ensures Xor(Xor(p, q), Xor(r, s)) == Xor(Xor(p, r), Xor(q, s))
  {
    hide Xor;
    XorAssoc(p, q, Xor(r, s));
    XorAssoc(q, r, s);
    XorComm(q, r);
    XorAssoc(r, q, s);
    XorAssoc(p, r, Xor(q, s));
  }

  lemma TurnAdditive(a: bv8, b: bv8, c: bv8, p: bv8, q: bv8)
    ensures Half(Xor(b, c)) == Xor(Half(b), Half(c))
    ensures Xor(Xor(p, q), Bit(Xor(b, c), a)) == Xor(Xor(p, Bit(b, a)), Xor(q, Bit(c, a)))
    ensures Xor(Xor(p, q), Bit(a, Xor(b, c))) == Xor(Xor(p, Bit(a, b)), Xor(q, Bit(a, c)))
  {
    hide Xor, Bit, Half;
    BitAdditive(a, b, c);
    XorSwap(p, q, Bit(b, a), Bit(c, a));
    XorSwap(p, q, Bit(a, b), Bit(a, c));
  }

  /** Additive in the second factor. */
  lemma {:induction false} MulAdditive(a: bv8, b: bv8, c: bv8, p: bv8, q: bv8, i: nat)
    requires i <= 8
    ensures MulFrom(a, Xor(b, c), Xor(p, q), i) == Xor(MulFrom(a, b, p, i), MulFrom(a, c, q, i))
    decreases 8 - i
  {
    hide Xtime, Xor, Half, Bit;
    if i < 8 {
      MulTurn(a, Xor(b, c), Xor(p, q), i);
      MulTurn(a, b, p, i);
      MulTurn(a, c, q, i);
      TurnAdditive(a, b, c, p, q);
      hide MulFrom;
      MulAdditive(Xtime(a), Half(b), Half(c), Xor(p, Bit(b, a)), Xor(q, Bit(c, a)), i + 1);
    }
  }

  /** Additive in the first factor. */
  lemma {:induction false} MulAdditiveLeft(b: bv8, c: bv8, a: bv8, p: bv8, q: bv8, i: nat)
    requires i <= 8
    ensures MulFrom(Xor(b, c), a, Xor(p, q), i) == Xor(MulFrom(b, a, p, i), MulFrom(c, a, q, i))
    decreases 8 - i
  {
    hide Xtime, Xor, Half, Bit;
    if i < 8 {
      MulTurn(Xor(b, c), a, Xor(p, q), i);
      MulTurn(b, a, p, i);
      MulTurn(c, a, q, i);
      TurnAdditive(a, b, c, p, q);
      XtimeLinear(b, c);
      hide MulFrom;
      MulAdditiveLeft(Xtime(b), Xtime(c), Half(a), Xor(p, Bit(a, b)), Xor(q, Bit(a, c)), i + 1);
    }
  }

  lemma MulBilinear(a: bv8, b: bv8, c: bv8)
    ensures Mul(a, Xor(b, c)) == Xor(Mul(a, b), Mul(a, c))
    ensures Mul(Xor(b, c), a) == Xor(Mul(b, a), Mul(c, a))
  {
    MulAdditive(a, b, c, 0, 0, 0);
    MulAdditiveLeft(b, c, a, 0, 0, 0);
    hide MulFrom;
    assert Xor(0, 0) == 0;
  }

  // ----------------------------------------------------------------- mix_columns

  datatype Column = Column(a0: bv8, a1: bv8, a2: bv8, a3: bv8)

  /** One row of mix_columns: `a ^= xtime(a ^ b) ^ t`. */
  function MixRow(a: bv8, b: bv8, t: bv8): bv8 { Xor(a, Xor(Xtime(Xor(a, b)), t)) }

  /** One turn of mix_columns. */
  function Mix(c: Column): Column {
    var t := Xor(Xor(Xor(c.a0, c.a1), c.a2), c.a3);
    Column(MixRow(c.a0, c.a1, t), MixRow(c.a1, c.a2, t), MixRow(c.a2, c.a3, t), MixRow(c.a3, c.a0, t))
  }

  function Xor4(c: Column): bv8 { Xor(Xor(c.a0, c.a1), Xor(c.a2, c.a3)) }

  /** A row of a matrix times a column. */
  function Dot(c: Column, p: Column): bv8 {
    Xor4(Column(Mul(c.a0, p.a0), Mul(c.a1, p.a1), Mul(c.a2, p.a2), Mul(c.a3, p.a3)))
  }

  /** The row below, in a circulant matrix. */
  function Turn(p: Column): Column { Column(p.a3, p.a0, p.a1, p.a2) }

  /** The circulant matrix with the given first row times a column. */
  function Circulant(c: Column, p: Column): Column {
    Column(Dot(c, p), Dot(c, Turn(p)), Dot(c, Turn(Turn(p))), Dot(c, Turn(Turn(Turn(p)))))
  }

  const FORWARD := Column(2, 3, 1, 1)
  const BACKWARD := Column(0x0e, 0x0b, 0x0d, 0x09)

  /** One turn of mix_columns_inv. */
  function InvMix(c: Column): Column { Circulant(c, BACKWARD) }

  // --------------------------------------------- mix_columns is a matrix product

  lemma MixRowIsSum(p: bv8, q: bv8, r: bv8, s: bv8, t: bv8)
    requires t == Xor(Xor(Xor(p, q), r), s)
    ensures MixRow(p, q, t) == Xor4(Column(Xtime(p), Xor(Xtime(q), q), r, s))
  {
    hide Xor, Xtime;
    var x, y := Xtime(p), Xtime(q);
    XtimeLinear(p, q);
    var rest := Xor(q, Xor(r, s));
    XorAssoc(Xor(p, q), r, s);
    XorAssoc(p, q, Xor(r, s));
    assert t == Xor(p, rest);
    XorAssoc(p, Xor(x, y), t);
    XorComm(p, Xor(x, y));
    XorAssoc(Xor(x, y), p, t);
    XorAssoc(p, p, rest);
    XorZero(p);
    XorZero(rest);
    assert MixRow(p, q, t) == Xor(Xor(x, y), rest);
    XorAssoc(Xor(x, y), q, Xor(r, s));
    XorAssoc(x, y, q);
  }

  lemma Xor4Turn(c: Column)
    ensures Xor4(Turn(c)) == Xor4(c)
    ensures Xor(Xor(Xor(c.a0, c.a1), c.a2), c.a3) == Xor4(c)
  {
    hide Xor;
    XorAssoc(Xor(c.a0, c.a1), c.a2, c.a3);
    XorAssoc(c.a3, c.a0, Xor(c.a1, c.a2));
    XorAssoc(c.a0, c.a1, c.a2);
    XorComm(c.a3, Xor(Xor(c.a0, c.a1), c.a2));
  }

  lemma MulSmall(a: bv8)
    ensures Mul(a, 0) == 0 && Mul(a, 1) == a && Mul(a, 2) == Xtime(a) && Mul(a, 3) == Xor(Xtime(a), a)
  {
    MulUnrolled(a, 0);
    MulUnrolled(a, 1);
    MulUnrolled(a, 2);
    MulUnrolled(a, 3);
  }

  /** The products of sections 4.2 and 4.2.1 of FIPS 197. */
  lemma MulSamples()
    ensures Mul(0x57, 0x83) == 0xc1 && Mul(0x57, 0x13) == 0xfe
  {
    MulUnrolled(0x57, 0x83);
    MulUnrolled(0x57, 0x13);
  }

  lemma MixIsCirculant(c: Column)
    ensures Mix(c) == Circulant(c, FORWARD)
  {
    hide Xor, Xtime, Mul, Xor4, MixRow;
    MulSmall(c.a0);
    MulSmall(c.a1);
    MulSmall(c.a2);
    MulSmall(c.a3);
    var t := Xor(Xor(Xor(c.a0, c.a1), c.a2), c.a3);
    var c1, c2, c3 := Turn(c), Turn(Turn(c)), Turn(Turn(Turn(c)));
    Xor4Turn(c);
    Xor4Turn(c1);
    Xor4Turn(c2);
    Xor4Turn(c3);
    MixRowIsSum(c.a0, c.a1, c.a2, c.a3, t);
    MixRowIsSum(c.a1, c.a2, c.a3, c.a0, t);
    MixRowIsSum(c.a2, c.a3, c.a0, c.a1, t);
    MixRowIsSum(c.a3, c.a0, c.a1, c.a2, t);
    var r1 := Column(Xtime(c.a1), Xor(Xtime(c.a2), c.a2), c.a3, c.a0);
    var r2 := Column(Xtime(c.a2), Xor(Xtime(c.a3), c.a3), c.a0, c.a1);
    var r3 := Column(Xtime(c.a3), Xor(Xtime(c.a0), c.a0), c.a1, c.a2);
    Xor4Turn(r1);
    Xor4Turn(r2);
    Xor4Turn(Turn(r2));
    Xor4Turn(r3);
    Xor4Turn(Turn(r3));
    Xor4Turn(Turn(Turn(r3)));
  }

  // --------------------------------------------------------- products of matrices

  /** p * q for the small factors of mix_columns. */
  function Times(p: bv8, q: bv8): bv8 {
    if p == 1 then q else if p == 2 then q << 1 else Xor(q << 1, q)
  }

  predicate Small(p: bv8) { p == 1 || p == 2 || p == 3 }

  lemma {:induction false} MulXtime(a: bv8, b: bv8, p: bv8, i: nat)
    requires i <= 8
    ensures MulFrom(Xtime(a), b, Xtime(p), i) == Xtime(MulFrom(a, b, p, i))
    decreases 8 - i
  {
    hide Xtime, Xor, Half, Bit;
    if i < 8 {
      MulTurn(Xtime(a), b, Xtime(p), i);
      MulTurn(a, b, p, i);
      XtimeBit(b, a);
      XtimeLinear(p, Bit(b, a));
      hide MulFrom;
      MulXtime(Xtime(a), Half(b), Xor(p, Bit(b, a)), i + 1);
    }
  }

  lemma XtimeBit(b: bv8, a: bv8)
    ensures Bit(b, Xtime(a)) == Xtime(Bit(b, a)) && Xtime(0) == 0
  {}

  /** Doubling a factor below x^7. */
  lemma MulDouble(a: bv8, q: bv8)
    requires q < 0x80
    ensures Mul(a, q << 1) == Xtime(Mul(a, q))
  {
    hide Xtime;
    MulTurn(a, q << 1, 0, 0);
    Undouble(q, a);
    XorZero(0);
    MulXtime(a, q, 0, 0);
    XtimeBit(0, 0);
    LastTurn(Xtime(a), q, 0, 0);
  }

  lemma Undouble(q: bv8, a: bv8)
    requires q < 0x80
    ensures Half(q << 1) == q && Bit(q << 1, a) == 0
  {}

  predicate Short(b: bv8, i: nat) {
    match i
    case 0 => b < 0x80 case 1 => b < 0x40 case 2 => b < 0x20 case 3 => b < 0x10
    case 4 => b < 0x08 case 5 => b < 0x04 case 6 => b < 0x02 case _ => b == 0
  }

  lemma ShortHalf(b: bv8, a: bv8, i: nat)
    requires Short(b, i) && i < 8
    ensures i < 7 ==> Short(Half(b), i + 1)
    ensures i == 7 ==> Bit(b, a) == 0
  {}

  /** A factor below x^7 needs one turn less. */
  lemma {:induction false} LastTurn(a: bv8, b: bv8, p: bv8, i: nat)
    requires i < 8 && Short(b, i)
    ensures MulFrom(a, b, p, i + 1) == MulFrom(a, b, p, i)
    decreases 8 - i
  {
    hide Xtime, Xor, Half, Bit, Short;
    ShortHalf(b, a, i);
    XorZero(p);
    MulTurn(a, b, p, i);
    if i == 7 {
      MulDone(Xtime(a), Half(b), p);
      MulDone(a, b, p);
    } else {
      MulTurn(a, b, p, i + 1);
      hide MulFrom;
      LastTurn(Xtime(a), Half(b), Xor(p, Bit(b, a)), i + 1);
    }
  }

  /** Products with the small factors associate and commute. */
  lemma SmallAssoc(a: bv8, p: bv8, q: bv8)
    requires Small(p) && q < 0x80
    ensures Mul(Mul(a, p), q) == Mul(a, Times(p, q)) == Mul(Mul(a, q), p)
  {
    hide Xtime, Xor, Mul;
    MulSmall(a);
    MulSmall(Mul(a, q));
    MulDouble(a, q);
    MulDoubleLeft(a, q);
    MulBilinear(q, Xtime(a), a);
    MulBilinear(a, q << 1, q);
  }

  lemma MulDoubleLeft(a: bv8, q: bv8)
    ensures Mul(Xtime(a), q) == Xtime(Mul(a, q))
  {
    hide MulFrom;
    MulXtime(a, q, 0, 0);
    XtimeBit(0, 0);
  }

  lemma MulXor4(m: Column, s: bv8)
    ensures Mul(Xor4(m), s) == Xor4(Column(Mul(m.a0, s), Mul(m.a1, s), Mul(m.a2, s), Mul(m.a3, s)))
    ensures Mul(s, Xor4(m)) == Xor4(Column(Mul(s, m.a0), Mul(s, m.a1), Mul(s, m.a2), Mul(s, m.a3)))
  {
    hide Xor, Mul;
    MulBilinear(s, Xor(m.a0, m.a1), Xor(m.a2, m.a3));
    MulBilinear(s, m.a0, m.a1);
    MulBilinear(s, m.a2, m.a3);
  }

  /** A sum of sums by rows is the sum of sums by columns. */
  lemma Transpose(r0: Column, r1: Column, r2: Column, r3: Column)
    ensures Xor4(Column(Xor4(r0), Xor4(r1), Xor4(r2), Xor4(r3))) ==
            Xor4(Column(Xor4(Column(r0.a0, r1.a0, r2.a0, r3.a0)), Xor4(Column(r0.a1, r1.a1, r2.a1, r3.a1)),
                        Xor4(Column(r0.a2, r1.a2, r2.a2, r3.a2)), Xor4(Column(r0.a3, r1.a3, r2.a3, r3.a3))))
  {
    hide Xor;
    Pairwise(r0, r1);
    Pairwise(r2, r3);
    Pairwise(Column(Xor(r0.a0, r1.a0), Xor(r0.a1, r1.a1), Xor(r0.a2, r1.a2), Xor(r0.a3, r1.a3)),
             Column(Xor(r2.a0, r3.a0), Xor(r2.a1, r3.a1), Xor(r2.a2, r3.a2), Xor(r2.a3, r3.a3)));
  }

  lemma Pairwise(p: Column, q: Column)
    ensures Xor(Xor4(p), Xor4(q)) == Xor4(Column(Xor(p.a0, q.a0), Xor(p.a1, q.a1), Xor(p.a2, q.a2), Xor(p.a3, q.a3)))
  {
    hide Xor;
    XorSwap(Xor(p.a0, p.a1), Xor(p.a2, p.a3), Xor(q.a0, q.a1), Xor(q.a2, q.a3));
    XorSwap(p.a0, p.a1, q.a0, q.a1);
    XorSwap(p.a2, p.a3, q.a2, q.a3);
  }

  /** Multiplying the products in row `m` by `s` gives the products of `c` with row `t`. */
  predicate Scales(c: Column, m: Column, s: bv8, t: Column) {
    && Mul(Mul(c.a0, m.a0), s) == Mul(c.a0, t.a0) && Mul(Mul(c.a1, m.a1), s) == Mul(c.a1, t.a1)
    && Mul(Mul(c.a2, m.a2), s) == Mul(c.a2, t.a2) && Mul(Mul(c.a3, m.a3), s) == Mul(c.a3, t.a3)
  }

  function Row(c: Column, m: Column): Column {
    Column(Mul(c.a0, m.a0), Mul(c.a1, m.a1), Mul(c.a2, m.a2), Mul(c.a3, m.a3))
  }

  /** A row times a matrix times a column. */
  lemma DotDot(c: Column, m0: Column, m1: Column, m2: Column, m3: Column, s: Column,
               t0: Column, t1: Column, t2: Column, t3: Column)
    requires Scales(c, m0, s.a0, t0) && Scales(c, m1, s.a1, t1) && Scales(c, m2, s.a2, t2) && Scales(c, m3, s.a3, t3)
    ensures Dot(Column(Dot(c, m0), Dot(c, m1), Dot(c, m2), Dot(c, m3)), s) ==
            Dot(c, Column(Xor4(Column(t0.a0, t1.a0, t2.a0, t3.a0)), Xor4(Column(t0.a1, t1.a1, t2.a1, t3.a1)),
                          Xor4(Column(t0.a2, t1.a2, t2.a2, t3.a2)), Xor4(Column(t0.a3, t1.a3, t2.a3, t3.a3))))
  {
    hide Xor, Mul, Xor4;
    MulXor4(Row(c, m0), s.a0);
    MulXor4(Row(c, m1), s.a1);
    MulXor4(Row(c, m2), s.a2);
    MulXor4(Row(c, m3), s.a3);
    Transpose(Row(c, t0), Row(c, t1), Row(c, t2), Row(c, t3));
    MulXor4(Column(t0.a0, t1.a0, t2.a0, t3.a0), c.a0);
    MulXor4(Column(t0.a1, t1.a1, t2.a1, t3.a1), c.a1);
    MulXor4(Column(t0.a2, t1.a2, t2.a2, t3.a2), c.a2);
    MulXor4(Column(t0.a3, t1.a3, t2.a3, t3.a3), c.a3);
  }

  function TimesRow(m: Column, q: bv8): Column {
    Column(Times(m.a0, q), Times(m.a1, q), Times(m.a2, q), Times(m.a3, q))
  }

  function RowTimes(p: bv8, m: Column): Column {
    Column(Times(p, m.a0), Times(p, m.a1), Times(p, m.a2), Times(p, m.a3))
  }

  lemma ScalesSmall(c: Column, m: Column, q: bv8)
    requires Small(m.a0) && Small(m.a1) && Small(m.a2) && Small(m.a3) && q < 0x80
    ensures Scales(c, m, q, TimesRow(m, q))
  {
    hide Mul, Times;
    SmallAssoc(c.a0, m.a0, q);
    SmallAssoc(c.a1, m.a1, q);
    SmallAssoc(c.a2, m.a2, q);
    SmallAssoc(c.a3, m.a3, q);
  }

  lemma ScalesBySmall(c: Column, m: Column, p: bv8)
    requires Small(p) && m.a0 < 0x80 && m.a1 < 0x80 && m.a2 < 0x80 && m.a3 < 0x80
    ensures Scales(c, m, p, RowTimes(p, m))
  {
    hide Mul, Times;
    SmallAssoc(c.a0, p, m.a0);
    SmallAssoc(c.a1, p, m.a1);
    SmallAssoc(c.a2, p, m.a2);
    SmallAssoc(c.a3, p, m.a3);
  }

  /** The sum of four rows. */
  function SumRows(t0: Column, t1: Column, t2: Column, t3: Column): Column {
    Column(Xor4(Column(t0.a0, t1.a0, t2.a0, t3.a0)), Xor4(Column(t0.a1, t1.a1, t2.a1, t3.a1)),
           Xor4(Column(t0.a2, t1.a2, t2.a2, t3.a2)), Xor4(Column(t0.a3, t1.a3, t2.a3, t3.a3)))
  }

  /** Row `s` times the matrix of mix_columns. */
  function TimesForward(s: Column): Column {
    var f1, f2, f3 := Turn(FORWARD), Turn(Turn(FORWARD)), Turn(Turn(Turn(FORWARD)));
    SumRows(TimesRow(FORWARD, s.a0), TimesRow(f1, s.a1), TimesRow(f2, s.a2), TimesRow(f3, s.a3))
  }

  /** Row `s` times the matrix of mix_columns_inv. */
  function TimesBackward(s: Column): Column {
    var b1, b2, b3 := Turn(BACKWARD), Turn(Turn(BACKWARD)), Turn(Turn(Turn(BACKWARD)));
    SumRows(RowTimes(s.a0, BACKWARD), RowTimes(s.a1, b1), RowTimes(s.a2, b2), RowTimes(s.a3, b3))
  }

  lemma RowOfInverse(c: Column, s: Column)
    requires s.a0 < 0x80 && s.a1 < 0x80 && s.a2 < 0x80 && s.a3 < 0x80
    ensures Dot(Circulant(c, FORWARD), s) == Dot(c, TimesForward(s))
  {
    hide Mul, Times, Xor4, Scales, Dot;
    var f1, f2, f3 := Turn(FORWARD), Turn(Turn(FORWARD)), Turn(Turn(Turn(FORWARD)));
    ScalesSmall(c, FORWARD, s.a0);
    ScalesSmall(c, f1, s.a1);
    ScalesSmall(c, f2, s.a2);
    ScalesSmall(c, f3, s.a3);
    DotDot(c, FORWARD, f1, f2, f3, s, TimesRow(FORWARD, s.a0), TimesRow(f1, s.a1), TimesRow(f2, s.a2), TimesRow(f3,
      s.a3));
  }

  lemma DotUnit(c: Column)
    ensures Dot(c, Column(1, 0, 0, 0)) == c.a0 && Dot(c, Column(0, 1, 0, 0)) == c.a1
    ensures Dot(c, Column(0, 0, 1, 0)) == c.a2 && Dot(c, Column(0, 0, 0, 1)) == c.a3
  {
    hide Mul, Xor, Xtime;
    MulSmall(c.a0);
    MulSmall(c.a1);
    MulSmall(c.a2);
    MulSmall(c.a3);
    XorZero(0);
    XorZero(c.a0);
    XorZero(c.a1);
    XorZero(c.a2);
    XorZero(c.a3);
  }

  // The products of the two matrices, row after row, are unit rows.

  lemma UnitForward0()
    ensures TimesForward(BACKWARD) == Column(1, 0, 0, 0)
  {}

  lemma UnitForward1()
    ensures TimesForward(Turn(BACKWARD)) == Column(0, 1, 0, 0)
  {}

  lemma UnitForward2()
    ensures TimesForward(Turn(Turn(BACKWARD))) == Column(0, 0, 1, 0)
  {}

  lemma UnitForward3()
    ensures TimesForward(Turn(Turn(Turn(BACKWARD)))) == Column(0, 0, 0, 1)
  {}

  lemma UnitBackward0()
    ensures TimesBackward(FORWARD) == Column(1, 0, 0, 0)
  {}

  lemma UnitBackward1()
    ensures TimesBackward(Turn(FORWARD)) == Column(0, 1, 0, 0)
  {}

  lemma UnitBackward2()
    ensures TimesBackward(Turn(Turn(FORWARD))) == Column(0, 0, 1, 0)
  {}

  lemma UnitBackward3()
    ensures TimesBackward(Turn(Turn(Turn(FORWARD)))) == Column(0, 0, 0, 1)
  {}

  /** mix_columns_inv undoes mix_columns. */
  lemma InvMixMix(c: Column)
    ensures InvMix(Mix(c)) == c
  {
    hide Mul, Dot, Mix, TimesForward;
    MixIsCirculant(c);
    DotUnit(c);
    UnitForward0();
    UnitForward1();
    UnitForward2();
    UnitForward3();
    RowOfInverse(c, BACKWARD);
    RowOfInverse(c, Turn(BACKWARD));
    RowOfInverse(c, Turn(Turn(BACKWARD)));
    RowOfInverse(c, Turn(Turn(Turn(BACKWARD))));
  }

  lemma RowOfForward(c: Column, s: Column)
    requires Small(s.a0) && Small(s.a1) && Small(s.a2) && Small(s.a3)
    ensures Dot(Circulant(c, BACKWARD), s) == Dot(c, TimesBackward(s))
  {
    hide Mul, Times, Xor4, Scales, Dot;
    var b1, b2, b3 := Turn(BACKWARD), Turn(Turn(BACKWARD)), Turn(Turn(Turn(BACKWARD)));
    ScalesBySmall(c, BACKWARD, s.a0);
    ScalesBySmall(c, b1, s.a1);
    ScalesBySmall(c, b2, s.a2);
    ScalesBySmall(c, b3, s.a3);
    DotDot(c, BACKWARD, b1, b2, b3, s, RowTimes(s.a0, BACKWARD), RowTimes(s.a1, b1), RowTimes(s.a2, b2),
      RowTimes(s.a3, b3));
  }

  /** mix_columns undoes mix_columns_inv. */
  lemma MixInvMix(c: Column)
    ensures Mix(InvMix(c)) == c
  {
    hide Mul, Dot, Mix, TimesBackward;
    MixIsCirculant(InvMix(c));
    DotUnit(c);
    UnitBackward0();
    UnitBackward1();
    UnitBackward2();
    UnitBackward3();
    RowOfForward(c, FORWARD);
    RowOfForward(c, Turn(FORWARD));
    RowOfForward(c, Turn(Turn(FORWARD)));
    RowOfForward(c, Turn(Turn(Turn(FORWARD))));
  }
}
