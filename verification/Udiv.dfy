/**
 * 64-bit division by shifting and subtracting (libkern/libkern/udivdi3.c).
 */
module Udiv {
  import opened Common
  import opened Arith

  /** `x << 1` on an unsigned long long. */
  function Double(x: nat): (r: nat)
    ensures r < TWO64 && (x < TWO63 ==> r == 2 * x)
  {
    2 * x % TWO64
  }

  function Pow2(k: nat): (r: nat)
    ensures r > 0
  {
    if k == 0 then 1 else 2 * Pow2(k - 1)
  }

  /** `a | bit`, for a power of two. */
  function OrBit(a: nat, bit: nat): nat
    requires bit > 0
  {
    if a / bit % 2 == 1 then a else a + bit
  }

  lemma OrAdds(t: nat, bit: nat)
    requires bit > 0
    ensures OrBit(2 * (bit * t), bit) == 2 * (bit * t) + bit
  {
    Distribute(bit, t, t);
    ModUnique(2 * (bit * t), bit, 2 * t, 0);
  }

  lemma Halved(d: nat, k: nat)
    requires k > 0
    ensures d * Pow2(k) / 2 == d * Pow2(k - 1) && Pow2(k) / 2 == Pow2(k - 1) && d * Pow2(k) == 2 * (d * Pow2(k - 1))
  {
    Distribute(d, Pow2(k - 1), Pow2(k - 1));
  }

  /** The first loop: how far the divisor can be shifted without losing its top bit. */
  method Align(num: nat, divisor: nat) returns (den: nat, qbit: nat, ghost k: nat)
    requires num < TWO64 && 0 < divisor < TWO64
    ensures qbit == Pow2(k) && den == divisor * qbit < TWO64 && num < 2 * den
  {
    den, qbit, k := divisor, 1, 0;
    while den < TWO63 && den < num
      invariant qbit == Pow2(k) && den == divisor * qbit && 0 < den < TWO64 && qbit <= den
      decreases TWO64 - den
    {
      Halved(divisor, k + 1);
      den := Double(den);
      qbit := Double(qbit);
      k := k + 1;
    }
  }

  /** What the second loop keeps: no unit of the dividend is lost. */
  ghost predicate Balanced(num: nat, divisor: nat, rest: nat, quot: nat, unit: nat) {
    num == rest + divisor * quot && exists t: nat :: quot == unit * t
  }

  lemma Subtract(num: nat, divisor: nat, rest: nat, quot: nat, bit: nat)
    requires bit > 0 && Balanced(num, divisor, rest, quot, 2 * bit) && rest >= divisor * bit
    ensures OrBit(quot, bit) == quot + bit && Balanced(num, divisor, rest - divisor * bit, quot + bit, bit)
  {
    var t: nat :| quot == 2 * bit * t;
    assert quot == 2 * (bit * t);
    OrAdds(t, bit);
    Distribute(divisor, quot, bit);
    Distribute(bit, 2 * t, 1);
    assert quot + bit == bit * (2 * t + 1);
  }

  lemma Weaken(num: nat, divisor: nat, rest: nat, quot: nat, bit: nat)
    requires Balanced(num, divisor, rest, quot, 2 * bit)
    ensures Balanced(num, divisor, rest, quot, bit)
  {
    var t: nat :| quot == 2 * bit * t;
    assert quot == bit * (2 * t);
  }

  /** Before the last `rounds` turns of the second loop. */
  ghost predicate Before(dividend: nat, divisor: nat, num: nat, quot: nat, den: nat, qbit: nat, rounds: nat) {
    if rounds == 0 then qbit == 0 && num < divisor && Balanced(dividend, divisor, num, quot, 1)
    else
      && qbit == Pow2(rounds - 1) && den == divisor * qbit && num < 2 * den
      && Balanced(dividend, divisor, num, quot, 2 * qbit)
  }

  /** One turn of the second loop. */
  lemma Turn(dividend: nat, divisor: nat, num: nat, quot: nat, den: nat, qbit: nat, rounds: nat)
    requires rounds > 0 && Before(dividend, divisor, num, quot, den, qbit, rounds)
    ensures qbit > 0
    ensures if num >= den then Before(dividend, divisor, num - den, OrBit(quot, qbit), den / 2, qbit / 2, rounds - 1)
            else Before(dividend, divisor, num, quot, den / 2, qbit / 2, rounds - 1)
  {
    hide OrBit, Balanced;
    if num >= den {
      Subtract(dividend, divisor, num, quot, qbit);
    } else {
      Weaken(dividend, divisor, num, quot, qbit);
    }
    if rounds > 1 {
      Halved(divisor, rounds - 1);
      assert 2 * (qbit / 2) == qbit;
    }
  }

  /** udivmoddi4: the exact quotient or remainder; 0 when dividing by zero. */
  method UDivMod(dividend: nat, divisor: nat, mod: bool) returns (r: nat)
    requires dividend < TWO64 && divisor < TWO64
    ensures divisor == 0 ==> r == 0
    ensures divisor != 0 ==> r == if mod then dividend % divisor else dividend / divisor
  {
    if divisor == 0 {
      return 0;
    }
    var num: nat, quot: nat := dividend, 0;
    var den: nat, qbit: nat;
    ghost var rounds: nat;
    den, qbit, rounds := Align(num, divisor);
    Start(dividend, divisor, 2 * qbit);
    rounds := rounds + 1;
    assert Before(dividend, divisor, num, quot, den, qbit, rounds);
    hide Before, OrBit;
    while qbit != 0
      invariant Before(dividend, divisor, num, quot, den, qbit, rounds) && (rounds == 0 ==> qbit == 0)
      decreases rounds
    {
      Turn(dividend, divisor, num, quot, den, qbit, rounds);
      if num >= den {
        num := num - den;
        quot := OrBit(quot, qbit);
      }
      den := den / 2;
      qbit := qbit / 2;
      rounds := rounds - 1;
      Last(dividend, divisor, num, quot, den, qbit, rounds);
    }
    Done(dividend, divisor, num, quot, den, rounds);
    r := if mod then num else quot;
  }

  lemma Last(dividend: nat, divisor: nat, num: nat, quot: nat, den: nat, qbit: nat, rounds: nat)
    requires Before(dividend, divisor, num, quot, den, qbit, rounds)
    ensures rounds == 0 <==> qbit == 0
  {}

  lemma Done(dividend: nat, divisor: nat, num: nat, quot: nat, den: nat, rounds: nat)
    requires divisor > 0 && Before(dividend, divisor, num, quot, den, 0, rounds)
    ensures num == dividend % divisor && quot == dividend / divisor
  {
    Last(dividend, divisor, num, quot, den, 0, rounds);
    ModUnique(dividend, divisor, quot, num);
  }

  lemma Start(num: nat, divisor: nat, unit: nat)
    ensures Balanced(num, divisor, num, 0, unit)
  {
    assert 0 == unit * 0;
  }

  // ----------------------------------------------------------------- signed wrappers

  function Abs(x: int): nat { if x < 0 then -x else x }

  /** `r` is what division truncated toward zero leaves over: smaller than the divisor, on the dividend's side. */
  predicate Leftover(num: int, den: int, r: int) { Abs(r) < Abs(den) && (num >= 0 ==> r >= 0) && (num <= 0 ==> r <= 0) }

  lemma Signed(a: nat, b: nat, num: int, den: int)
    requires b > 0 && a == Abs(num) && b == Abs(den)
    ensures var q := if (num < 0) != (den < 0) then 0 - a / b else a / b;
            var r := if num < 0 then 0 - a % b else a % b;
            num == den * q + r && Leftover(num, den, r)
  {
    var q, r := a / b, a % b;
    assert a == b * q + r && r < b;
    Negate(b, q);
    Negate(q, b);
  }

  /** Truncation toward zero is the only quotient with such a leftover. */
  lemma TruncUnique(num: int, den: int, q: int, q': int)
    requires den != 0 && Leftover(num, den, num - den * q) && Leftover(num, den, num - den * q')
    ensures q == q'
  {
    Distribute(den, q - q', q');
    SmallMultiple(den, q - q');
  }

  lemma SmallMultiple(den: int, x: int)
    requires Abs(den * x) < Abs(den)
    ensures x == 0
  {
    var b, y := Abs(den), Abs(x);
    assert Abs(den * x) == b * y by {
      Negate(den, x);
      Negate(x, den);
      Negate(-den, x);
    }
    if y > 0 {
      AtLeastOnce(b, y);
    }
  }

  lemma Negate(a: int, b: int)
    ensures a * -b == -(a * b)
  {}

  /** __divdi3, for operands whose negation is representable: truncates toward zero. */
  method Div(num: int, den: int) returns (q: int)
    requires Abs(num) < TWO63 && Abs(den) < TWO63
    ensures if den == 0 then q == 0 else Leftover(num, den, num - den * q)
  {
    hide Leftover;
    var neg, a, b := false, num, den;
    if a < 0 {
      a, neg := -a, !neg;
    }
    if b < 0 {
      b, neg := -b, !neg;
    }
    var u: int := UDivMod(a, b, false);
    q := if neg then -u else u;
    if den != 0 {
      Signed(a, b, num, den);
    }
  }

  /** __moddi3, likewise. */
  method Mod(num: int, den: int) returns (r: int)
    requires Abs(num) < TWO63 && Abs(den) < TWO63
    ensures if den == 0 then r == 0 else Leftover(num, den, r) && exists q :: num == den * q + r
  {
    hide Leftover;
    var neg, a, b := false, num, den;
    if a < 0 {
      a, neg := -a, true;
    }
    if b < 0 {
      b := -b;
    }
    var u: int := UDivMod(a, b, true);
    r := if neg then -u else u;
    if den != 0 {
      Signed(a, b, num, den);
    }
  }
}
