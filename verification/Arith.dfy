/** Remainders by a variable modulus. */
module Arith {

  lemma Distribute(m: int, a: int, b: int)
    ensures m * (a + b) == m * a + m * b
  {}

  lemma AtLeastOnce(m: nat, d: nat)
    requires d >= 1
    ensures m * d >= m
  {}

  /** A product with a whole number is not strictly between 0 and `m`. */
  lemma Between(m: int, d: int)
    requires m > 0
    ensures m * d <= 0 || m * d >= m
  {
    if d >= 1 {
      AtLeastOnce(m, d);
    }
  }

  lemma ModUnique(x: int, m: nat, q: int, r: nat)
    requires m > 0 && r < m && x == m * q + r
    ensures x % m == r && x / m == q
  {
    var q', r' := x / m, x % m;
    assert x == m * q' + r';
    Distribute(m, q - q', q');
    Distribute(m, q' - q, q);
    if q < q' {
      AtLeastOnce(m, q' - q);
    } else if q > q' {
      AtLeastOnce(m, q - q');
    }
  }

  lemma ModStep(x: nat, m: nat)
    requires m > 0
    ensures (x + 1) % m == if x % m + 1 < m then x % m + 1 else 0
  {
    var q, r := x / m, x % m;
    assert x == m * q + r;
    if r + 1 < m {
      ModUnique(x + 1, m, q, r + 1);
    } else {
      Distribute(m, q, 1);
      ModUnique(x + 1, m, q + 1, 0);
    }
  }

  lemma ModAdd(x: int, y: int, m: nat)
    requires m > 0
    ensures (x % m + y) % m == (x + y) % m
  {
    var q, z := x / m, x % m + y;
    var q' := z / m;
    assert x == m * q + x % m && z == m * q' + z % m;
    Distribute(m, q, q');
    ModUnique(x + y, m, q + q', z % m);
  }

  /** Numbers less than `m` apart have different remainders. */
  lemma ModDiffers(x: int, y: int, m: nat)
    requires m > 0 && x < y < x + m
    ensures x % m != y % m
  {
    var p, q := x / m, y / m;
    assert x == m * p + x % m && y == m * q + y % m;
    Distribute(m, q - p, p);
    Between(m, q - p);
  }
}
