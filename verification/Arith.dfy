/** Powers of two and the few facts about `%` that the hardware models share. */
module Arith {

  function Pow2(n: nat): (p: nat)
    ensures p >= 1
  {
    if n == 0 then 1 else 2 * Pow2(n - 1)
  }

  /** One more, in a counter of `m` values. */
  function Next(x: nat, m: nat): (y: nat) { if x + 1 == m then 0 else x + 1 }

  lemma {:induction false} Pow2Adds(a: nat, b: nat)
    ensures Pow2(a + b) == Pow2(a) * Pow2(b)
  {
    if a == 0 {
    } else {
      Pow2Adds(a - 1, b);
      assert Pow2(a + b) == 2 * Pow2(a - 1 + b);
    }
  }

  lemma MulGrows(k: int, m: int)
    requires k >= 1 && m >= 0
    ensures k * m >= m
  {
  }

  lemma MulMonotone(a: int, b: int, m: int)
    requires a <= b && m >= 0
    ensures a * m <= b * m
  {
    MulDistributes(b, a, m);
    assert (b - a) * m >= 0;
  }

  lemma MulDistributes(a: int, b: int, m: int)
    ensures (a - b) * m == a * m - b * m
    ensures (a + b) * m == a * m + b * m
  {
  }

  lemma MulAssociative(a: int, b: int, c: int)
    ensures a * (b * c) == (a * b) * c
  {
  }

  /** A multiple of `m` strictly between `-m` and `m` is zero. */
  lemma SmallMultipleIsZero(k: int, m: int)
    requires m > 0 && -m < k * m < m
    ensures k == 0
  {
    if k >= 1 {
      MulGrows(k, m);
    } else if k <= -1 {
      MulDistributes(0, k, m);
      MulGrows(-k, m);
    }
  }

  /** Quotient and remainder are determined by their defining equation. */
  lemma DivModUnique(x: int, m: int, q: int, r: int)
    requires m > 0 && 0 <= r < m && x == q * m + r
    ensures x / m == q && x % m == r
  {
    var (q', r') := (x / m, x % m);
    assert x == q' * m + r';
    MulDistributes(q', q, m);
    SmallMultipleIsZero(q' - q, m);
  }

  /** Adding a multiple of the modulus does not change the remainder. */
  lemma ModAddMultiple(x: int, k: int, m: int)
    requires m > 0
    ensures (x + k * m) % m == x % m
  {
    DivModUnique(x + k * m, m, x / m + k, x % m);
  }

  lemma ModAbsorbs(x: int, k: int, m: int)
    requires m > 0
    ensures (x % m + k) % m == (x + k) % m
  {
    ModAddMultiple(x % m + k, x / m, m);
  }

  lemma ScaleSplit(k: int, q: int, r: int, m: int)
    ensures k * (q * m + r) == k * r + (k * q) * m
  {
    MulAssociative(k, q, m);
  }

  lemma ModScaleAbsorbs(k: nat, x: nat, d: nat, m: nat)
    requires m > 0
    ensures (k * (x % m) + d) % m == (k * x + d) % m
  {
    ScaleSplit(k, x / m, x % m, m);
    ModOfShift(k * x + d, k * (x % m) + d, k * (x / m), m);
  }

  lemma ModOfShift(y: int, z: int, t: int, m: int)
    requires m > 0 && y == z + t * m
    ensures z % m == y % m
  {
    ModAddMultiple(z, t, m);
  }

  /** Two numbers less than one modulus apart are congruent only if equal. */
  lemma CongruentAndClose(x: int, y: int, m: int)
    requires m > 0 && x <= y < x + m
    ensures x % m == y % m <==> x == y
  {
    if x % m == y % m {
      MulDistributes(y / m, x / m, m);
      SmallMultipleIsZero(y / m - x / m, m);
    }
  }

  /** A step past a remainder either carries on or wraps to zero. */
  lemma ModSuccessor(x: int, m: int)
    requires m > 0
    ensures (x + 1) % m == if x % m == m - 1 then 0 else x % m + 1
  {
    if x % m == m - 1 {
      DivModUnique(x + 1, m, x / m + 1, 0);
    } else {
      DivModUnique(x + 1, m, x / m, x % m + 1);
    }
  }

  /** Reducing modulo `a * m` first does not disturb the residue modulo `m`. */
  lemma ModOfModMultiple(x: int, a: int, m: int)
    requires a > 0 && m > 0
    ensures a * m > 0 && (x % (a * m)) % m == x % m
  {
    assert a * m > 0;
    var q := x / (a * m);
    assert x == q * (a * m) + x % (a * m);
    assert q * (a * m) == (q * a) * m;
    ModAddMultiple(x % (a * m), q * a, m);
  }

  /** A common factor cancels in a quotient. */
  lemma DivCancel(a: nat, b: nat, c: nat)
    requires b > 0 && c > 0
    ensures b * c > 0 && (a * c) / (b * c) == a / b
  {
    var (q, r) := (a / b, a % b);
    assert a == q * b + r;
    MulDistributes(q * b, -r, c);
    assert q * b * c == q * (b * c);
    MulMonotone(r + 1, b, c);
    MulDistributes(r, 1, c);
    assert b * c > 0;
    DivModUnique(a * c, b * c, q, r * c);
  }

  /** Dividing twice is dividing by the product. */
  lemma DivDiv(x: nat, a: nat, b: nat)
    requires a > 0 && b > 0
    ensures a * b > 0 && (x / a) / b == x / (a * b)
  {
    var (y, r) := (x / a, x % a);
    var (q, t) := (y / b, y % b);
    assert x == y * a + r && y == q * b + t;
    MulDistributes(q * b, -t, a);
    assert q * b * a == q * (a * b);
    MulMonotone(t + 1, b, a);
    MulDistributes(t, 1, a);
    assert b * a == a * b > 0;
    DivModUnique(x, a * b, q, t * a + r);
  }
}
