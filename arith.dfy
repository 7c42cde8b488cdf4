/** Arithmetic on unbounded naturals shared by every part of the model:
    exponentiation, divisibility, and the laws of exponentiation modulo m
    that every power-tower and modular-exponentiation proof rests on. */
module Arith {

  /** b raised to the power e, without any reduction. */
  function Pow(b: nat, e: nat): nat
    decreases e
  {
    if e == 0 then 1 else b * Pow(b, e - 1)
  }

  lemma {:induction false} PowPositive(b: nat, e: nat)
    requires b > 0
    ensures Pow(b, e) > 0
  {
    if e > 0 {
      PowPositive(b, e - 1);
    }
  }

  lemma {:induction false} MulRotate(a: int, b: int, c: int)
    ensures a * (b * c) == b * (a * c)
  {
  }

  lemma {:induction false} PowAdd(b: nat, x: nat, y: nat)
    ensures Pow(b, x + y) == Pow(b, x) * Pow(b, y)
    decreases y
  {
    if y > 0 {
      PowAdd(b, x, y - 1);
      assert Pow(b, x + y) == b * Pow(b, x + (y - 1));
      MulRotate(b, Pow(b, x), Pow(b, y - 1));
    }
  }

  lemma {:induction false} PowMul(b: nat, x: nat, y: nat)
    ensures Pow(b, x * y) == Pow(Pow(b, x), y)
    decreases y
  {
    if y > 0 {
      PowMul(b, x, y - 1);
      assert x * y == x + x * (y - 1);
      PowAdd(b, x, x * (y - 1));
    }
  }

  lemma {:induction false} PowMonotone(b: nat, x: nat, y: nat)
    requires b > 0 && x <= y
    ensures Pow(b, x) <= Pow(b, y)
    decreases y
  {
    if x < y {
      PowMonotone(b, x, y - 1);
      PowPositive(b, y - 1);
      MulAtLeast(b, Pow(b, y - 1));
    }
  }

  lemma {:induction false} PowStrictMonotone(b: nat, x: nat, y: nat)
    requires b > 1 && x < y
    ensures Pow(b, x) < Pow(b, y)
    decreases y
  {
    PowPositive(b, y - 1);
    MulAtLeast(b - 1, Pow(b, y - 1));
    assert Pow(b, y) == Pow(b, y - 1) + (b - 1) * Pow(b, y - 1);
    if x < y - 1 {
      PowStrictMonotone(b, x, y - 1);
    }
  }

  lemma {:induction false} MulAtLeast(k: int, m: int)
    requires k >= 1 && m >= 0
    ensures k * m >= m
  {
    assert k * m == m + (k - 1) * m;
  }

  /** Division and remainder are determined by their defining equation. */
  lemma {:induction false} DivModUnique(x: int, m: int, q: int, r: int)
    requires m > 0 && 0 <= r < m && x == q * m + r
    ensures x / m == q && x % m == r
  {
    var q', r' := x / m, x % m;
    var d := q - q';
    assert d * m == q * m - q' * m;
    assert d * m == r' - r;
    if d > 0 {
      MulAtLeast(d, m);
    } else if d < 0 {
      MulAtLeast(-d, m);
    }
  }

  lemma {:induction false} ModAddMultiple(k: int, m: int, r: int)
    requires m > 0
    ensures (k * m + r) % m == r % m
  {
    DivModUnique(k * m + r, m, k + r / m, r % m);
  }

  lemma {:induction false} MulMod(a: nat, b: nat, m: nat)
    requires m > 0
    ensures (a * b) % m == ((a % m) * (b % m)) % m
  {
    var qa, ra := a / m, a % m;
    var qb, rb := b / m, b % m;
    calc {
      a * b;
      (qa * m + ra) * (qb * m + rb);
      (qa * qb * m + qa * rb + ra * qb) * m + ra * rb;
    }
    ModAddMultiple(qa * qb * m + qa * rb + ra * qb, m, ra * rb);
  }

  lemma {:induction false} ModMod(a: nat, m: nat)
    requires m > 0
    ensures (a % m) % m == a % m
  {
    DivModUnique(a % m, m, 0, a % m);
  }

  /** Reducing the base before exponentiating does not change the residue. */
  lemma {:induction false} PowModBase(b: nat, e: nat, m: nat)
    requires m > 0
    ensures Pow(b % m, e) % m == Pow(b, e) % m
    decreases e
  {
    if e > 0 {
      PowModBase(b, e - 1, m);
      calc {
        Pow(b % m, e) % m;
        ((b % m) * Pow(b % m, e - 1)) % m;
        { MulMod(b % m, Pow(b % m, e - 1), m); ModMod(b, m); }
        ((b % m) * (Pow(b % m, e - 1) % m)) % m;
        ((b % m) * (Pow(b, e - 1) % m)) % m;
        { MulMod(b, Pow(b, e - 1), m); }
        (b * Pow(b, e - 1)) % m;
      }
    }
  }

  /** Nested modular exponentiation multiplies the exponents. */
  lemma {:induction false} PowPowMod(a: nat, x: nat, y: nat, m: nat)
    requires m > 0
    ensures Pow(Pow(a, x) % m, y) % m == Pow(a, x * y) % m
  {
    PowModBase(Pow(a, x), y, m);
    PowMul(a, x, y);
  }

  /** The product of two residues reduced again is the residue of the product
      of the powers, i.e. of the power of the summed exponent. */
  lemma {:induction false} PowAddMod(a: nat, x: nat, y: nat, m: nat)
    requires m > 0
    ensures ((Pow(a, x) % m) * (Pow(a, y) % m)) % m == Pow(a, x + y) % m
  {
    MulMod(Pow(a, x), Pow(a, y), m);
    PowAdd(a, x, y);
  }

  /** Splitting a remainder by a product modulus b*k into the remainder by b
      and the remainder of the quotient by k. */
  lemma {:induction false} ModSplit(d: nat, b: nat, k: nat)
    requires b > 0 && k > 0
    ensures d % (b * k) == b * ((d / b) % k) + d % b
  {
    var h, r := d / b, d % b;
    var q, s := h / k, h % k;
    assert d == b * h + r;
    assert h == q * k + s;
    MulDistributes(b, q * k, s);
    MulRotate(b, q, k);
    assert d == q * (b * k) + (b * s + r);
    MulDistributes(b, s, k - 1 - s);
    MulDistributes(b, k - 1, 1);
    assert b * s + r < b * k;
    DivModUnique(d, b * k, q, b * s + r);
  }

  lemma {:induction false} MulDistributes(a: int, x: int, y: int)
    ensures a * (x + y) == a * x + a * y
  {
  }

  lemma {:induction false} Pow2To16()
    ensures Pow(2, 16) == 65536
  {
    assert Pow(2, 4) == 16;
    PowAdd(2, 4, 4);
    PowAdd(2, 8, 8);
  }

  /** Multiplication by a natural is monotone. */
  lemma {:induction false} MulMonotoneNat(c: nat, k: nat, n: nat)
    requires k <= n
    ensures c * k <= c * n
  {
    MulDistributes(c, k, n - k);
  }

  lemma {:induction false} PowOne(q: nat)
    ensures Pow(1, q) == 1
  {
    if q > 0 {
      PowOne(q - 1);
    }
  }

  /** Exponents that agree modulo t give the same power when key^t is 1
      modulo m; with t the order of the group this is Euler's theorem, taken
      here as a hypothesis. */
  lemma {:induction false} ExponentReduction(key: nat, x: nat, t: nat, m: nat)
    requires t > 0 && m > 0 && Pow(key, t) % m == 1 % m
    ensures Pow(key, x) % m == Pow(key, x % t) % m
  {
    var q, r := x / t, x % t;
    assert x == t * q + r;
    PowAdd(key, t * q, r);
    PowMul(key, t, q);
    PowModBase(Pow(key, t), q, m);
    PowModBase(1, q, m);
    PowOne(q);
    MulMod(Pow(Pow(key, t), q), Pow(key, r), m);
    MulMod(1, Pow(key, r), m);
  }

  lemma {:induction false} ModSmall(v: nat, m: nat)
    requires v < m
    ensures v % m == v && v / m == 0
  {
    DivModUnique(v, m, 0, v);
  }
}
