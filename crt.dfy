/** The Chinese-remainder exponentiation of the proof of concept (exp.py):
    a^b modulo p*q from the two half-size powers modulo p and modulo q,
    recombined with Garner's formula. */
module Crt {
  import opened Arith
  import opened Wrappers
  import opened Encoder

  /** `powmod(a, b, modulus, prime_1, prime_2)`. gmpy2 raises for a zero
      modulus of f_mod or powmod (p or q equal to 1, or modulus 0), for
      invert(q, 0), and when q has no inverse modulo p; each of these is None. */
  function PowModCrt(a: nat, b: nat, modulus: nat, p: nat, q: nat): (r: Option<nat>)
    ensures p <= 1 || q <= 1 || modulus == 0 ==> r.None?
    ensures p > 1 && q > 1 && modulus > 0 ==> (r.None? <==> !exists v: nat :: IsInverse(q, v, p))
    ensures r.Some? ==> r.value < modulus
  {
    if p <= 1 || q <= 1 || modulus == 0 then None
    else
      match ModularInverse(q, p)
      case None => None
      case Some(qInv) =>
        var m1 := Pow(a, b % (p - 1)) % p;
        var m2 := Pow(a, b % (q - 1)) % q;
        var sub := (qInv * (m1 - m2)) % p;
        Some((m2 + sub * q) % modulus)
  }

  /** q * q^-1 is one more than a multiple of p. */
  lemma {:induction false} InverseMultiple(q: nat, qInv: nat, p: nat) returns (k: int)
    requires p > 1 && IsInverse(q, qInv, p)
    ensures q * qInv == 1 + p * k
  {
    ModSmall(1, p);
    k := (q * qInv) / p;
  }

  /** With modulus p*q, the recombined value is m2 + sub*q itself, it is m2
      modulo q and m1 modulo p: the two half-size residues are kept. */
  lemma {:induction false} CrtResidues(a: nat, b: nat, p: nat, q: nat)
    requires p > 1 && q > 1 && ModularInverse(q, p).Some?
    ensures PowModCrt(a, b, p * q, p, q).Some?
    ensures PowModCrt(a, b, p * q, p, q).value % p == Pow(a, b % (p - 1)) % p
    ensures PowModCrt(a, b, p * q, p, q).value % q == Pow(a, b % (q - 1)) % q
  {
    var qInv := ModularInverse(q, p).value;
    var m1 := Pow(a, b % (p - 1)) % p;
    var m2 := Pow(a, b % (q - 1)) % q;
    var diff: int := m1 - m2;
    var sub := (qInv * diff) % p;
    var j := (qInv * diff) / p;
    var x := m2 + sub * q;
    assert PowModCrt(a, b, p * q, p, q) == Some(x % (p * q));
    GarnerBound(m2, sub, q, p);
    ModSmall(x, p * q);
    DivModUnique(x, q, sub, m2);
    var k := InverseMultiple(q, qInv, p);
    GarnerResidue(m1, m2, qInv, q, p, k, j, sub);
    ModAddMultiple(k * diff - j * q, p, m1);
    ModSmall(m1, p);
  }

  /** m2 + sub*q stays below p*q for residues m2 < q and sub < p. */
  lemma {:induction false} GarnerBound(m2: nat, sub: nat, q: nat, p: nat)
    requires m2 < q && sub < p
    ensures m2 + sub * q < p * q
  {
    MulDistributes(q, sub, p - sub);
    MulAtLeast(p - sub, q);
  }

  /** Garner's step: with q*qi = 1 + p*k, adding sub*q to m2, where sub is
      qi*(m1 - m2) reduced modulo p, lands on m1 plus a multiple of p. */
  lemma {:induction false} GarnerResidue(m1: int, m2: int, qi: int, q: int, p: int, k: int, j: int, sub: int)
    requires q * qi == 1 + p * k && qi * (m1 - m2) == p * j + sub
    ensures m2 + sub * q == (k * (m1 - m2) - j * q) * p + m1
  {
    var diff := m1 - m2;
    calc {
      sub * q;
      (qi * diff - p * j) * q;
      { MulDistributes(q, qi * diff, -(p * j)); }
      q * (qi * diff) - q * (p * j);
      { MulRotate(q, qi, diff); MulRotate(q, p, j); }
      (q * qi) * diff - p * (j * q);
      (1 + p * k) * diff - p * (j * q);
      { MulDistributes(diff, 1, p * k); MulRotate(p, k, diff); }
      diff + p * (k * diff) - p * (j * q);
      { MulDistributes(p, k * diff, -(j * q)); }
      diff + (k * diff - j * q) * p;
    }
  }

  /** Two numbers that agree modulo p and modulo q agree modulo p*q when q
      is invertible modulo p. */
  lemma {:induction false} CrtUnique(x: nat, y: nat, p: nat, q: nat, qInv: nat)
    requires p > 1 && q > 1 && IsInverse(q, qInv, p)
    requires x % p == y % p && x % q == y % q
    ensures x % (p * q) == y % (p * q)
  {
    var s := x / p - y / p;
    var t := x / q - y / q;
    MultipleOfDifference(x, y, p);
    MultipleOfDifference(x, y, q);
    var k := InverseMultiple(q, qInv, p);
    CommonMultiple(x - y, p, q, s, t, qInv, k);
    var w := s * qInv - t * k;
    var pq := p * q;
    assert x - y == pq * w;
    assert x == w * pq + y;
    ModAddMultiple(w, pq, y);
  }

  /** Equal remainders modulo m leave a difference that is a multiple of m. */
  lemma {:induction false} MultipleOfDifference(x: nat, y: nat, m: nat)
    requires m > 0 && x % m == y % m
    ensures x - y == m * (x / m - y / m)
  {
    MulDistributes(m, x / m, -(y / m));
  }

  /** A number that is a multiple of p and of q is a multiple of p*q once
      q*qi = 1 + p*k. */
  lemma {:induction false} CommonMultiple(d: int, p: int, q: int, s: int, t: int, qi: int, k: int)
    requires d == p * s && d == q * t && q * qi == 1 + p * k
    ensures d == (p * q) * (s * qi - t * k)
  {
    MulDistributes(p * q, s * qi, -(t * k));
    MulSwapInner(p, q, s, qi);
    MulSwapInner(p, q, k, t);
    MulDistributes(d, 1, p * k);
    assert (q * t) * (p * k) == (p * q) * (t * k) by {
      MulSwapInner(q, t, p, k);
      MulSwapInner(p, q, t, k);
      MulSwapInner(q, p, t, k);
    }
  }

  lemma {:induction false} MulSwapInner(a: int, b: int, c: int, e: int)
    ensures (a * b) * (c * e) == (a * c) * (b * e)
  {
    MulRotate(a, b, c * e);
    MulRotate(b, c, e);
    MulRotate(a, c, b * e);
  }

  /** When a^(p-1) and a^(q-1) are 1 modulo p and q (Fermat's little
      theorem for a base coprime to both primes, taken as a hypothesis) and q
      is invertible modulo p, the CRT power is the ordinary a^b mod p*q. */
  lemma {:induction false} CrtCorrect(a: nat, b: nat, p: nat, q: nat)
    requires p > 1 && q > 1 && ModularInverse(q, p).Some?
    requires Pow(a, p - 1) % p == 1 && Pow(a, q - 1) % q == 1
    ensures PowModCrt(a, b, p * q, p, q) == Some(Pow(a, b) % (p * q))
  {
    var r := PowModCrt(a, b, p * q, p, q);
    CrtResidues(a, b, p, q);
    ModSmall(1, p);
    ModSmall(1, q);
    ExponentReduction(a, b, p - 1, p);
    ExponentReduction(a, b, q - 1, q);
    ModMod(Pow(a, b % (p - 1)), p);
    ModMod(Pow(a, b % (q - 1)), q);
    CrtUnique(r.value, Pow(a, b), p, q, ModularInverse(q, p).value);
    ModSmall(r.value, p * q);
  }
}
