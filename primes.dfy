/** The exponent table of the power tower: `get_primes_starting_with`, the
    first `amount` primes reached by stepping by two from an odd start; the
    generator asks for 16 of them above 1025, the encoder for 64. */
module Primes {
  import opened Arith

  /** Trial-division primality, the predicate sympy's isprime decides. */
  predicate IsPrime(n: nat)
  {
    n >= 2 && NoDivisorFrom(n, 2)
  }

  /** No d' in [d, n) divides n, tried in increasing order. */
  predicate NoDivisorFrom(n: nat, d: nat)
    requires d >= 2
    decreases n - d
  {
    d >= n || (n % d != 0 && NoDivisorFrom(n, d + 1))
  }

  /** The trial divisions say that no number in [d, n) divides n. */
  lemma {:induction false} NoDivisorFromSpec(n: nat, d: nat)
    requires d >= 2
    ensures NoDivisorFrom(n, d) <==> forall e: nat :: d <= e < n ==> n % e != 0
    decreases n - d
  {
    if d < n {
      NoDivisorFromSpec(n, d + 1);
    }
  }

  /** ps lists, in increasing order, odd primes above start, and no odd
      prime between start and its last element is missing. */
  ghost predicate OddPrimesAbove(ps: seq<nat>, start: nat)
  {
    && (forall k :: 0 <= k < |ps| ==> IsPrime(ps[k]) && ps[k] > start && ps[k] % 2 == 1)
    && (forall k, l :: 0 <= k < l < |ps| ==> ps[k] < ps[l])
    && (forall x: nat :: |ps| > 0 && start < x <= ps[|ps| - 1] && x % 2 == 1 && IsPrime(x) ==> x in ps)
  }

  /** The list grown by get_primes_starting_with: starting at the odd start,
      i steps by two and every prime it meets is appended. The loop can only
      stop because there are infinitely many odd primes (OddPrimeAbove). */
  method GetPrimesStartingWith(start: nat, amount: nat) returns (primes: seq<nat>)
    requires start % 2 == 1
    ensures |primes| == amount && OddPrimesAbove(primes, start)
  {
    primes := [];
    var i := start;
    ghost var p := OddPrimeAbove(i);
    while |primes| < amount
      invariant |primes| <= amount
      invariant start <= i && i % 2 == 1 && (i - start) % 2 == 0
      invariant primes == OddPrimesIn(start, i)
      invariant |primes| < amount ==> i < p && IsPrime(p) && p % 2 == 1
      decreases amount - |primes|, p - i
    {
      i := i + 2;
      var next := if IsPrime(i) then primes + [i] else primes;
      p := ScanAdvance(primes, amount, i - 2, p, next);
      primes := next;
    }
    OddPrimesInScanned(start, i);
    ScannedGives(primes, start, i);
  }

  /** The loop body's bound: while the list is short there is an odd prime
      ahead of i + 2, the old one unless i + 2 was just appended. */
  lemma {:induction false} ScanAdvance(ps: seq<nat>, amount: nat, i: nat, p: nat, next: seq<nat>) returns (p': nat)
    requires |ps| < amount && i < p && IsPrime(p) && p % 2 == 1 && i % 2 == 1
    requires next == if IsPrime(i + 2) then ps + [i + 2] else ps
    ensures |next| <= amount
    ensures |next| < amount ==> i + 2 < p' && IsPrime(p') && p' % 2 == 1
    ensures |next| == |ps| ==> p' == p
  {
    if IsPrime(i + 2) {
      p' := OddPrimeAbove(i + 2);
    } else {
      p' := p;
    }
  }

  /** The odd primes in (start, i], in increasing order, for i reached from
      start in steps of two. */
  ghost function OddPrimesIn(start: nat, i: nat): seq<nat>
    requires start <= i && (i - start) % 2 == 0
    decreases i - start
  {
    if i == start then [] else OddPrimesIn(start, i - 2) + (if IsPrime(i) then [i] else [])
  }

  lemma {:induction false} OddPrimesInScanned(start: nat, i: nat)
    requires start <= i && i % 2 == 1 && (i - start) % 2 == 0
    ensures Scanned(OddPrimesIn(start, i), start, i)
    decreases i - start
  {
    if i > start {
      OddPrimesInScanned(start, i - 2);
      ScanStep(OddPrimesIn(start, i - 2), start, i - 2, OddPrimesIn(start, i));
    }
  }

  /** The loop invariant after scanning the odd numbers up to i: the list
      holds, in increasing order, exactly the odd primes in (start, i]. */
  ghost predicate Scanned(ps: seq<nat>, start: nat, i: nat)
  {
    && (forall k :: 0 <= k < |ps| ==> IsPrime(ps[k]) && start < ps[k] <= i && ps[k] % 2 == 1)
    && (forall k, l :: 0 <= k < l < |ps| ==> ps[k] < ps[l])
    && (forall x: nat :: start < x <= i && x % 2 == 1 && IsPrime(x) ==> x in ps)
  }

  /** One step of the scan: i moves on by two and i + 2 is appended when it
      is prime. */
  lemma {:induction false} ScanStep(ps: seq<nat>, start: nat, i: nat, ps': seq<nat>)
    requires start <= i && i % 2 == 1 && Scanned(ps, start, i)
    requires ps' == if IsPrime(i + 2) then ps + [i + 2] else ps
    ensures Scanned(ps', start, i + 2)
  {
    forall k | 0 <= k < |ps'|
      ensures IsPrime(ps'[k]) && start < ps'[k] <= i + 2 && ps'[k] % 2 == 1
    {
      if k < |ps| {
        assert ps'[k] == ps[k];
      }
    }
    forall k, l | 0 <= k < l < |ps'|
      ensures ps'[k] < ps'[l]
    {
      if l < |ps| {
        assert ps'[k] == ps[k] && ps'[l] == ps[l];
      } else {
        assert ps'[k] == ps[k] && ps[k] <= i;
      }
    }
    forall x: nat | start < x <= i + 2 && x % 2 == 1 && IsPrime(x)
      ensures x in ps'
    {
      if x <= i {
        assert x in ps;
      } else {
        assert x == i + 2;
      }
    }
  }

  lemma {:induction false} ScannedGives(ps: seq<nat>, start: nat, i: nat)
    requires Scanned(ps, start, i)
    ensures OddPrimesAbove(ps, start)
  {
  }

  /** The specification pins the list down: two lists of odd primes above
      start of the same length are equal, so the method's result is the
      first `amount` odd primes above start. */
  lemma {:induction false} OddPrimesAboveUnique(a: seq<nat>, b: seq<nat>, start: nat)
    requires OddPrimesAbove(a, start) && OddPrimesAbove(b, start) && |a| == |b|
    ensures a == b
  {
    forall k | 0 <= k < |a|
      ensures a[k] == b[k]
    {
      SameUpTo(a, b, start, k);
    }
  }

  lemma {:induction false} SameUpTo(a: seq<nat>, b: seq<nat>, start: nat, k: nat)
    requires OddPrimesAbove(a, start) && OddPrimesAbove(b, start) && |a| == |b|
    requires k < |a|
    ensures forall j :: 0 <= j <= k ==> a[j] == b[j]
  {
    if k > 0 {
      SameUpTo(a, b, start, k - 1);
    }
    MissingBelow(a, b, start, k);
    MissingBelow(b, a, start, k);
  }

  /** If a and b agree below k, then a[k] >= b[k]: either a[k] lies past b's
      last element, or it is an odd prime within b's range and so occurs in
      b, at an index no smaller than k since b's first k entries are
      a's, all below a[k]. */
  lemma {:induction false} MissingBelow(a: seq<nat>, b: seq<nat>, start: nat, k: nat)
    requires OddPrimesAbove(a, start) && OddPrimesAbove(b, start) && |a| == |b|
    requires k < |a| && forall j :: 0 <= j < k ==> a[j] == b[j]
    ensures a[k] >= b[k]
  {
    if a[k] <= b[|b| - 1] {
      assert a[k] in b;
      var j :| 0 <= j < |b| && b[j] == a[k];
      assert forall i :: 0 <= i < k ==> b[i] < a[k];
      assert k <= j;
    } else {
      assert b[k] <= b[|b| - 1];
    }
  }

  function Factorial(n: nat): (f: nat)
    ensures f > 0
  {
    if n == 0 then 1 else n * Factorial(n - 1)
  }

  /** n! is a multiple of every d in [1, n]. */
  lemma {:induction false} FactorialMultiple(n: nat, d: nat) returns (k: nat)
    requires 1 <= d <= n
    ensures Factorial(n) == d * k
  {
    if d == n {
      k := Factorial(n - 1);
    } else {
      var k' := FactorialMultiple(n - 1, d);
      k := k' * n;
      MulRotate(d, k', n);
    }
  }

  /** Every n >= 2 has a prime divisor. */
  lemma {:induction false} PrimeDivisor(n: nat) returns (p: nat)
    requires n >= 2
    ensures IsPrime(p) && n % p == 0
    decreases n
  {
    if IsPrime(n) {
      p := n;
    } else {
      NoDivisorFromSpec(n, 2);
      var d: nat :| 1 < d < n && n % d == 0;
      p := PrimeDivisor(d);
      DividesTransitive(p, d, n);
    }
  }

  /** A divisor of a divisor of n divides n. */
  lemma {:induction false} DividesTransitive(p: nat, d: nat, n: nat)
    requires p > 0 && d > 0 && d % p == 0 && n % d == 0
    ensures n % p == 0
  {
    var a, b := n / d, d / p;
    assert d == b * p;
    assert n == a * d;
    assert n == (a * b) * p by {
      MulRotate(a, b, p);
    }
    ModAddMultiple(a * b, p, 0);
  }

  /** Euclid: a prime divisor of n! + 1 lies above n. */
  lemma {:induction false} PrimeAbove(n: nat) returns (p: nat)
    ensures IsPrime(p) && p > n
  {
    var m := Factorial(n) + 1;
    p := PrimeDivisor(m);
    forall d: nat | 2 <= d <= n
      ensures m % d == 1
    {
      FactorialPlusOne(n, d);
    }
  }

  /** n! + 1 leaves remainder 1 modulo every d in [2, n]. */
  lemma {:induction false} FactorialPlusOne(n: nat, d: nat)
    requires 2 <= d <= n
    ensures (Factorial(n) + 1) % d == 1
  {
    var k := FactorialMultiple(n, d);
    assert Factorial(n) + 1 == k * d + 1;
    ModAddMultiple(k, d, 1);
    ModSmall(1, d);
  }

  /** Above every n there is an odd prime. */
  lemma {:induction false} OddPrimeAbove(n: nat) returns (p: nat)
    ensures IsPrime(p) && p > n && p % 2 == 1
  {
    p := PrimeAbove(if n < 2 then 2 else n);
    assert p % 2 != 0;
  }
}
