/** Recursive split modular exponentiation (the GMP extension powmod_plus).

    To raise a to the power b modulo m, the exponent is split as
    b = x*x + y with x = floor(sqrt(b)); then a^b = (a^x)^x * a^y.  The two
    "high" calls that compute (a^x)^x share a depth-indexed cache of splits;
    the "low" call for a^y starts a fresh branch with an empty cache.
    Exponents whose bit length is at most 48 go to the primitive modular
    exponentiation directly. */
module PowMod {
  import opened Arith
  import opened Wrappers

  /** Exponents of at most this many bits are handled by the primitive. */
  const Threshold: nat := 48

  /** mpz_sizeinbase(n, 2): the number of binary digits of n, where 0 has one
      digit. */
  function BitLength(n: nat): nat
  {
    if n < 2 then 1 else 1 + BitLength(n / 2)
  }

  /** n has exactly BitLength(n) binary digits. */
  lemma {:induction false} BitLengthBounds(n: nat)
    ensures BitLength(n) >= 1
    ensures n < Pow(2, BitLength(n))
    ensures n == 0 || Pow(2, BitLength(n) - 1) <= n
  {
    if n >= 2 {
      BitLengthBounds(n / 2);
    }
  }

  /** The base case is taken exactly for exponents below 2^48. */
  lemma {:induction false} BaseCaseIff(b: nat)
    ensures BitLength(b) <= Threshold <==> b < Pow(2, Threshold)
  {
    var r := BitLength(b);
    BitLengthBounds(b);
    if r <= Threshold {
      PowMonotone(2, r, Threshold);
    } else {
      PowMonotone(2, Threshold, r - 1);
    }
  }

  /** mpz_sqrt: the integer square root, computed digit pair by digit pair. */
  function Isqrt(n: nat): nat
  {
    if n < 4 then
      (if n == 0 then 0 else 1)
    else
      var h := 2 * Isqrt(n / 4);
      if (h + 1) * (h + 1) <= n then h + 1 else h
  }

  /** Isqrt is the floor of the square root. */
  lemma {:induction false} IsqrtCorrect(n: nat)
    ensures Isqrt(n) * Isqrt(n) <= n < (Isqrt(n) + 1) * (Isqrt(n) + 1)
  {
    if n >= 4 {
      IsqrtCorrect(n / 4);
      IsqrtStep(n, Isqrt(n / 4));
    }
  }

  lemma {:induction false} IsqrtStep(n: nat, s: nat)
    requires s * s <= n / 4 < (s + 1) * (s + 1)
    ensures (2 * s) * (2 * s) <= n < (2 * s + 2) * (2 * s + 2)
  {
    assert (2 * s) * (2 * s) == 4 * (s * s);
    assert (2 * s + 2) * (2 * s + 2) == 4 * ((s + 1) * (s + 1));
  }

  /** One exponent split: b = x*x + y. */
  datatype Split = Split(x: nat, y: nat)

  /** True when (x, y) is the split of b computed at lines 38-40. */
  predicate IsSplitOf(s: Split, b: nat)
  {
    s.x == Isqrt(b) && s.y == b - s.x * s.x
  }

  /** Each split has x*x <= b < (x+1)^2 and y = b - x*x, hence 0 <= y <= 2x. */
  lemma {:induction false} SplitBounds(s: Split, b: nat)
    requires IsSplitOf(s, b)
    ensures s.x * s.x + s.y == b
    ensures b < (s.x + 1) * (s.x + 1)
    ensures s.y <= 2 * s.x
  {
    IsqrtCorrect(b);
    assert (s.x + 1) * (s.x + 1) == s.x * s.x + 2 * s.x + 1;
  }

  /** Above the threshold both sub-exponents are strictly smaller, so the
      recursion terminates. */
  lemma {:induction false} SplitShrinks(s: Split, b: nat)
    requires BitLength(b) > Threshold && IsSplitOf(s, b)
    ensures s.x < b && s.y < b
  {
    BaseCaseIff(b);
    PowMonotone(2, 2, Threshold);
    assert Pow(2, 2) == 4;
    SplitBounds(s, b);
    SquareRootBelow(b, s.x);
  }

  lemma {:induction false} SquareRootBelow(b: nat, x: nat)
    requires b >= 4 && x * x <= b < (x + 1) * (x + 1)
    ensures 1 <= x < b && x * x >= 1
  {
    MulMonotone(x, 1, x);
    if x >= b {
      MulMonotone(x, 4, x);
    }
  }

  lemma {:induction false} MulMonotone(x: nat, y: nat, k: nat)
    requires x >= y
    ensures x * k >= y * k
  {
  }

  /** The recombination at lines 60-61: (a^x)^x * a^y = a^(x*x + y). */
  lemma {:induction false} Recombine(a: nat, b: nat, s: Split, m: nat, o1: nat, o2: nat)
    requires m > 0 && IsSplitOf(s, b)
    requires o1 == Pow(Pow(a, s.x) % m, s.x) % m && o2 == Pow(a, s.y) % m
    ensures (o1 * o2) % m == Pow(a, b) % m
  {
    SplitBounds(s, b);
    PowPowMod(a, s.x, s.x, m);
    PowAddMod(a, s.x * s.x, s.y, m);
  }

  /** The exponent seen at `depth` on a high branch whose top exponent is
      `top`: `depth` applications of the integer square root. */
  function IterIsqrt(top: nat, depth: nat): nat
  {
    if depth == 0 then top else Isqrt(IterIsqrt(top, depth - 1))
  }

  /** Entry d of the two vectors is the split of the exponent seen at depth
      d of the branch started at `top`, stated entry by entry from the last. */
  ghost predicate CacheInvariant(top: nat, sqrts: seq<nat>, squares: seq<nat>)
    decreases |sqrts|
  {
    && |sqrts| == |squares|
    && (|sqrts| > 0 ==>
          && CacheInvariant(top, sqrts[..|sqrts| - 1], squares[..|squares| - 1])
          && IsSplitOf(Split(sqrts[|sqrts| - 1], squares[|squares| - 1]), IterIsqrt(top, |sqrts| - 1)))
  }

  /** Every entry of a valid cache is the split of its depth's exponent. */
  lemma {:induction false} CacheEntry(top: nat, sqrts: seq<nat>, squares: seq<nat>, d: nat)
    requires CacheInvariant(top, sqrts, squares) && d < |sqrts|
    ensures IsSplitOf(Split(sqrts[d], squares[d]), IterIsqrt(top, d))
    decreases |sqrts|
  {
    var n := |sqrts| - 1;
    if d < n {
      CacheEntry(top, sqrts[..n], squares[..n], d);
    }
  }

  /** Appending the split of the exponent at the next depth keeps the cache
      valid. */
  lemma {:induction false} CacheAppend(top: nat, sqrts: seq<nat>, squares: seq<nat>, x: nat, y: nat)
    requires CacheInvariant(top, sqrts, squares)
    requires IsSplitOf(Split(x, y), IterIsqrt(top, |sqrts|))
    ensures CacheInvariant(top, sqrts + [x], squares + [y])
  {
    assert (sqrts + [x])[..|sqrts|] == sqrts;
    assert (squares + [y])[..|squares|] == squares;
  }

  /** The pair of vectors `sqrts`/`squares` owned by one branch of the call
      tree: entry d holds the split of the exponent seen at depth d. */
  class SplitCache {
    var sqrts: seq<nat>
    var squares: seq<nat>
    /** The exponent the branch started with, at depth 0. */
    ghost var top: nat

    ghost predicate Valid()
      reads this
    {
      CacheInvariant(top, sqrts, squares)
    }

    /** vector_setup: an empty cache for a branch whose top exponent is `b`. */
    constructor (ghost b: nat)
      ensures Valid() && top == b
      ensures sqrts == [] && squares == []
    {
      sqrts, squares := [], [];
      top := b;
    }

    /** vector_push_back on both vectors. */
    method Push(x: nat, y: nat)
      modifies this
      ensures sqrts == old(sqrts) + [x] && squares == old(squares) + [y]
      ensures top == old(top)
    {
      sqrts := sqrts + [x];
      squares := squares + [y];
    }
  }

  /** Lines 34-43 with the intended cache rule: reuse the split stored at
      `depth` when there is one, otherwise compute it and append it, which
      places it at index `depth`. */
  method CachedSplit(cache: SplitCache, b: nat, depth: nat) returns (s: Split)
    requires cache.Valid() && depth <= |cache.sqrts|
    requires b == IterIsqrt(cache.top, depth)
    modifies cache
    ensures IsSplitOf(s, b)
    ensures cache.Valid() && cache.top == old(cache.top) && depth < |cache.sqrts|
    ensures depth < |old(cache.sqrts)| ==> cache.sqrts == old(cache.sqrts) && cache.squares == old(cache.squares)
    ensures depth == |old(cache.sqrts)| ==>
              cache.sqrts == old(cache.sqrts) + [s.x] && cache.squares == old(cache.squares) + [s.y]
  {
    if depth < |cache.sqrts| {
      CacheEntry(cache.top, cache.sqrts, cache.squares, depth);
      s := Split(cache.sqrts[depth], cache.squares[depth]);
    } else {
      var x := Isqrt(b);
      IsqrtCorrect(b);
      var y := b - x * x;
      CacheAppend(cache.top, cache.sqrts, cache.squares, x, y);
      cache.Push(x, y);
      s := Split(x, y);
    }
  }

  /** powmod_impl.  The result is exactly a^b mod m whatever the cache holds,
      provided the cache is the one of this branch; a split is stored exactly
      at index `depth`, and only when the exponent is above the threshold. */
  method PowModImpl(a: nat, b: nat, m: nat, cache: SplitCache, depth: nat) returns (r: nat)
    requires m > 0
    requires cache.Valid() && depth <= |cache.sqrts|
    requires b == IterIsqrt(cache.top, depth)
    modifies cache
    ensures r == Pow(a, b) % m
    ensures cache.Valid() && cache.top == old(cache.top)
    ensures old(cache.sqrts) <= cache.sqrts && old(cache.squares) <= cache.squares
    ensures BitLength(b) > Threshold ==> depth < |cache.sqrts|
    ensures BitLength(b) <= Threshold ==> cache.sqrts == old(cache.sqrts) && cache.squares == old(cache.squares)
    decreases b, 1
  {
    if BitLength(b) > Threshold {
      ghost var sqrts0, squares0 := cache.sqrts, cache.squares;
      var s := CachedSplit(cache, b, depth);
      SplitShrinks(s, b);
      ghost var sqrts1, squares1 := cache.sqrts, cache.squares;
      var o1 := HighCalls(a, s.x, m, cache, depth + 1);
      PrefixChain(sqrts0, sqrts1, sqrts1, cache.sqrts);
      PrefixChain(squares0, squares1, squares1, cache.squares);
      var yCache := new SplitCache(s.y);
      var o2 := PowModImpl(a, s.y, m, yCache, 0);
      r := (o1 * o2) % m;
      Recombine(a, b, s, m, o1, o2);
    } else {
      r := Pow(a, b) % m;
      r := r % m;
      ModMod(Pow(a, b), m);
    }
  }

  /** Lines 45-46: the two high calls, a^x and then its own x-th power, both
      at the depth below, so the second one finds at that depth the split the
      first stored when x is above the threshold. */
  method HighCalls(a: nat, x: nat, m: nat, cache: SplitCache, depth: nat) returns (o1: nat)
    requires m > 0
    requires cache.Valid() && depth <= |cache.sqrts|
    requires x == IterIsqrt(cache.top, depth)
    modifies cache
    ensures o1 == Pow(Pow(a, x) % m, x) % m
    ensures cache.Valid() && cache.top == old(cache.top)
    ensures old(cache.sqrts) <= cache.sqrts && old(cache.squares) <= cache.squares
    decreases x, 2
  {
    o1 := PowModImpl(a, x, m, cache, depth);
    ghost var sqrts1, squares1 := cache.sqrts, cache.squares;
    o1 := PowModImpl(o1, x, m, cache, depth);
    PrefixChain(old(cache.sqrts), sqrts1, sqrts1, cache.sqrts);
    PrefixChain(old(cache.squares), squares1, squares1, cache.squares);
  }

  /** Three successive extensions of a vector extend the first one. */
  lemma {:induction false} PrefixChain(v0: seq<nat>, v1: seq<nat>, v2: seq<nat>, v3: seq<nat>)
    requires v0 <= v1 && v1 <= v2 && v2 <= v3
    ensures v0 <= v3
  {
    assert forall i :: 0 <= i < |v0| ==> v3[i] == v2[i] == v1[i] == v0[i];
  }

  /** The host entry point: a fresh, empty cache at depth 0 for the top call.
      A zero modulus is the division-by-zero failure. */
  method PowModPlus(base: nat, exponent: nat, modulus: nat) returns (r: Option<nat>)
    ensures r.None? <==> modulus == 0
    ensures r.Some? ==> r.value == Pow(base, exponent) % modulus && r.value < modulus
  {
    if modulus == 0 {
      return None;
    }
    var cache := new SplitCache(exponent);
    var v := PowModImpl(base, exponent, modulus, cache, 0);
    r := Some(v);
  }
}
