/** The frame encoder of the design (encoder.py): the extended Euclidean
    algorithm, the modular inverse built on it, the frame checksum, the
    encoder's own power-tower step and the 80-byte frame packet. */
module Encoder {
  import opened Arith
  import opened Bits
  import opened Bytes
  import opened Wrappers
  import Tower

  /** d divides n; only 0 is divisible by 0. */
  predicate IsDivisor(d: nat, n: int)
  {
    if d == 0 then n == 0 else n % d == 0
  }

  /** v is an inverse of a modulo m. */
  predicate IsInverse(a: nat, v: nat, m: nat)
    requires m > 0
  {
    (a * v) % m == 1 % m
  }

  /** From n = d*k to d | n. */
  lemma {:induction false} DivisorOfMultiple(d: nat, n: int, k: int)
    requires d > 0 && n == d * k
    ensures IsDivisor(d, n)
  {
    ModAddMultiple(k, d, 0);
  }

  /** d | n gives the cofactor. */
  lemma {:induction false} Cofactor(d: nat, n: int) returns (k: int)
    requires d > 0 && IsDivisor(d, n)
    ensures n == d * k
  {
    k := n / d;
  }

  /** The recursive step of extended_gcd: coefficients for (b, a mod b)
      become coefficients for (a, b), and a divisor of b and a mod b divides
      a. */
  lemma {:induction false} EgcdStep(a: nat, b: nat, g: nat, x1: int, y1: int)
    requires b > 0 && IsDivisor(g, b) && IsDivisor(g, a % b)
    requires b * x1 + (a % b) * y1 == g
    ensures IsDivisor(g, a)
    ensures a * y1 + b * (x1 - (a / b) * y1) == g
  {
    var q, r := a / b, a % b;
    assert a == q * b + r;
    assert a * y1 == q * b * y1 + r * y1 by {
      MulDistributes(y1, q * b, r);
    }
    assert b * (x1 - q * y1) == b * x1 - q * b * y1 by {
      MulDistributes(b, x1, -(q * y1));
      MulRotate(b, q, y1);
    }
    assert g > 0;
    var kb := Cofactor(g, b);
    var kr := Cofactor(g, r);
    assert a == g * (q * kb + kr) by {
      MulRotate(q, g, kb);
      MulDistributes(g, q * kb, kr);
    }
    DivisorOfMultiple(g, a, q * kb + kr);
  }

  /** extended_gcd: (g, x, y) with g a common divisor of a and b and
      a*x + b*y = g, so g is their greatest common divisor
      (GcdIsGreatest). */
  function ExtendedGcd(a: nat, b: nat): (r: (nat, int, int))
    ensures IsDivisor(r.0, a) && IsDivisor(r.0, b)
    ensures a * r.1 + b * r.2 == r.0
    decreases b
  {
    if b == 0 then (a, 1, 0)
    else
      var t := ExtendedGcd(b, a % b);
      EgcdStep(a, b, t.0, t.1, t.2);
      (t.0, t.2, t.1 - (a / b) * t.2)
  }

  /** Every common divisor of a and b divides the g of extended_gcd. */
  lemma {:induction false} GcdIsGreatest(a: nat, b: nat, d: nat)
    requires d > 0 && IsDivisor(d, a) && IsDivisor(d, b)
    ensures IsDivisor(d, ExtendedGcd(a, b).0)
  {
    var r := ExtendedGcd(a, b);
    var ka := Cofactor(d, a);
    var kb := Cofactor(d, b);
    assert r.0 == d * (ka * r.1 + kb * r.2) by {
      assert a * r.1 == d * (ka * r.1);
      assert b * r.2 == d * (kb * r.2);
      MulDistributes(d, ka * r.1, kb * r.2);
    }
    DivisorOfMultiple(d, r.0, ka * r.1 + kb * r.2);
  }

  /** A positive number that divides 1 is 1. */
  lemma {:induction false} DividesOne(g: nat, k: int)
    requires g * k == 1
    ensures g == 1
  {
    if k >= 1 {
      MulAtLeast(k, g);
      if g >= 2 {
        MulAtLeast(g, k);
      }
    }
  }

  /** modular_inverse: the inverse of a reduced into [0, m) when a and m
      are coprime, and None exactly when no inverse exists at all. */
  function ModularInverse(a: nat, m: nat): (r: Option<nat>)
    requires m > 0
    ensures r.Some? ==> r.value < m && IsInverse(a, r.value, m)
    ensures r.None? ==> forall v: nat :: !IsInverse(a, v, m)
  {
    var t := ExtendedGcd(a, m);
    if t.0 != 1 then
      NoInverse(a, m);
      None
    else
      InverseFromBezout(a, m, t.1, t.2);
      Some(t.1 % m)
  }

  lemma {:induction false} InverseFromBezout(a: nat, m: nat, x: int, y: int)
    requires m > 0 && a * x + m * y == 1
    ensures IsInverse(a, x % m, m)
  {
    var k := x / m;
    assert x == m * k + x % m;
    assert a * (x % m) == a * x - a * (m * k) by {
      MulDistributes(a, m * k, x % m);
    }
    MulRotate(a, m, k);
    assert a * (x % m) == (-y - a * k) * m + 1;
    ModAddMultiple(-y - a * k, m, 1);
  }

  lemma {:induction false} NoInverse(a: nat, m: nat)
    requires m > 0 && ExtendedGcd(a, m).0 != 1
    ensures forall v: nat :: !IsInverse(a, v, m)
  {
    var g := ExtendedGcd(a, m).0;
    forall v: nat
      ensures !IsInverse(a, v, m)
    {
      if IsInverse(a, v, m) {
        InverseForcesUnitGcd(a, v, m, g);
      }
    }
  }

  /** A common divisor of a and m divides a*v - q*m = 1 when v is an
      inverse of a modulo m, so it is 1. */
  lemma {:induction false} InverseForcesUnitGcd(a: nat, v: nat, m: nat, g: nat)
    requires m > 0 && IsDivisor(g, a) && IsDivisor(g, m) && IsInverse(a, v, m)
    ensures g == 1
  {
    assert g > 0;
    var ka := Cofactor(g, a);
    var km := Cofactor(g, m);
    if m == 1 {
      assert km * g == 1;
      DividesOne(g, km);
    } else {
      var q := (a * v) / m;
      ModSmall(1, m);
      assert a * v == q * m + 1;
      assert 1 == g * (ka * v - q * km) by {
        MulRotate(ka, g, v);
        MulRotate(q, g, km);
        MulDistributes(g, ka * v, -(q * km));
      }
      DividesOne(g, ka * v - q * km);
    }
  }

  /** sum() of a list of naturals. */
  function Sum(s: seq<nat>): nat
  {
    if s == [] then 0 else Sum(s[..|s| - 1]) + s[|s| - 1]
  }

  /** max() of a non-empty list. */
  function Max(s: seq<nat>): (r: nat)
    requires s != []
    ensures r in s && forall x :: x in s ==> x <= r
  {
    if |s| == 1 then s[0]
    else
      var r := Max(s[1..]);
      assert forall x :: x in s ==> x == s[0] || x in s[1..];
      if s[0] > r then s[0] else r
  }

  /** The list b of fletcher32: the running sums of the code points before
      each position, reduced modulo 65535, for positions 0..len. */
  function PrefixSums(a: seq<nat>): (b: seq<nat>)
    ensures |b| == |a| + 1
    ensures forall i :: 0 <= i <= |a| ==> b[i] == Sum(a[..i]) % 65535 && b[i] < 65535
  {
    seq(|a| + 1, i requires 0 <= i <= |a| => Sum(a[..i]) % 65535)
  }

  /** fletcher32 on the frame's code points: the sum of b shifted up by 16
      bits, or-ed with the maximum of b; as the maximum is below 2^16 the low
      16 bits are that maximum and the rest is the sum. */
  function Fletcher32(a: seq<nat>): (r: nat)
    ensures r % 65536 == Max(PrefixSums(a)) && r / 65536 == Sum(PrefixSums(a))
  {
    var b := PrefixSums(a);
    Pow2To16();
    var h, l := Sum(b), Max(b);
    OrShifted(h, l, 16);
    DivModUnique(h * 65536 + l, 65536, h, l);
    Or(h * Pow(2, 16), l)
  }

  /** n code points all equal to c. */
  function Constant(c: nat, n: nat): (s: seq<nat>)
    ensures |s| == n && forall i :: 0 <= i < n ==> s[i] == c
  {
    seq(n, i => c)
  }

  lemma {:induction false} SumConstant(c: nat, n: nat)
    ensures Sum(Constant(c, n)) == c * n
  {
    if n > 0 {
      assert Constant(c, n)[..n - 1] == Constant(c, n - 1);
      SumConstant(c, n - 1);
    }
  }

  /** The sum of the first k+1 entries of b for a frame of n equal code
      points c with c*n < 65535: c*k*(k+1)/2. */
  lemma {:induction false} SumPrefixSumsConstant(c: nat, n: nat, k: nat)
    requires k <= n && c * n < 65535
    ensures 2 * Sum(PrefixSums(Constant(c, n))[..k + 1]) == c * (k * (k + 1))
  {
    var b := PrefixSums(Constant(c, n));
    PrefixSumConstant(c, n, k);
    assert b[..k + 1][..k] == b[..k];
    if k > 0 {
      SumPrefixSumsConstant(c, n, k - 1);
      Triangle(c, k);
    }
  }

  /** Entry k of b for a frame of n equal code points c, c*n < 65535. */
  lemma {:induction false} PrefixSumConstant(c: nat, n: nat, k: nat)
    requires k <= n && c * n < 65535
    ensures PrefixSums(Constant(c, n))[k] == c * k
  {
    assert Constant(c, n)[..k] == Constant(c, k);
    SumConstant(c, k);
    MulMonotoneNat(c, k, n);
    ModSmall(c * k, 65535);
  }

  lemma {:induction false} Triangle(c: nat, k: nat)
    requires k > 0
    ensures c * ((k - 1) * k) + 2 * (c * k) == c * (k * (k + 1))
  {
    assert (k - 1) * k + 2 * k == k * (k + 1);
    MulDistributes(c, (k - 1) * k, 2 * k);
  }

  /** A frame of 64 digits '9' is a decimal literal, so int(frame)
      succeeds, yet it overflows the checksum's 32 bits: the sum of b is
      118560, so encode's to_bytes(4) fails. */
  lemma {:induction false} ChecksumOverflow()
    ensures Fletcher32(Constant(57, 64)) >= Pow(256, 4)
  {
    var b := PrefixSums(Constant(57, 64));
    SumPrefixSumsConstant(57, 64, 64);
    assert b[..65] == b;
    assert Sum(b) == 118560;
    assert Pow(256, 4) == 4294967296 by {
      assert Pow(256, 2) == 65536;
      PowAdd(256, 2, 2);
    }
  }

  /** The `wind_encoder` nested in encode: its `return` sits inside the
      loop, so only bit 0 of target is looked at. */
  method WindEncoder(root: nat, target: nat, exponents: seq<nat>, modulus: nat) returns (r: Option<nat>)
    requires modulus > 0
    ensures Bit(target, 0) && exponents == [] ==> r == None
    ensures Bit(target, 0) && exponents != [] ==> r == Some(Pow(root, exponents[0]) % modulus)
    ensures !Bit(target, 0) ==> r == Some(root)
  {
    var result := root;
    for bit := 0 to 64
      invariant bit == 0
    {
      if Bit(target, bit) {
        if bit >= |exponents| {
          return None;
        }
        result := Pow(result, exponents[bit]) % modulus;
      }
      return Some(result);
    }
  }

  /** The generator's tower for target 2 applies exponents[1] to the root;
      the encoder's own step leaves the root as it is, so forward keys of
      even timestamps differ between the two. */
  lemma {:induction false} EncoderIgnoresHigherBits()
    ensures Bit(2, 1) && !Bit(2, 0)
    ensures Tower.Indexed(2, 2) && Tower.Wind(2, 2, [3, 5], 7) == 4
  {
    assert Bit(1, 0);
    forall b: nat | 2 <= b
      ensures !Bit(2, b)
    {
      assert Bit(2, b) == Bit(1, b - 1);
      assert Bit(1, b - 1) == Bit(0, b - 2);
      BitOfZero(b - 2);
    }
    Tower.ClimbNoBits(2, 2, [3, 5], 7, 2, 64);
    assert Tower.Climb(2, 2, [3, 5], 7, 1, 64) == Pow(5, 2) % 7;
    assert Tower.Climb(2, 2, [3, 5], 7, 0, 64) == Tower.Climb(2, 2, [3, 5], 7, 1, 64);
  }

  /** The guard of encode for a timestamp: the xor of the two roots after
      the encoder's step, forward at t and backward at 2^64-1-t. */
  function EncodeGuard(timestamp: nat, forwardRoot: nat, backwardRoot: nat, modulus: nat, exponents: seq<nat>): nat
    requires modulus > 0 && exponents != []
  {
    if Bit(timestamp, 0) then Xor(Pow(forwardRoot, exponents[0]) % modulus, backwardRoot)
    else Xor(forwardRoot, Pow(backwardRoot, exponents[0]) % modulus)
  }

  /** encode: wind both roots, combine them into the guard, raise the
      frame's value to the guard's inverse and pack
      `<I channel, <Q timestamp, 64-byte ciphertext, 4-byte checksum`.
      The channel's secrets come in as the three values `forwardRoot`,
      `backwardRoot` and `modulus`; the frame is a str of code points and
      `frameValue` is int(frame). Every Python exception on the way (an
      IndexError, a missing inverse, an OverflowError of to_bytes) is None,
      and these are the only ways to get None. */
  method Encode(channel: nat, frame: seq<nat>, frameValue: nat, timestamp: nat,
                forwardRoot: nat, backwardRoot: nat, modulus: nat, exponents: seq<nat>)
    returns (r: Option<seq<byte>>)
    requires modulus > 0 && channel < Pow(2, 16) && timestamp <= Tower.EndOfTime
    ensures r.None? <==>
      || exponents == []
      || ModularInverse(EncodeGuard(timestamp, forwardRoot, backwardRoot, modulus, exponents), modulus).None?
      || Pow(frameValue, ModularInverse(EncodeGuard(timestamp, forwardRoot, backwardRoot, modulus, exponents), modulus).value) % modulus >= Pow(256, 64)
      || Fletcher32(frame) >= Pow(256, 4)
    ensures r.Some? ==>
      && |r.value| == 80
      && FromLE(r.value[0..4]) == channel
      && FromLE(r.value[4..12]) == timestamp
      && FromBE(r.value[76..80]) == Fletcher32(frame)
    ensures r.Some? ==>
      var inv := ModularInverse(EncodeGuard(timestamp, forwardRoot, backwardRoot, modulus, exponents), modulus);
      && inv.Some?
      && FromBE(r.value[12..76]) == Pow(frameValue, inv.value) % modulus
  {
    var endOfTime := Tower.EndOfTime;
    var forward := WindEncoder(forwardRoot, timestamp, exponents, modulus);
    var backward := WindEncoder(backwardRoot, endOfTime - timestamp, exponents, modulus);
    OddComplement(timestamp);
    if forward.None? || backward.None? {
      return None;
    }
    ghost var odd := Bit(timestamp, 0);
    assert exponents != [];
    assert forward.value == if odd then Pow(forwardRoot, exponents[0]) % modulus else forwardRoot;
    assert backward.value == if odd then backwardRoot else Pow(backwardRoot, exponents[0]) % modulus;
    var guard := Xor(forward.value, backward.value);
    assert guard == EncodeGuard(timestamp, forwardRoot, backwardRoot, modulus, exponents);
    var guardInverse := ModularInverse(guard, modulus);
    if guardInverse.None? {
      return None;
    }
    var encoded := ToBytesBE(Pow(frameValue, guardInverse.value) % modulus, 64);
    var checksum := ToBytesBE(Fletcher32(frame), 4);
    if encoded.None? || checksum.None? {
      return None;
    }
    return Some(Packet(channel, timestamp, encoded.value, checksum.value));
  }

  /** Exactly one of t and 2^64-1-t is odd. */
  lemma {:induction false} OddComplement(t: nat)
    requires t <= Tower.EndOfTime
    ensures Bit(Tower.EndOfTime - t, 0) == !Bit(t, 0)
  {
  }

  /** The packet layout `struct.pack("<IQ", channel, timestamp) + enc + chk`:
      each field reads back from its own byte range. */
  function Packet(channel: nat, timestamp: nat, enc: seq<byte>, chk: seq<byte>): (p: seq<byte>)
    requires channel < Pow(2, 16) && timestamp <= Tower.EndOfTime
    requires |enc| == 64 && |chk| == 4
    ensures |p| == 80
    ensures FromLE(p[0..4]) == channel && FromLE(p[4..12]) == timestamp
    ensures p[12..76] == enc && p[76..80] == chk
  {
    var h1, h2 := ToLE(channel, 4), ToLE(timestamp, 8);
    FitsLE(channel, 4, 16);
    FitsLE(timestamp, 8, 64);
    var p := h1 + h2 + enc + chk;
    assert p[0..4] == h1 && p[4..12] == h2;
    p
  }

  /** A value below 2^(8n') fits its n little-endian bytes, for the two
      widths of the packet header. */
  lemma {:induction false} FitsLE(v: nat, n: nat, w: nat)
    requires (n == 4 && w == 16 && v < Pow(2, 16)) || (n == 8 && w == 64 && v <= Tower.EndOfTime)
    ensures FromLE(ToLE(v, n)) == v
  {
    FromToLE(v, n);
    PowMul(2, 8, n);
    assert Pow(2, 8) == 256;
    if n == 4 {
      PowMonotone(2, 16, 32);
    } else {
      Tower.EndOfTimeValue();
    }
    ModSmall(v, Pow(256, n));
  }
}
