/** The totient-based prototype of the time-window key (proof.py).

    With the totient t of the RSA modulus, the key for a position `distance`
    steps after a subscription's start is key^(e^distance mod t) mod n.  The
    encoder computes e^distance mod t directly from the "stones"
    e^(2^k) mod t; the decoder, without the totient, receives one stone per
    nibble section and squares it itself, so its exponent is the same number
    modulo t without being reduced. */
module Stones {
  import opened Arith
  import opened Bits
  import opened Wrappers

  /** One squaring step of `stone`: squaring b^(2^i) (reduced unless i = 0)
      and reducing gives b^(2^(i+1)) mod t. */
  lemma {:induction false} SquareStep(b: nat, i: nat, t: nat, res: nat)
    requires t > 0
    requires i == 0 ==> res == b
    requires i > 0 ==> res == Pow(b, Pow(2, i)) % t
    ensures (res * res) % t == Pow(b, Pow(2, i + 1)) % t
  {
    var x := Pow(b, Pow(2, i));
    assert Pow(2, i + 1) == Pow(2, i) + Pow(2, i);
    PowAdd(b, Pow(2, i), Pow(2, i));
    if i == 0 {
      assert Pow(2, 0) == 1;
      assert x == b;
    } else {
      MulMod(x, x, t);
    }
  }

  /** stone: `location` modular squarings of `base`; the base itself comes
      back unreduced when there are none. */
  method Stone(totient: nat, base: nat, location: nat) returns (r: nat)
    requires totient > 0
    ensures location == 0 ==> r == base
    ensures location > 0 ==> r == Pow(base, Pow(2, location)) % totient && r < totient
  {
    r := base;
    for i := 0 to location
      invariant i == 0 ==> r == base
      invariant i > 0 ==> r == Pow(base, Pow(2, i)) % totient
    {
      SquareStep(base, i, totient, r);
      r := r * r;
      r := r % totient;
    }
  }

  /** The residue of d modulo 2^(k+1) adds bit k of d to its residue modulo
      2^k. */
  lemma {:induction false} BitLowPart(d: nat, k: nat)
    ensures Pow(2, k) > 0
    ensures d % Pow(2, k + 1) == d % Pow(2, k) + (if Bit(d, k) then Pow(2, k) else 0)
    decreases k
  {
    PowPositive(2, k);
    if k > 0 {
      BitLowPart(d / 2, k - 1);
      ModSplit(d, 2, Pow(2, k));
      ModSplit(d, 2, Pow(2, k - 1));
    }
  }

  /** One multiplication of wind_totient's exponent accumulator. */
  lemma {:induction false} KeyExpStep(e: nat, low: nat, pos: nat, t: nat, keyExp: nat, s: nat)
    requires t > 0 && low < Pow(2, pos)
    requires low == 0 ==> keyExp == 1
    requires low > 0 ==> keyExp == Pow(e, low) % t
    requires pos == 0 ==> s == e
    requires pos > 0 ==> s == Pow(e, Pow(2, pos)) % t
    ensures (keyExp * s) % t == Pow(e, low + Pow(2, pos)) % t
  {
    if low == 0 {
      if pos == 0 {
        assert Pow(e, Pow(2, 0)) == e;
      } else {
        ModMod(Pow(e, Pow(2, pos)), t);
      }
    } else {
      if pos == 0 {
        assert false;
      }
      PowAddMod(e, low, Pow(2, pos), t);
    }
  }

  /** The accumulator after the bits below `bit` = 2^k: the exponent
      e^(d mod 2^k) mod t, or still 1 while no bit has been used. */
  ghost predicate ExpSoFar(e: nat, d: nat, t: nat, bit: nat, keyExp: nat)
    requires t > 0 && bit > 0
  {
    && (d % bit == 0 ==> keyExp == 1)
    && (d % bit > 0 ==> keyExp == Pow(e, d % bit) % t)
  }

  /** One iteration of wind_totient's loop keeps ExpSoFar. */
  lemma {:induction false} TotientStep(e: nat, d: nat, t: nat, pos: nat, keyExp: nat, s: nat)
    requires t > 0 && Pow(2, pos) > 0 && ExpSoFar(e, d, t, Pow(2, pos), keyExp)
    requires Bit(d, pos) && pos == 0 ==> s == e
    requires Bit(d, pos) && pos > 0 ==> s == Pow(e, Pow(2, pos)) % t
    ensures Pow(2, pos + 1) == 2 * Pow(2, pos)
    ensures Bit(d, pos) ==> ExpSoFar(e, d, t, Pow(2, pos + 1), (keyExp * s) % t)
    ensures !Bit(d, pos) ==> ExpSoFar(e, d, t, Pow(2, pos + 1), keyExp)
  {
    BitLowPart(d, pos);
    var low := d % Pow(2, pos);
    if Bit(d, pos) {
      KeyExpStep(e, low, pos, t, keyExp, s);
    }
  }

  /** Once 2^k exceeds d the accumulator holds e^d mod t (or 1 for d = 0). */
  lemma {:induction false} TotientDone(e: nat, d: nat, t: nat, bit: nat, keyExp: nat)
    requires t > 0 && bit > d && ExpSoFar(e, d, t, bit, keyExp)
    ensures d == 0 ==> keyExp == 1
    ensures d > 0 ==> keyExp == Pow(e, d) % t
  {
    DivModUnique(d, bit, 0, d);
  }

  /** wind_totient: the exponent e^distance mod t is accumulated from the
      stones of the set bits of `distance`, reducing after each product, and
      the key is raised to it.  The exponent stays 1 when distance is 0. */
  method WindTotient(key: nat, distance: nat, exponent: nat, modulus: nat, totient: nat) returns (r: nat)
    requires modulus > 0 && totient > 0
    ensures distance == 0 ==> r == key % modulus
    ensures distance > 0 ==> r == Pow(key, Pow(exponent, distance) % totient) % modulus
    ensures r < modulus
  {
    var keyExp: nat := 1;
    var bitPosition: nat := 0;
    var bit: nat := 1;
    while bit <= distance
      invariant bit == Pow(2, bitPosition) && bit > 0
      invariant ExpSoFar(exponent, distance, totient, bit, keyExp)
      decreases distance + 1 - bit
    {
      if Bit(distance, bitPosition) {
        var s := Stone(totient, exponent, bitPosition);
        assert ExpSoFar(exponent, distance, totient, 2 * bit, (keyExp * s) % totient) by {
          TotientStep(exponent, distance, totient, bitPosition, keyExp, s);
        }
        keyExp := keyExp * s;
        keyExp := keyExp % totient;
      } else {
        assert ExpSoFar(exponent, distance, totient, 2 * bit, keyExp) by {
          TotientStep(exponent, distance, totient, bitPosition, keyExp, 0);
        }
      }
      assert 2 * bit == Pow(2, bitPosition + 1);
      bit := bit * 2;
      bitPosition := bitPosition + 1;
    }
    r := Pow(key, keyExp) % modulus;
    TotientFinish(key, exponent, distance, totient, bit, keyExp, modulus, r);
  }

  /** After the loop, raising the key to the accumulator gives wind_totient's
      result. */
  lemma {:induction false} TotientFinish(key: nat, e: nat, d: nat, t: nat, bit: nat, keyExp: nat, modulus: nat, r: nat)
    requires t > 0 && modulus > 0 && bit > d && ExpSoFar(e, d, t, bit, keyExp)
    requires r == Pow(key, keyExp) % modulus
    ensures d == 0 ==> r == key % modulus
    ensures d > 0 ==> r == Pow(key, Pow(e, d) % t) % modulus
  {
    TotientDone(e, d, t, bit, keyExp);
    if d == 0 {
      assert Pow(key, 1) == key;
    }
  }

  /** The decoder's table: the exponent itself, then e^(2^(4s)) mod t for the
      sections s = 1..15. */
  ghost predicate IsStoneTable(st: seq<nat>, t: nat, e: nat)
    requires t > 0
  {
    && |st| == 16 && st[0] == e
    && forall s :: 1 <= s < 16 ==> st[s] == Pow(e, Pow(2, 4 * s)) % t
  }

  /** The `stones` list: one stone every 4 bit positions. */
  method StonesTable(totient: nat, exponent: nat) returns (st: seq<nat>)
    requires totient > 0
    ensures IsStoneTable(st, totient, exponent)
  {
    st := [exponent];
    for k := 1 to 16
      invariant |st| == k && st[0] == exponent
      invariant forall s :: 1 <= s < k ==> st[s] == Pow(exponent, Pow(2, 4 * s)) % totient
    {
      var v := Stone(totient, exponent, 4 * k);
      st := st + [v];
    }
  }

  ghost predicate NoBits(d: nat, lo: nat, hi: nat)
  {
    forall b: nat :: lo <= b < hi ==> !Bit(d, b)
  }

  /** What bit b of the distance contributes to the decoder's exponent:
      its section's stone squared (b mod 4) times. */
  function Factor(d: nat, st: seq<nat>, b: nat): nat
    requires b / 4 < |st|
  {
    if Bit(d, b) then Pow(st[b / 4], Pow(2, b % 4)) else 1
  }

  /** The unreduced exponent the decoder applies for the bits [lo, hi). */
  ghost function StoneProduct(d: nat, st: seq<nat>, lo: nat, hi: nat): nat
    requires lo <= hi <= 4 * |st|
    decreases hi - lo
  {
    if lo == hi then 1 else StoneProduct(d, st, lo, hi - 1) * Factor(d, st, hi - 1)
  }

  /** The decoder's value after the bits below hi: the key itself while no
      bit has been used, otherwise the key to the product of the factors. */
  ghost function StoneWound(key: nat, d: nat, st: seq<nat>, m: nat, hi: nat): nat
    requires m > 0 && hi <= 4 * |st|
  {
    if NoBits(d, 0, hi) then key else Pow(key, StoneProduct(d, st, 0, hi)) % m
  }

  /** Bits that are clear contribute nothing. */
  lemma {:induction false} ClearBits(key: nat, d: nat, st: seq<nat>, m: nat, a: nat, b: nat)
    requires m > 0 && a <= b <= 4 * |st| && NoBits(d, a, b)
    ensures StoneProduct(d, st, 0, b) == StoneProduct(d, st, 0, a)
    ensures NoBits(d, 0, b) == NoBits(d, 0, a)
    ensures StoneWound(key, d, st, m, b) == StoneWound(key, d, st, m, a)
    decreases b - a
  {
    if a < b {
      ClearBits(key, d, st, m, a, b - 1);
      assert !Bit(d, b - 1);
    }
  }

  /** No set bit: the empty product. */
  lemma {:induction false} ProductNoBits(d: nat, st: seq<nat>, hi: nat)
    requires hi <= 4 * |st| && NoBits(d, 0, hi)
    ensures StoneProduct(d, st, 0, hi) == 1
    decreases hi
  {
    if hi > 0 {
      ProductNoBits(d, st, hi - 1);
    }
  }

  /** Position b lies in section s. */
  lemma {:induction false} SectionOf(b: nat, s: nat)
    requires 4 * s <= b < 4 * s + 4
    ensures b / 4 == s && b % 4 == b - 4 * s
  {
    DivModUnique(b, 4, s, b - 4 * s);
  }

  /** One step of the decoder's inner loop at position `bit`. */
  lemma {:induction false} WoundStep(key: nat, d: nat, st: seq<nat>, m: nat, bit: nat, result: nat, exponent: nat)
    requires m > 0 && bit < 4 * |st|
    requires result == StoneWound(key, d, st, m, bit)
    requires exponent == Pow(st[bit / 4], Pow(2, bit % 4))
    ensures Bit(d, bit) ==> Pow(result, exponent) % m == StoneWound(key, d, st, m, bit + 1)
    ensures !Bit(d, bit) ==> result == StoneWound(key, d, st, m, bit + 1)
  {
    var p := StoneProduct(d, st, 0, bit);
    assert StoneProduct(d, st, 0, bit + 1) == p * Factor(d, st, bit);
    if Bit(d, bit) {
      assert !NoBits(d, 0, bit + 1);
      if NoBits(d, 0, bit) {
        ProductNoBits(d, st, bit);
      } else {
        PowPowMod(key, p, exponent, m);
      }
    } else {
      assert NoBits(d, 0, bit + 1) == NoBits(d, 0, bit);
    }
  }

  /** Squaring x^(2^j) gives x^(2^(j+1)). */
  lemma {:induction false} SquarePow(x: nat, j: nat)
    ensures Pow(x, Pow(2, j)) * Pow(x, Pow(2, j)) == Pow(x, Pow(2, j + 1))
  {
    assert Pow(2, j + 1) == Pow(2, j) + Pow(2, j);
    PowAdd(x, Pow(2, j), Pow(2, j));
  }

  /** wind_stones: per nibble section, find the highest set bit of the
      section, then walk the section's bits up to it, applying the current
      power of the section's stone at every set bit and squaring it after
      each position.  A table with fewer than 16 stones is an IndexError. */
  method WindStones(key: nat, distance: nat, modulus: nat, stones: seq<nat>) returns (r: Option<nat>)
    requires modulus > 0
    ensures r.None? <==> |stones| < 16
    ensures r.Some? ==> r.value == StoneWound(key, distance, stones, modulus, 64)
  {
    var result := key;
    for section := 0 to 16
      invariant section <= |stones|
      invariant result == StoneWound(key, distance, stones, modulus, 4 * section)
    {
      var steps: int := -1;
      for bit := 4 downto 0
        invariant steps == -1
        invariant NoBits(distance, 4 * section + bit, 4 * section + 4)
      {
        if Bit(distance, bit + section * 4) {
          steps := bit;
          break;
        }
      }
      if section >= |stones| {
        return None;
      }
      var exponent := stones[section];
      var hi: nat := 4 * section + steps + 1;
      assert Pow(2, 0) == 1;
      for bit := 4 * section to hi
        invariant exponent == Pow(stones[section], Pow(2, bit - 4 * section))
        invariant result == StoneWound(key, distance, stones, modulus, bit)
      {
        SectionOf(bit, section);
        if Bit(distance, bit) {
          assert Pow(result, exponent) % modulus == StoneWound(key, distance, stones, modulus, bit + 1) by {
            WoundStep(key, distance, stones, modulus, bit, result, exponent);
          }
          result := Pow(result, exponent) % modulus;
        } else {
          assert result == StoneWound(key, distance, stones, modulus, bit + 1) by {
            WoundStep(key, distance, stones, modulus, bit, result, exponent);
          }
        }
        assert exponent * exponent == Pow(stones[section], Pow(2, bit + 1 - 4 * section)) by {
          SquarePow(stones[section], bit - 4 * section);
        }
        exponent := exponent * exponent;
      }
      ClearBits(key, distance, stones, modulus, hi, 4 * section + 4);
    }
    return Some(result);
  }

  /** With no set bit below 64 (distance 0 in particular) wind_stones returns
      the key itself, unreduced; otherwise a residue below the modulus. */
  lemma {:induction false} WoundRange(key: nat, d: nat, st: seq<nat>, m: nat)
    requires m > 0 && |st| >= 16
    ensures NoBits(d, 0, 64) ==> StoneWound(key, d, st, m, 64) == key
    ensures !NoBits(d, 0, 64) ==> StoneWound(key, d, st, m, 64) < m
    ensures d == 0 ==> StoneWound(key, d, st, m, 64) == key
  {
    if d == 0 {
      forall b: nat
        ensures !Bit(0, b)
      {
        BitOfZero(b);
      }
    }
  }

  /** Bit b's factor is congruent to e^(2^b) modulo t when the stones are
      the true table. */
  lemma {:induction false} FactorMod(d: nat, st: seq<nat>, t: nat, e: nat, b: nat)
    requires t > 0 && IsStoneTable(st, t, e) && b < 64
    ensures Pow(2, b) > 0
    ensures Factor(d, st, b) % t == (if Bit(d, b) then Pow(e, Pow(2, b)) % t else 1 % t)
  {
    PowPositive(2, b);
    if Bit(d, b) {
      var s, j := b / 4, b % 4;
      assert b == 4 * s + j;
      PowAdd(2, 4 * s, j);
      if s == 0 {
        assert 4 * s == 0 && Pow(2, 0) == 1;
        PowMul(e, 1, Pow(2, j));
        assert Pow(e, 1) == e;
      } else {
        PowModBase(Pow(e, Pow(2, 4 * s)), Pow(2, j), t);
        ModMod(Pow(e, Pow(2, 4 * s)), t);
        PowMul(e, Pow(2, 4 * s), Pow(2, j));
      }
    }
  }

  /** The decoder's exponent over the bits below hi is congruent modulo t to
      e^(d mod 2^hi). */
  lemma {:induction false} ProductMod(d: nat, st: seq<nat>, t: nat, e: nat, hi: nat)
    requires t > 0 && IsStoneTable(st, t, e) && hi <= 64
    ensures Pow(2, hi) > 0
    ensures StoneProduct(d, st, 0, hi) % t == Pow(e, d % Pow(2, hi)) % t
    decreases hi
  {
    PowPositive(2, hi);
    if hi == 0 {
      assert d % 1 == 0;
    } else {
      var k := hi - 1;
      ProductMod(d, st, t, e, k);
      BitLowPart(d, k);
      FactorMod(d, st, t, e, k);
      var p := StoneProduct(d, st, 0, k);
      var f := Factor(d, st, k);
      var low := d % Pow(2, k);
      MulMod(p, f, t);
      if Bit(d, k) {
        PowAddMod(e, low, Pow(2, k), t);
        MulMod(Pow(e, low), Pow(e, Pow(2, k)), t);
      } else {
        assert Pow(e, 0) == 1;
        MulMod(Pow(e, low), 1, t);
      }
    }
  }

  /** The prototype's check: for 0 < d < 2^64, the decoder working from the
      stones computes an exponent congruent to the encoder's e^d mod t, so
      both give the same key whenever key^t = 1 modulo m. */
  lemma {:induction false} StonesMatchTotient(key: nat, d: nat, st: seq<nat>, t: nat, e: nat, m: nat)
    requires t > 0 && m > 0 && IsStoneTable(st, t, e) && 0 < d < Pow(2, 64)
    requires Pow(key, t) % m == 1 % m
    ensures StoneWound(key, d, st, m, 64) == Pow(key, Pow(e, d) % t) % m
  {
    LowestBitBelowWidth(d, 64);
    LowestBitSpec(d);
    var j := LowestBit(d);
    assert j < 64 && Bit(d, j);
    assert !NoBits(d, 0, 64);
    ProductMod(d, st, t, e, 64);
    DivModUnique(d, Pow(2, 64), 0, d);
    var p := StoneProduct(d, st, 0, 64);
    ExponentReduction(key, p, t, m);
  }
}
