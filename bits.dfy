/** Bitwise operations on unbounded naturals, as Python's `int` and Rust's
    `u64` perform them on non-negative values. */
module Bits {
  import opened Arith

  /** Bit i of n, i.e. `(1 << i) & n > 0`. */
  function Bit(n: nat, i: nat): bool
  {
    if i == 0 then n % 2 == 1 else Bit(n / 2, i - 1)
  }

  /** Two naturals with the same bits are equal. */
  lemma {:induction false} BitsDetermine(a: nat, b: nat)
    requires forall i: nat :: Bit(a, i) == Bit(b, i)
    ensures a == b
    decreases a + b
  {
    assert Bit(a, 0) == Bit(b, 0);
    if a != 0 || b != 0 {
      forall i: nat
        ensures Bit(a / 2, i) == Bit(b / 2, i)
      {
        assert Bit(a, i + 1) == Bit(b, i + 1);
      }
      BitsDetermine(a / 2, b / 2);
    }
  }

  lemma {:induction false} BitOfZero(i: nat)
    ensures !Bit(0, i)
  {
    if i > 0 {
      BitOfZero(i - 1);
    }
  }

  /** The only set bit of 2^k is bit k. */
  lemma {:induction false} BitOfPow2(k: nat, i: nat)
    ensures Bit(Pow(2, k), i) <==> i == k
    decreases k
  {
    if k == 0 {
      if i > 0 {
        BitOfZero(i - 1);
      }
    } else {
      PowPositive(2, k - 1);
      assert Pow(2, k) / 2 == Pow(2, k - 1);
      if i > 0 {
        BitOfPow2(k - 1, i - 1);
      }
    }
  }

  /** Bits at and above 64 do not exist for numbers below 2^64. */
  lemma {:induction false} BitAboveWidth(n: nat, w: nat, i: nat)
    requires n < Pow(2, w) && i >= w
    ensures !Bit(n, i)
    decreases w
  {
    if w == 0 {
      BitOfZero(i);
    } else {
      assert n / 2 < Pow(2, w - 1);
      BitAboveWidth(n / 2, w - 1, i - 1);
    }
  }

  /** A number of at least 2^w has a set bit at position w or above. */
  lemma {:induction false} HighBitSet(n: nat, w: nat) returns (i: nat)
    requires Pow(2, w) <= n
    ensures i >= w && Bit(n, i)
    decreases w
  {
    if w == 0 {
      LowestBitSpec(n);
      i := LowestBit(n);
    } else {
      var j := HighBitSet(n / 2, w - 1);
      i := j + 1;
    }
  }

  /** Bitwise exclusive or. */
  function Xor(a: nat, b: nat): nat
    decreases a + b
  {
    if a == 0 && b == 0 then 0
    else 2 * Xor(a / 2, b / 2) + (if a % 2 != b % 2 then 1 else 0)
  }

  lemma {:induction false} XorBit(a: nat, b: nat, i: nat)
    ensures Bit(Xor(a, b), i) == (Bit(a, i) != Bit(b, i))
    decreases i
  {
    if a == 0 && b == 0 {
      BitOfZero(i);
    } else if i > 0 {
      XorBit(a / 2, b / 2, i - 1);
    }
  }

  /** Xor with the same value twice gives the original back. */
  lemma {:induction false} XorCancel(a: nat, b: nat)
    ensures Xor(Xor(a, b), b) == a
  {
    forall i: nat
      ensures Bit(Xor(Xor(a, b), b), i) == Bit(a, i)
    {
      XorBit(Xor(a, b), b, i);
      XorBit(a, b, i);
    }
    BitsDetermine(Xor(Xor(a, b), b), a);
  }

  lemma {:induction false} XorCommutes(a: nat, b: nat)
    ensures Xor(a, b) == Xor(b, a)
  {
    forall i: nat
      ensures Bit(Xor(a, b), i) == Bit(Xor(b, a), i)
    {
      XorBit(a, b, i);
      XorBit(b, a, i);
    }
    BitsDetermine(Xor(a, b), Xor(b, a));
  }

  /** Bitwise or. */
  function Or(a: nat, b: nat): nat
    decreases a + b
  {
    if a == 0 && b == 0 then 0
    else 2 * Or(a / 2, b / 2) + (if a % 2 == 1 || b % 2 == 1 then 1 else 0)
  }

  /** Or-ing a value below 2^k into a multiple of 2^k is addition. */
  lemma {:induction false} OrShifted(h: nat, l: nat, k: nat)
    requires l < Pow(2, k)
    ensures Or(h * Pow(2, k), l) == h * Pow(2, k) + l
    decreases k
  {
    if k == 0 {
      assert l == 0;
      OrZero(h);
    } else {
      var hk := h * Pow(2, k);
      assert hk == 2 * (h * Pow(2, k - 1));
      assert hk % 2 == 0 && hk / 2 == h * Pow(2, k - 1);
      assert l / 2 < Pow(2, k - 1);
      if hk == 0 && l == 0 {
      } else {
        OrShifted(h, l / 2, k - 1);
      }
    }
  }

  lemma {:induction false} OrZero(a: nat)
    ensures Or(a, 0) == a
    decreases a
  {
    if a != 0 {
      OrZero(a / 2);
    }
  }

  /** The bits of a that are clear in b: `a & ~b`. */
  function AndNot(a: nat, b: nat): nat
    decreases a + b
  {
    if a == 0 && b == 0 then 0
    else 2 * AndNot(a / 2, b / 2) + (if a % 2 == 1 && b % 2 == 0 then 1 else 0)
  }

  lemma {:induction false} AndNotBit(a: nat, b: nat, i: nat)
    ensures Bit(AndNot(a, b), i) == (Bit(a, i) && !Bit(b, i))
    decreases i
  {
    if a == 0 && b == 0 {
      BitOfZero(i);
    } else if i > 0 {
      AndNotBit(a / 2, b / 2, i - 1);
    }
  }

  /** The lowest index in [i, 64) of a set bit of n, or 64 when there is none. */
  function LowFrom(n: nat, i: nat): (r: nat)
    decreases 64 - i
  {
    if i >= 64 then 64 else if Bit(n, i) then i else LowFrom(n, i + 1)
  }

  /** LowFrom(n, i) is the first set bit at or above i, and no bit in between
      is set. */
  lemma {:induction false} LowFromSpec(n: nat, i: nat)
    requires i <= 64
    ensures i <= LowFrom(n, i) <= 64
    ensures LowFrom(n, i) < 64 ==> Bit(n, LowFrom(n, i))
    ensures forall j :: i <= j < LowFrom(n, i) ==> !Bit(n, j)
    decreases 64 - i
  {
    if i < 64 && !Bit(n, i) {
      LowFromSpec(n, i + 1);
    }
  }

  lemma {:induction false} LowFromOfZero(i: nat)
    requires i <= 64
    ensures LowFrom(0, i) == 64
    decreases 64 - i
  {
    if i < 64 {
      BitOfZero(i);
      LowFromOfZero(i + 1);
    }
  }

  /** The index of the lowest set bit of a positive number, unbounded. */
  function LowestBit(n: nat): nat
    requires n > 0
  {
    if n % 2 == 1 then 0 else 1 + LowestBit(n / 2)
  }

  /** Bit LowestBit(n) is set, every lower bit is clear, and so n is at least
      2^LowestBit(n). */
  lemma {:induction false} LowestBitSpec(n: nat)
    requires n > 0
    ensures Bit(n, LowestBit(n))
    ensures forall i: nat :: i < LowestBit(n) ==> !Bit(n, i)
    ensures Pow(2, LowestBit(n)) <= n
  {
    if n % 2 == 0 {
      LowestBitSpec(n / 2);
      forall i: nat | i < LowestBit(n)
        ensures !Bit(n, i)
      {
        if i > 0 {
          assert !Bit(n / 2, i - 1);
        }
      }
    }
  }

  /** A positive number below 2^w has its lowest set bit below w. */
  lemma {:induction false} LowestBitBelowWidth(n: nat, w: nat)
    requires 0 < n < Pow(2, w)
    ensures LowestBit(n) < w
  {
    LowestBitSpec(n);
    if LowestBit(n) >= w {
      PowMonotone(2, w, LowestBit(n));
    }
  }

  /** For a positive number below 2^64, the 64-bit scan finds its lowest set
      bit. */
  lemma {:induction false} LowFromLowest(n: nat, i: nat)
    requires 0 < n < Pow(2, 64) && i <= LowestBit(n)
    ensures LowFrom(n, i) == LowestBit(n)
    decreases 64 - i
  {
    LowestBitSpec(n);
    LowestBitBelowWidth(n, 64);
    if i < LowestBit(n) {
      LowFromLowest(n, i + 1);
    }
  }

  /** Adding its lowest set bit to c moves the lowest set bit strictly up. */
  lemma {:induction false} CarryRaisesLowBit(c: nat)
    requires c > 0
    ensures LowestBit(c + Pow(2, LowestBit(c))) > LowestBit(c)
  {
    var j := LowestBit(c);
    if j > 0 {
      PowPositive(2, j - 1);
      assert (c + Pow(2, j)) / 2 == c / 2 + Pow(2, j - 1);
      CarryRaisesLowBit(c / 2);
    }
  }

  /** Every number t in [c, c + 2^LowestBit(c)) has the same bits as c from
      LowestBit(c) upwards: only the clear low bits of c differ. */
  lemma {:induction false} CarryWindow(c: nat, t: nat)
    requires c > 0 && c <= t < c + Pow(2, LowestBit(c))
    ensures forall i: nat :: LowestBit(c) <= i ==> Bit(t, i) == Bit(c, i)
  {
    var j := LowestBit(c);
    if j > 0 {
      assert c == 2 * (c / 2);
      assert Pow(2, j) == 2 * Pow(2, j - 1);
      assert t / 2 < c / 2 + Pow(2, j - 1);
      CarryWindow(c / 2, t / 2);
      forall i: nat | j <= i
        ensures Bit(t, i) == Bit(c, i)
      {
        assert Bit(t / 2, i - 1) == Bit(c / 2, i - 1);
      }
    }
  }

  /** The lowest set bit of 2^k is bit k. */
  lemma {:induction false} LowestBitOfPow2(k: nat)
    ensures Pow(2, k) > 0 && LowestBit(Pow(2, k)) == k
  {
    PowPositive(2, k);
    if k > 0 {
      LowestBitOfPow2(k - 1);
      assert Pow(2, k) / 2 == Pow(2, k - 1);
    }
  }
}
