/** The commutative variant of the power tower: the set bits of the
    timestamp are visited from bit 0 up to bit 63 and each one raises the
    running value to its exponent, v := v^e_b mod m, so the whole tower is
    the root raised to the product of the selected exponents. Keys, the
    successor of a key and the closest-position scan are those of the
    high-to-low tower. */
module TowerLow {
  import opened Arith
  import opened Bits
  import opened Dict
  import opened Wrappers
  import Tower

  /** The steps for the set bits of `sel` in [lo, hi), applied from bit lo up
      to bit hi-1, starting from v. */
  ghost function Rise(v: nat, sel: nat, exps: seq<nat>, m: nat, lo: nat, hi: nat): nat
    requires m > 0 && lo <= hi && Tower.IndexedRange(sel, |exps|, lo, hi)
    decreases hi - lo
  {
    if lo == hi then v
    else
      var w := Rise(v, sel, exps, m, lo, hi - 1);
      if Bit(sel, hi - 1) then Pow(w, exps[hi - 1]) % m else w
  }

  /** The full 64-bit tower of `target` over `root`. */
  ghost function WindLow(root: nat, target: nat, exps: seq<nat>, m: nat): nat
    requires m > 0 && Tower.Indexed(target, |exps|)
  {
    Rise(root, target, exps, m, 0, 64)
  }

  /** The product of the exponents of the set bits of `sel` in [lo, hi). */
  ghost function ExpProduct(sel: nat, exps: seq<nat>, lo: nat, hi: nat): nat
    requires lo <= hi && Tower.IndexedRange(sel, |exps|, lo, hi)
    decreases hi - lo
  {
    if lo == hi then 1
    else ExpProduct(sel, exps, lo, hi - 1) * (if Bit(sel, hi - 1) then exps[hi - 1] else 1)
  }

  /** Nested modular powers multiply their exponents: the tower is, modulo m,
      the root raised to the product of the selected exponents. */
  lemma {:induction false} RiseClosedForm(v: nat, sel: nat, exps: seq<nat>, m: nat, lo: nat, hi: nat)
    requires m > 0 && lo <= hi && Tower.IndexedRange(sel, |exps|, lo, hi)
    ensures Rise(v, sel, exps, m, lo, hi) % m == Pow(v, ExpProduct(sel, exps, lo, hi)) % m
    decreases hi - lo
  {
    if lo == hi {
      assert Pow(v, 1) == v * Pow(v, 0);
    } else {
      var w := Rise(v, sel, exps, m, lo, hi - 1);
      var p := ExpProduct(sel, exps, lo, hi - 1);
      RiseClosedForm(v, sel, exps, m, lo, hi - 1);
      if Bit(sel, hi - 1) {
        var e := exps[hi - 1];
        ModMod(Pow(w, e), m);
        PowModBase(w, e, m);
        PowPowMod(v, p, e, m);
      }
    }
  }

  /** A set bit in the range makes the result a residue below m. */
  lemma {:induction false} RiseBelow(v: nat, sel: nat, exps: seq<nat>, m: nat, lo: nat, hi: nat, b: nat)
    requires m > 0 && lo <= b < hi && Tower.IndexedRange(sel, |exps|, lo, hi) && Bit(sel, b)
    ensures Rise(v, sel, exps, m, lo, hi) < m
    decreases hi - lo
  {
    if !Bit(sel, hi - 1) {
      RiseBelow(v, sel, exps, m, lo, hi - 1, b);
    }
  }

  /** A range with no set bits applies no step. */
  lemma {:induction false} RiseNoBits(v: nat, sel: nat, exps: seq<nat>, m: nat, lo: nat, hi: nat)
    requires m > 0 && lo <= hi
    requires forall b: nat :: lo <= b < hi ==> !Bit(sel, b)
    ensures Tower.IndexedRange(sel, |exps|, lo, hi)
    ensures Rise(v, sel, exps, m, lo, hi) == v
    decreases hi - lo
  {
    if lo < hi {
      RiseNoBits(v, sel, exps, m, lo, hi - 1);
    }
  }

  /** Selectors that agree on [lo, hi) give the same tower there. */
  lemma {:induction false} RiseAgree(v: nat, s1: nat, s2: nat, exps: seq<nat>, m: nat, lo: nat, hi: nat)
    requires m > 0 && lo <= hi && Tower.IndexedRange(s1, |exps|, lo, hi)
    requires forall b: nat :: lo <= b < hi ==> Bit(s1, b) == Bit(s2, b)
    ensures Tower.IndexedRange(s2, |exps|, lo, hi)
    ensures Rise(v, s1, exps, m, lo, hi) == Rise(v, s2, exps, m, lo, hi)
    decreases hi - lo
  {
    if lo < hi {
      RiseAgree(v, s1, s2, exps, m, lo, hi - 1);
    }
  }

  /** When the bits of c are among those of t, the exponents of t are those
      of c times those of t outside c. */
  lemma {:induction false} ProductSplit(c: nat, t: nat, exps: seq<nat>, lo: nat, hi: nat)
    requires lo <= hi && Tower.IndexedRange(t, |exps|, lo, hi)
    requires forall b: nat :: lo <= b < hi && Bit(c, b) ==> Bit(t, b)
    ensures Tower.IndexedRange(c, |exps|, lo, hi) && Tower.IndexedRange(AndNot(t, c), |exps|, lo, hi)
    ensures ExpProduct(t, exps, lo, hi) == ExpProduct(c, exps, lo, hi) * ExpProduct(AndNot(t, c), exps, lo, hi)
    decreases hi - lo
  {
    forall b: nat
      ensures Bit(AndNot(t, c), b) == (Bit(t, b) && !Bit(c, b))
    {
      AndNotBit(t, c, b);
    }
    if lo < hi {
      ProductSplit(c, t, exps, lo, hi - 1);
      var pc := ExpProduct(c, exps, lo, hi - 1);
      var ps := ExpProduct(AndNot(t, c), exps, lo, hi - 1);
      var fc := if Bit(c, hi - 1) then exps[hi - 1] else 1;
      var fs := if Bit(AndNot(t, c), hi - 1) then exps[hi - 1] else 1;
      MulRearrange(pc, ps, fc, fs);
    }
  }

  lemma {:induction false} MulRearrange(a: nat, b: nat, c: nat, d: nat)
    ensures (a * b) * (c * d) == (a * c) * (b * d)
  {
  }

  /** The property the prototype relies on: when the set bits of c are a
      subset of those of t, raising the tower of c by the exponents of the
      remaining bits of t gives the tower of t. */
  lemma {:induction false} SubsetDecode(root: nat, c: nat, t: nat, exps: seq<nat>, m: nat)
    requires m > 0 && Tower.Indexed(t, |exps|)
    requires forall b: nat :: b < 64 && Bit(c, b) ==> Bit(t, b)
    ensures Tower.Indexed(c, |exps|) && Tower.Indexed(AndNot(t, c), |exps|)
    ensures WindLow(WindLow(root, c, exps, m), AndNot(t, c), exps, m) == WindLow(root, t, exps, m)
  {
    var sel := AndNot(t, c);
    ProductSplit(c, t, exps, 0, 64);
    forall b: nat
      ensures Bit(sel, b) == (Bit(t, b) && !Bit(c, b))
    {
      AndNotBit(t, c, b);
    }
    var wc := WindLow(root, c, exps, m);
    var dec := WindLow(wc, sel, exps, m);
    var enc := WindLow(root, t, exps, m);
    if b: nat :| b < 64 && Bit(sel, b) {
      RiseBelow(wc, sel, exps, m, 0, 64, b);
      RiseBelow(root, t, exps, m, 0, 64, b);
      var pc := ExpProduct(c, exps, 0, 64);
      var ps := ExpProduct(sel, exps, 0, 64);
      RiseClosedForm(wc, sel, exps, m, 0, 64);
      RiseClosedForm(root, c, exps, m, 0, 64);
      RiseClosedForm(root, t, exps, m, 0, 64);
      PowModBase(wc, ps, m);
      PowPowMod(root, pc, ps, m);
      DivModUnique(dec, m, 0, dec);
      DivModUnique(enc, m, 0, enc);
    } else {
      RiseNoBits(wc, sel, exps, m, 0, 64);
      RiseAgree(root, c, t, exps, m, 0, 64);
    }
  }

  /** wind_encoder of the commutative variant; an IndexError when a set bit
      of target has no exponent. */
  method WindEncoder(root: nat, target: nat, exps: seq<nat>, modulus: nat) returns (r: Option<nat>)
    requires modulus > 0
    ensures r.Some? <==> Tower.Indexed(target, |exps|)
    ensures r.Some? ==> r.value == WindLow(root, target, exps, modulus)
  {
    var result := root;
    for bit := 0 to 64
      invariant Tower.IndexedRange(target, |exps|, 0, bit)
      invariant result == Rise(root, target, exps, modulus, 0, bit)
    {
      if Bit(target, bit) {
        if bit >= |exps| {
          return None;
        }
        result := Pow(result, exps[bit]) % modulus;
      }
    }
    return Some(result);
  }

  /** Every entry holds the tower of its key. */
  ghost predicate StoresTowers(es: seq<Entry>, root: nat, exps: seq<nat>, m: nat)
    requires m > 0
  {
    forall i :: 0 <= i < |es| ==>
      Tower.Indexed(es[i].pos, |exps|) && es[i].value == WindLow(root, es[i].pos, exps, m)
  }

  /** Appending the tower of an indexed key keeps every entry a tower. */
  lemma {:induction false} StoresAppended(es: seq<Entry>, root: nat, exps: seq<nat>, m: nat, k: nat, v: nat)
    requires m > 0 && StoresTowers(es, root, exps, m)
    requires Tower.Indexed(k, |exps|) && v == WindLow(root, k, exps, m)
    ensures StoresTowers(es + [Entry(k, v)], root, exps, m)
  {
    var es' := es + [Entry(k, v)];
    forall i | 0 <= i < |es'|
      ensures Tower.Indexed(es'[i].pos, |exps|) && es'[i].value == WindLow(root, es'[i].pos, exps, m)
    {
      if i < |es| {
        assert es'[i] == es[i];
      }
    }
  }

  /** Appending an indexed key extends the key list by it. */
  lemma {:induction false} KeysAppended(es: seq<Entry>, keys: seq<nat>, k: nat, v: nat, n: nat)
    requires Keys(es) == keys && Tower.AllIndexed(keys, n) && Tower.Indexed(k, n)
    ensures Keys(es + [Entry(k, v)]) == keys + [k] && Tower.AllIndexed(keys + [k], n)
  {
    assert Keys(es + [Entry(k, v)]) == keys + [k];
  }

  /** get_intermediates of the commutative variant: the same chain of keys,
      each with its tower. */
  method GetIntermediates(start: nat, end: nat, root: nat, exps: seq<nat>, modulus: nat)
    returns (d: Option<seq<Entry>>)
    requires modulus > 0
    ensures d.Some? <==> Tower.AllIndexed(Tower.Chain(start, end), |exps|)
    ensures d.Some? ==> Keys(d.value) == Tower.Chain(start, end) && StoresTowers(d.value, root, exps, modulus)
  {
    var inter: seq<Entry> := [];
    var s := start;
    ghost var done: seq<nat> := [];
    while true
      invariant done + Tower.Chain(s, end) == Tower.Chain(start, end)
      invariant Keys(inter) == done
      invariant forall k :: k in done ==> k < s
      invariant Tower.AllIndexed(done, |exps|)
      invariant StoresTowers(inter, root, exps, modulus)
      invariant done != [] ==> s <= end
      decreases end + 1 - s
    {
      Tower.ChainStep(s, end);
      var w := WindEncoder(root, s, exps, modulus);
      if w.None? {
        assert s in Tower.Chain(start, end);
        return None;
      }
      PutNewKey(inter, s, w.value);
      StoresAppended(inter, root, exps, modulus, s, w.value);
      KeysAppended(inter, done, s, w.value, |exps|);
      inter := Put(inter, s, w.value);
      var next := Tower.NextRequiredIntermediate(s);
      Tower.SuccessorAbove(s);
      if next > end {
        assert done + [s] == Tower.Chain(start, end);
        d := Some(inter);
        return;
      }
      Tower.ChainAdvance(start, end, s, done);
      done := done + [s];
      s := next;
    }
  }

  /** wind_decoder of the commutative variant: the closest stored position
      below the target, then the steps for the bits set in target and clear
      in that position, from bit 0 up to bit 63. */
  method WindDecoder(target: nat, exps: seq<nat>, modulus: nat, inter: seq<Entry>) returns (r: Option<nat>)
    requires modulus > 0
    ensures var c := Tower.Closest(inter, target, Entry(0, 0));
      && (r.Some? <==> Tower.Indexed(AndNot(target, c.pos), |exps|))
      && (r.Some? ==> r.value == WindLow(c.value, AndNot(target, c.pos), exps, modulus))
  {
    var closest, closestIntermediate := 0, 0;
    for i := 0 to |inter|
      invariant Tower.Closest(inter[i..], target, Entry(closest, closestIntermediate))
                == Tower.Closest(inter, target, Entry(0, 0))
    {
      if inter[i].pos > target {
        assert Tower.Closest(inter[i..], target, Entry(closest, closestIntermediate))
               == Entry(closest, closestIntermediate);
        break;
      }
      assert inter[i..][1..] == inter[i + 1..];
      if inter[i].pos > closest {
        closest := inter[i].pos;
        closestIntermediate := inter[i].value;
      }
    }
    ghost var sel := AndNot(target, closest);
    var result := closestIntermediate;
    for bit := 0 to 64
      invariant Tower.IndexedRange(sel, |exps|, 0, bit)
      invariant result == Rise(closestIntermediate, sel, exps, modulus, 0, bit)
    {
      AndNotBit(target, closest, bit);
      if Bit(target, bit) && !Bit(closest, bit) {
        if bit >= |exps| {
          return None;
        }
        result := Pow(result, exps[bit]) % modulus;
      }
    }
    return Some(result);
  }

  /** Decoding from the closest stored key reproduces the encoder for every
      timestamp t in [start, end] with 0 < start and end < 2^64: the closest
      key c satisfies c <= t < c + lowbit(c), so its bits are among those of
      t. */
  lemma {:induction false} DecoderMatchesEncoder(root: nat, start: nat, end: nat, t: nat, exps: seq<nat>, m: nat, es: seq<Entry>)
    requires m > 0 && Keys(es) == Tower.Chain(start, end) && StoresTowers(es, root, exps, m)
    requires 0 < start <= t <= end < Pow(2, 64)
    ensures Tower.Indexed(t, |exps|)
    ensures var c := Tower.Closest(es, t, Entry(0, 0));
      Tower.Indexed(AndNot(t, c.pos), |exps|) && WindLow(c.value, AndNot(t, c.pos), exps, m) == WindLow(root, t, exps, m)
  {
    Tower.ChainClosest(start, end, t, Entry(0, 0), es);
    var c := Tower.Closest(es, t, Entry(0, 0));
    var j := LowestBit(c.pos);
    LowestBitSpec(c.pos);
    LowestBitBelowWidth(c.pos, 64);
    CarryWindow(c.pos, t);
    assert Tower.Indexed(c.pos, |exps|);
    assert Tower.Indexed(t, |exps|);
    SubsetDecode(root, c.pos, t, exps, m);
  }

  /** The prototype's range [1, 2^64 - 1] stores exactly the 64 keys
      2^0, 2^1, ..., 2^63. The range comes in as parameters so that the
      verifier does not evaluate the chain of the literal range. */
  lemma {:induction false} PowersOfTwoChain(start: nat, end: nat)
    requires start == 1 && end == Tower.EndOfTime
    ensures |Tower.Chain(start, end)| == 64
    ensures forall k :: 0 <= k < 64 ==> Tower.Chain(start, end)[k] == Pow(2, k)
  {
    PowersFrom(0);
    assert Pow(2, 0) == start;
    forall k | 0 <= k < 64
      ensures Tower.Chain(start, end)[k] == Pow(2, k)
    {
      assert Tower.Chain(start, end)[k] == Pow(2, 0 + k);
    }
  }

  lemma {:induction false} PowersFrom(i: nat)
    requires i < 64
    ensures |Tower.Chain(Pow(2, i), Tower.EndOfTime)| == 64 - i
    ensures forall k :: 0 <= k < 64 - i ==> Tower.Chain(Pow(2, i), Tower.EndOfTime)[k] == Pow(2, i + k)
    decreases 64 - i
  {
    var end := Tower.EndOfTime;
    var p := Pow(2, i);
    Tower.EndOfTimeValue();
    LowestBitOfPow2(i);
    PowStrictMonotone(2, i, 64);
    LowFromLowest(p, 0);
    assert Tower.Successor(p) == Pow(2, i + 1);
    Tower.ChainStep(p, end);
    if i < 63 {
      PowStrictMonotone(2, i + 1, 64);
      PowersFrom(i + 1);
      var rest := Tower.Chain(Pow(2, i + 1), end);
      assert Tower.Chain(p, end) == [p] + rest;
      forall k | 0 < k < 64 - i
        ensures Tower.Chain(p, end)[k] == Pow(2, i + k)
      {
        assert rest[k - 1] == Pow(2, i + 1 + (k - 1));
      }
    }
  }
}
