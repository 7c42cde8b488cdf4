/** The nibble variant of the power tower: a timestamp is read as 16 nibble
    sections, and section s, from section 15 down to section 0, applies the
    step v := e_s^v mod m as many times as the value of its nibble. */
module TowerNibble {
  import opened Arith
  import opened Dict
  import opened Wrappers
  import Tower

  /** Nibble s of n, `((15 << 4s) & n) >> 4s`. */
  function Nibble(n: nat, s: nat): (r: nat)
    ensures r < 16
  {
    if s == 0 then n % 16 else Nibble(n / 16, s - 1)
  }

  /** The 16 nibbles of a timestamp, section 0 first. */
  function Nibbles(t: nat): (ns: seq<nat>)
    ensures |ns| == 16 && forall s :: 0 <= s < 16 ==> ns[s] == Nibble(t, s)
  {
    seq(16, s requires 0 <= s < 16 => Nibble(t, s))
  }

  /** The decoder's per-section repetition counts: how far the nibble of t is
      above that of c, or none when it is not above. */
  function Distances(t: nat, c: nat): (ds: seq<nat>)
    ensures |ds| == 16
    ensures forall s :: 0 <= s < 16 ==>
              ds[s] == if Nibble(t, s) > Nibble(c, s) then Nibble(t, s) - Nibble(c, s) else 0
  {
    seq(16, s requires 0 <= s < 16 => if Nibble(t, s) > Nibble(c, s) then Nibble(t, s) - Nibble(c, s) else 0)
  }

  /** Every section in [lo, hi) with a nonzero count has an exponent. */
  ghost predicate Indexed(counts: seq<nat>, n: nat, lo: nat, hi: nat)
  {
    forall s :: lo <= s < hi && s < |counts| && counts[s] > 0 ==> s < n
  }

  /** k applications of v := e^v mod m. */
  ghost function Repeat(e: nat, v: nat, k: nat, m: nat): nat
    requires m > 0
  {
    if k == 0 then v else Pow(e, Repeat(e, v, k - 1, m)) % m
  }

  lemma {:induction false} RepeatAdd(e: nat, v: nat, a: nat, b: nat, m: nat)
    requires m > 0
    ensures Repeat(e, Repeat(e, v, a, m), b, m) == Repeat(e, v, a + b, m)
    decreases b
  {
    if b > 0 {
      RepeatAdd(e, v, a, b - 1, m);
    }
  }

  /** The sections [lo, hi), applied from section hi-1 down to lo, each with
      its count of repetitions. */
  ghost function Ladder(v: nat, counts: seq<nat>, exps: seq<nat>, m: nat, lo: nat, hi: nat): nat
    requires m > 0 && lo <= hi <= |counts| && Indexed(counts, |exps|, lo, hi)
    decreases hi - lo
  {
    if lo == hi then v
    else
      var w := Ladder(v, counts, exps, m, lo + 1, hi);
      if counts[lo] == 0 then w else Repeat(exps[lo], w, counts[lo], m)
  }

  lemma {:induction false} LadderNoCounts(v: nat, counts: seq<nat>, exps: seq<nat>, m: nat, lo: nat, hi: nat)
    requires m > 0 && lo <= hi <= |counts|
    requires forall s :: lo <= s < hi ==> counts[s] == 0
    ensures Indexed(counts, |exps|, lo, hi) && Ladder(v, counts, exps, m, lo, hi) == v
    decreases hi - lo
  {
    if lo < hi {
      LadderNoCounts(v, counts, exps, m, lo + 1, hi);
    }
  }

  lemma {:induction false} LadderAgree(v: nat, c1: seq<nat>, c2: seq<nat>, exps: seq<nat>, m: nat, lo: nat, hi: nat)
    requires m > 0 && lo <= hi <= |c1| && hi <= |c2| && Indexed(c1, |exps|, lo, hi)
    requires forall s :: lo <= s < hi ==> c1[s] == c2[s]
    ensures Indexed(c2, |exps|, lo, hi)
    ensures Ladder(v, c1, exps, m, lo, hi) == Ladder(v, c2, exps, m, lo, hi)
    decreases hi - lo
  {
    if lo < hi {
      LadderAgree(v, c1, c2, exps, m, lo + 1, hi);
    }
  }

  lemma {:induction false} LadderSplit(v: nat, counts: seq<nat>, exps: seq<nat>, m: nat, lo: nat, mid: nat, hi: nat)
    requires m > 0 && lo <= mid <= hi <= |counts| && Indexed(counts, |exps|, lo, hi)
    ensures Indexed(counts, |exps|, lo, mid) && Indexed(counts, |exps|, mid, hi)
    ensures Ladder(v, counts, exps, m, lo, hi) == Ladder(Ladder(v, counts, exps, m, mid, hi), counts, exps, m, lo, mid)
    decreases mid - lo
  {
    if lo < mid {
      LadderSplit(v, counts, exps, m, lo + 1, mid, hi);
    }
  }

  /** The full tower of a timestamp. */
  ghost function WindNibble(root: nat, target: nat, exps: seq<nat>, m: nat): nat
    requires m > 0 && Indexed(Nibbles(target), |exps|, 0, 16)
  {
    Ladder(root, Nibbles(target), exps, m, 0, 16)
  }

  /** wind_encoder of the nibble variant; an IndexError when a nonzero
      section has no exponent. */
  method WindEncoder(root: nat, target: nat, exps: seq<nat>, modulus: nat) returns (r: Option<nat>)
    requires modulus > 0
    ensures r.Some? <==> Indexed(Nibbles(target), |exps|, 0, 16)
    ensures r.Some? ==> r.value == WindNibble(root, target, exps, modulus)
  {
    ghost var ns := Nibbles(target);
    var result := root;
    for section := 16 downto 0
      invariant Indexed(ns, |exps|, section, 16)
      invariant result == Ladder(root, ns, exps, modulus, section, 16)
    {
      var times := Nibble(target, section);
      ghost var before := result;
      ghost var e := if section < |exps| then exps[section] else 0;
      for i := 0 to times
        invariant 0 < i ==> section < |exps|
        invariant result == Repeat(e, before, i, modulus)
      {
        if section >= |exps| {
          return None;
        }
        result := Pow(exps[section], result) % modulus;
      }
    }
    return Some(result);
  }

  /** The lowest section in [i, 16) with a nonzero nibble, or 16. */
  function LowSection(n: nat, i: nat): nat
    decreases 16 - i
  {
    if i >= 16 then 16 else if Nibble(n, i) != 0 then i else LowSection(n, i + 1)
  }

  /** The amount that rounds section s of n up to the next multiple of
      16^(s+1): (16 - a) * 16^s for the nibble a of section s; nothing for
      s = 16. */
  function Complement(n: nat, s: nat): nat
  {
    if s >= 16 then 0
    else
      var k: nat := 16 - Nibble(n, s);
      var p: nat := Pow(16, s);
      MulNat(k, p);
      k * p
  }

  lemma {:induction false} MulNat(a: nat, b: nat)
    ensures a * b >= 0
  {
  }

  /** The next stored position: its lowest nonzero nibble section rounded
      up; unchanged when sections 0..15 are all zero. */
  function NibbleSuccessor(n: nat): nat
  {
    n + Complement(n, LowSection(n, 0))
  }

  /** The masked arithmetic of one section: with bit = 16^s, mask = 15 * bit
      and common = a * bit for the nibble a, `mask - common + bit` is
      (16 - a) * bit, and common is nonzero exactly when a is. */
  lemma {:induction false} SectionArithmetic(a: nat, bit: nat)
    requires a < 16 && bit > 0
    ensures a * bit <= bit * 15
    ensures bit * 15 - a * bit + bit == (16 - a) * bit
    ensures a * bit != 0 <==> a != 0
  {
    MulAtLeast(bit, a);
    assert (16 - a) * bit == 16 * bit - a * bit;
    MulMonotoneLeft(15, a, bit);
  }

  lemma {:induction false} MulMonotoneLeft(x: nat, y: nat, k: nat)
    requires x >= y
    ensures x * k >= y * k
  {
  }

  /** next_required_intermediate of the nibble variant. */
  method NextRequiredIntermediate(start: nat) returns (r: nat)
    ensures r == NibbleSuccessor(start)
  {
    var complement := 0;
    for section := 16 downto 0
      invariant complement == Complement(start, LowSection(start, section))
    {
      var bit := Pow(16, section);
      PowPositive(16, section);
      var mask := bit * 15;
      var a := Nibble(start, section);
      var common := a * bit;
      SectionArithmetic(a, bit);
      if common != 0 {
        complement := mask - common + bit;
      }
    }
    r := start + complement;
  }

  /** The lowest nonzero nibble section of a positive number, unbounded. */
  function LowestNibble(n: nat): nat
    requires n > 0
  {
    if n % 16 != 0 then 0 else 1 + LowestNibble(n / 16)
  }

  lemma {:induction false} LowestNibbleSpec(n: nat)
    requires n > 0
    ensures Nibble(n, LowestNibble(n)) != 0
    ensures forall s: nat :: s < LowestNibble(n) ==> Nibble(n, s) == 0
    ensures Pow(16, LowestNibble(n)) <= n
  {
    if n % 16 == 0 {
      LowestNibbleSpec(n / 16);
      forall s: nat | s < LowestNibble(n)
        ensures Nibble(n, s) == 0
      {
        if s > 0 {
          assert Nibble(n / 16, s - 1) == 0;
        }
      }
    }
  }

  lemma {:induction false} Pow16To2(k: nat)
    ensures Pow(16, k) == Pow(2, 4 * k)
  {
    assert Pow(2, 4) == 16;
    PowMul(2, 4, k);
  }

  /** For a positive number below 2^64 the 16-section scan finds its lowest
      nonzero nibble. */
  lemma {:induction false} LowSectionLowest(n: nat, i: nat)
    requires 0 < n < Pow(2, 64) && i <= LowestNibble(n)
    ensures LowestNibble(n) < 16 && LowSection(n, i) == LowestNibble(n)
  {
    LowestNibbleBelow16(n);
    LowSectionFinds(n, i);
  }

  /** A positive number below 2^64 = 16^16 has a nonzero nibble among its
      16 sections. */
  lemma {:induction false} LowestNibbleBelow16(n: nat)
    requires 0 < n < Pow(2, 64)
    ensures LowestNibble(n) < 16
  {
    var low := LowestNibble(n);
    LowestNibbleSpec(n);
    Pow16To2(16);
    if low >= 16 {
      PowMonotone(16, 16, low);
    }
  }

  /** Scanning from any section up to the lowest nonzero one stops there. */
  lemma {:induction false} LowSectionFinds(n: nat, i: nat)
    requires n > 0 && i <= LowestNibble(n) < 16
    ensures LowSection(n, i) == LowestNibble(n)
    decreases 16 - i
  {
    LowestNibbleSpec(n);
    if i < LowestNibble(n) {
      assert Nibble(n, i) == 0;
      LowSectionFinds(n, i + 1);
    }
  }

  lemma {:induction false} LowSectionOfZero(i: nat)
    requires i <= 16
    ensures LowSection(0, i) == 16
    decreases 16 - i
  {
    if i < 16 {
      ZeroNibble(i);
      LowSectionOfZero(i + 1);
    }
  }

  lemma {:induction false} ZeroNibble(s: nat)
    ensures Nibble(0, s) == 0
  {
    if s > 0 {
      ZeroNibble(s - 1);
    }
  }

  /** Rounding up at the lowest nonzero nibble: the result is a multiple of
      16^(L+1), and every number from c below it has the nibbles of c above
      section L, at least the nibble of c at L, and c is zero below L. */
  lemma {:induction false} NibbleWindow(c: nat, t: nat)
    requires c > 0 && c <= t < c + (16 - Nibble(c, LowestNibble(c))) * Pow(16, LowestNibble(c))
    ensures forall s: nat :: s > LowestNibble(c) ==> Nibble(t, s) == Nibble(c, s)
    ensures Nibble(t, LowestNibble(c)) >= Nibble(c, LowestNibble(c))
  {
    var L := LowestNibble(c);
    var a := Nibble(c, L);
    if L == 0 {
      assert c == 16 * (c / 16) + a;
      assert t / 16 == c / 16 && t % 16 >= a by {
        DivModUnique(t, 16, c / 16, a + (t - c));
      }
      forall s: nat | s > 0
        ensures Nibble(t, s) == Nibble(c, s)
      {
      }
    } else {
      assert c == 16 * (c / 16);
      assert Pow(16, L) == 16 * Pow(16, L - 1);
      assert t / 16 < c / 16 + (16 - a) * Pow(16, L - 1);
      NibbleWindow(c / 16, t / 16);
      forall s: nat | s > L
        ensures Nibble(t, s) == Nibble(c, s)
      {
        assert Nibble(t / 16, s - 1) == Nibble(c / 16, s - 1);
      }
    }
  }

  /** The rounded-up value is q * 16^(L+1) for some q. */
  lemma {:induction false} NibbleCarry(c: nat) returns (q: nat)
    requires c > 0
    ensures c + Complement(c, LowestNibble(c)) == q * Pow(16, LowestNibble(c) + 1) || LowestNibble(c) >= 16
  {
    var L := LowestNibble(c);
    if L >= 16 {
      return 0;
    }
    var k: nat := 16 - Nibble(c, L);
    assert Complement(c, L) == k * Pow(16, L);
    if L == 0 {
      q := c / 16 + 1;
      assert c == 16 * (c / 16) + (16 - k);
    } else {
      var c' := c / 16;
      assert c == 16 * c';
      var p1 := Pow(16, L - 1);
      var p := Pow(16, L);
      assert p == 16 * p1;
      var q' := NibbleCarry(c');
      assert Complement(c', L - 1) == k * p1;
      assert c' + k * p1 == q' * p;
      MulRotate(k, 16, p1);
      assert c + k * p == 16 * (c' + k * p1);
      MulRotate(16, q', p);
      assert Pow(16, L + 1) == 16 * p;
      q := q';
    }
  }

  /** For 0 < n < 2^64 the successor rounds the lowest nonzero section L of
      n up: it is strictly larger and a multiple of 16^(L+1). */
  lemma {:induction false} NibbleSuccessorRounds(n: nat)
    requires 0 < n < Pow(2, 64)
    ensures LowestNibble(n) < 16
    ensures NibbleSuccessor(n) == n + Complement(n, LowestNibble(n))
    ensures NibbleSuccessor(n) > n
    ensures NibbleSuccessor(n) % Pow(16, LowestNibble(n) + 1) == 0
  {
    var L := LowestNibble(n);
    LowSectionLowest(n, 0);
    PowPositive(16, L);
    PowPositive(16, L + 1);
    var k: nat := 16 - Nibble(n, L);
    assert Complement(n, L) == k * Pow(16, L);
    MulAtLeast(k, Pow(16, L));
    var q := NibbleCarry(n);
    DivModUnique(NibbleSuccessor(n), Pow(16, L + 1), q, 0);
  }

  /** When sections 0..15 are all zero, as for 0, the successor is the
      position itself, so get_intermediates would store it forever. */
  lemma {:induction false} NibbleSuccessorStuck(n: nat)
    ensures LowSection(n, 0) == 16 ==> NibbleSuccessor(n) == n
    ensures NibbleSuccessor(0) == 0
    ensures NibbleSuccessor(n) >= n
  {
    LowSectionOfZero(0);
  }

  /** The keys get_intermediates stores: start, then successive successors
      while they do not exceed end. The loop terminates when start > end or
      when 0 < start and end < 2^64. */
  function NibbleChain(s: nat, end: nat): seq<nat>
    requires s > end || (0 < s && end < Pow(2, 64))
    decreases end + 1 - s
  {
    NibbleSuccessorStuck(s);
    if NibbleSuccessor(s) > end then [s]
    else
      NibbleSuccessorRounds(s);
      [s] + NibbleChain(NibbleSuccessor(s), end)
  }

  lemma {:induction false} NibbleChainStep(s: nat, end: nat)
    requires s > end || (0 < s && end < Pow(2, 64))
    ensures NibbleSuccessor(s) > end ==> NibbleChain(s, end) == [s]
    ensures NibbleSuccessor(s) <= end ==>
              && 0 < s < NibbleSuccessor(s) && end < Pow(2, 64)
              && NibbleChain(s, end) == [s] + NibbleChain(NibbleSuccessor(s), end)
  {
    NibbleSuccessorStuck(s);
    if NibbleSuccessor(s) <= end {
      NibbleSuccessorRounds(s);
    }
  }

  /** Every key's nonzero sections have exponents. */
  ghost predicate AllIndexed(keys: seq<nat>, n: nat)
  {
    forall k :: k in keys ==> Indexed(Nibbles(k), n, 0, 16)
  }

  /** The dict get_intermediates returns: every key with its tower. */
  ghost function Encoded(keys: seq<nat>, root: nat, exps: seq<nat>, m: nat): (es: seq<Entry>)
    requires m > 0 && AllIndexed(keys, |exps|)
    ensures Keys(es) == keys
  {
    seq(|keys|, i requires 0 <= i < |keys| => Entry(keys[i], WindNibble(root, keys[i], exps, m)))
  }

  lemma {:induction false} EncodedSnoc(keys: seq<nat>, k: nat, root: nat, exps: seq<nat>, m: nat)
    requires m > 0 && AllIndexed(keys, |exps|) && Indexed(Nibbles(k), |exps|, 0, 16)
    ensures AllIndexed(keys + [k], |exps|)
    ensures Encoded(keys + [k], root, exps, m) == Encoded(keys, root, exps, m) + [Entry(k, WindNibble(root, k, exps, m))]
  {
  }

  lemma {:induction false} EncodedMember(e: Entry, keys: seq<nat>, root: nat, exps: seq<nat>, m: nat)
    requires m > 0 && AllIndexed(keys, |exps|) && e in Encoded(keys, root, exps, m)
    ensures e.pos in keys && Indexed(Nibbles(e.pos), |exps|, 0, 16)
    ensures e.value == WindNibble(root, e.pos, exps, m)
  {
  }

  lemma {:induction false} NibbleChainAdvance(start: nat, end: nat, s: nat, done: seq<nat>)
    requires start > end || (0 < start && end < Pow(2, 64))
    requires s > end || (0 < s && end < Pow(2, 64))
    requires done + NibbleChain(s, end) == NibbleChain(start, end) && NibbleSuccessor(s) <= end
    ensures 0 < NibbleSuccessor(s) && end < Pow(2, 64)
    ensures (done + [s]) + NibbleChain(NibbleSuccessor(s), end) == NibbleChain(start, end)
  {
    NibbleChainStep(s, end);
    assert (done + [s]) + NibbleChain(NibbleSuccessor(s), end) == done + ([s] + NibbleChain(NibbleSuccessor(s), end));
  }

  /** get_intermediates of the nibble variant, for the inputs on which its
      loop terminates. */
  method GetIntermediates(start: nat, end: nat, root: nat, exps: seq<nat>, modulus: nat)
    returns (d: Option<seq<Entry>>)
    requires modulus > 0
    requires start > end || (0 < start && end < Pow(2, 64))
    ensures d.Some? <==> AllIndexed(NibbleChain(start, end), |exps|)
    ensures d.Some? ==> d.value == Encoded(NibbleChain(start, end), root, exps, modulus)
  {
    var inter: seq<Entry> := [];
    var s := start;
    ghost var done: seq<nat> := [];
    while true
      invariant s > end || (0 < s && end < Pow(2, 64))
      invariant done + NibbleChain(s, end) == NibbleChain(start, end)
      invariant forall k :: k in done ==> k < s
      invariant AllIndexed(done, |exps|)
      invariant inter == Encoded(done, root, exps, modulus)
      invariant done != [] ==> s <= end
      decreases end + 1 - s
    {
      NibbleChainStep(s, end);
      var w := WindEncoder(root, s, exps, modulus);
      if w.None? {
        assert s in NibbleChain(start, end);
        return None;
      }
      PutNewKey(inter, s, w.value);
      EncodedSnoc(done, s, root, exps, modulus);
      inter := Put(inter, s, w.value);
      var next := NextRequiredIntermediate(s);
      if next > end {
        assert done + [s] == NibbleChain(start, end);
        d := Some(inter);
        return;
      }
      NibbleChainAdvance(start, end, s, done);
      done := done + [s];
      s := next;
    }
  }

  /** Python's `>>` on the masked difference: an exact multiple of 16^s
      shifted right by 4s bits. */
  lemma {:induction false} ShiftExact(a: int, b: int, bit: nat)
    requires bit > 0
    ensures (a * bit - b * bit) / bit == a - b
  {
    assert a * bit - b * bit == (a - b) * bit;
    DivModUnique(a * bit - b * bit, bit, a - b, 0);
  }

  /** wind_decoder of the nibble variant: the closest stored position below
      the target, then per section, from 15 down to 0, the steps for how far
      the target's nibble is above the closest position's (none when it is
      not above). */
  method WindDecoder(target: nat, exps: seq<nat>, modulus: nat, inter: seq<Entry>) returns (r: Option<nat>)
    requires modulus > 0
    ensures var c := Tower.Closest(inter, target, Entry(0, 0));
      && (r.Some? <==> Indexed(Distances(target, c.pos), |exps|, 0, 16))
      && (r.Some? ==> r.value == Ladder(c.value, Distances(target, c.pos), exps, modulus, 0, 16))
  {
    var closest, closestIntermediate := 0, 0;
    for i := 0 to |inter|
      invariant Tower.Closest(inter[i..], target, Entry(closest, closestIntermediate))
                == Tower.Closest(inter, target, Entry(0, 0))
    {
      if inter[i].pos > target {
        assert Tower.Closest(inter[i..], target, Entry(closest, closestIntermediate))
               == Entry(closest, closestIntermediate);
        break;
      }
      assert inter[i..][1..] == inter[i + 1..];
      if inter[i].pos > closest {
        closest := inter[i].pos;
        closestIntermediate := inter[i].value;
      }
    }
    ghost var ds := Distances(target, closest);
    var result := closestIntermediate;
    for section := 16 downto 0
      invariant Indexed(ds, |exps|, section, 16)
      invariant result == Ladder(closestIntermediate, ds, exps, modulus, section, 16)
    {
      var bit := Pow(16, section);
      PowPositive(16, section);
      var nt: int, nc: int := Nibble(target, section), Nibble(closest, section);
      var distance := (nt * bit - nc * bit) / bit;
      ShiftExact(nt, nc, bit);
      var times := if distance > 0 then distance else 0;
      ghost var before := result;
      ghost var e := if section < |exps| then exps[section] else 0;
      for i := 0 to times
        invariant 0 < i ==> section < |exps|
        invariant result == Repeat(e, before, i, modulus)
      {
        if section >= |exps| {
          return None;
        }
        result := Pow(exps[section], result) % modulus;
      }
    }
    return Some(result);
  }

  /** Over entries stored at the chain's keys, the scan for a target in
      [s, end] picks one of the entries, at a key c with
      c <= t < NibbleSuccessor(c). */
  lemma {:induction false} NibbleChainClosest(s: nat, end: nat, t: nat, acc: Entry, es: seq<Entry>)
    requires 0 < s <= t <= end < Pow(2, 64) && acc.pos < s
    requires Keys(es) == NibbleChain(s, end)
    ensures var c := Tower.Closest(es, t, acc);
      c in es && 0 < c.pos <= t < NibbleSuccessor(c.pos)
    decreases end - s
  {
    NibbleChainStep(s, end);
    NibbleSuccessorRounds(s);
    var next := NibbleSuccessor(s);
    assert es[0].pos == s;
    var tail := es[1..];
    assert Keys(tail) == Keys(es)[1..];
    assert Tower.Closest(es, t, acc) == Tower.Closest(tail, t, es[0]);
    if next <= end {
      if next > t {
        assert tail[0].pos == next;
      } else {
        NibbleChainClosest(next, end, t, es[0], tail);
      }
    }
  }

  /** The ladder identity behind decoding, on the count vectors alone: when
      nc is zero below L, positive at L and agrees with nt above L, and ds
      holds what nt adds to nc, climbing nc and then ds is climbing nt. */
  lemma {:induction false} LadderResume(root: nat, nc: seq<nat>, nt: seq<nat>, ds: seq<nat>, exps: seq<nat>, m: nat, L: nat)
    requires m > 0 && |nc| == 16 && |nt| == 16 && |ds| == 16 && L < 16
    requires Indexed(nc, |exps|, 0, 16)
    requires forall s :: L < s < 16 ==> nt[s] == nc[s] && ds[s] == 0
    requires nc[L] > 0 && nt[L] == nc[L] + ds[L]
    requires forall s :: 0 <= s < L ==> nc[s] == 0 && ds[s] == nt[s]
    ensures Indexed(nt, |exps|, 0, 16) && Indexed(ds, |exps|, 0, 16)
    ensures Ladder(Ladder(root, nc, exps, m, 0, 16), ds, exps, m, 0, 16) == Ladder(root, nt, exps, m, 0, 16)
  {
    assert L < |exps|;
    assert Indexed(nt, |exps|, 0, 16);
    assert Indexed(ds, |exps|, 0, 16);
    var e := exps[L];
    var A := Ladder(root, nc, exps, m, L + 1, 16);
    LadderAgree(root, nc, nt, exps, m, L + 1, 16);
    LadderSplit(root, nc, exps, m, 0, L, 16);
    LadderNoCounts(Ladder(root, nc, exps, m, L, 16), nc, exps, m, 0, L);
    var X := Repeat(e, A, nc[L], m);
    assert Ladder(root, nc, exps, m, 0, 16) == X;
    LadderSplit(X, ds, exps, m, 0, L, 16);
    LadderNoCounts(X, ds, exps, m, L + 1, 16);
    RepeatAdd(e, A, nc[L], ds[L], m);
    var Y := Repeat(e, A, nt[L], m);
    assert Ladder(X, ds, exps, m, L, 16) == Y;
    LadderSplit(root, nt, exps, m, 0, L, 16);
    assert Ladder(root, nt, exps, m, L, 16) == Y;
    LadderAgree(Y, ds, nt, exps, m, 0, L);
  }

  /** The rounding argument: for c <= t < NibbleSuccessor(c), t has the
      nibbles of c above the lowest nonzero section L of c and at least its
      nibble at L, and c is zero below L; so the tower of c, continued by the
      per-section distances, is the tower of t. */
  lemma {:induction false} NibbleDecode(root: nat, c: nat, t: nat, exps: seq<nat>, m: nat)
    requires m > 0 && 0 < c <= t < NibbleSuccessor(c) && c < Pow(2, 64)
    requires Indexed(Nibbles(c), |exps|, 0, 16)
    ensures Indexed(Nibbles(t), |exps|, 0, 16) && Indexed(Distances(t, c), |exps|, 0, 16)
    ensures Ladder(WindNibble(root, c, exps, m), Distances(t, c), exps, m, 0, 16) == WindNibble(root, t, exps, m)
  {
    var L := LowestNibble(c);
    NibbleSuccessorRounds(c);
    LowestNibbleSpec(c);
    assert Complement(c, L) == (16 - Nibble(c, L)) * Pow(16, L);
    NibbleWindow(c, t);
    LadderResume(root, Nibbles(c), Nibbles(t), Distances(t, c), exps, m, L);
  }

  /** What the prototype sets out to check: for every timestamp t in
      [start, end], with 0 < start and end < 2^64, finishing the tower from
      the closest stored intermediate reproduces the encoder's value. */
  lemma {:induction false} DecoderMatchesEncoder(root: nat, start: nat, end: nat, t: nat, exps: seq<nat>, m: nat)
    requires m > 0 && 0 < start <= t <= end < Pow(2, 64)
    requires AllIndexed(NibbleChain(start, end), |exps|)
    ensures Indexed(Nibbles(t), |exps|, 0, 16)
    ensures var c := Tower.Closest(Encoded(NibbleChain(start, end), root, exps, m), t, Entry(0, 0));
      && Indexed(Distances(t, c.pos), |exps|, 0, 16)
      && Ladder(c.value, Distances(t, c.pos), exps, m, 0, 16) == WindNibble(root, t, exps, m)
  {
    var es := Encoded(NibbleChain(start, end), root, exps, m);
    NibbleChainClosest(start, end, t, Entry(0, 0), es);
    var c := Tower.Closest(es, t, Entry(0, 0));
    EncodedMember(c, NibbleChain(start, end), root, exps, m);
    NibbleDecode(root, c.pos, t, exps, m);
  }
}
