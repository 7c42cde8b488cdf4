/** The time-window power tower of the subscription generator: the value for
    a 64-bit timestamp t is obtained from a root by applying, for every set
    bit b of t from bit 63 down to bit 0, the step v := e_b^v mod m.
    Intermediates are stored at positions whose tower is a prefix of the
    tower of every timestamp up to the next position, so a decoder can finish
    the tower from the closest stored position below the timestamp.

    Python dicts are modelled as the sequence of their entries in insertion
    order; an IndexError on the exponent list is the `None` result. */
module Tower {
  import opened Arith
  import opened Bits
  import opened Dict
  import opened Wrappers

  /** The last 64-bit timestamp, 2^64 - 1. */
  const EndOfTime: nat := 0xFFFF_FFFF_FFFF_FFFF

  lemma {:induction false} EndOfTimeValue()
    ensures Pow(2, 64) == EndOfTime + 1
  {
    assert Pow(2, 4) == 16;
    PowAdd(2, 4, 4);
    assert Pow(2, 8) == 0x100;
    PowAdd(2, 8, 8);
    assert Pow(2, 16) == 0x1_0000;
    PowAdd(2, 16, 16);
    assert Pow(2, 32) == 0x1_0000_0000;
    PowAdd(2, 32, 32);
  }

  /** Time run backwards, `end_of_time - t`: the backward tower is wound
      to the mirror image of each timestamp. */
  function Mirror(t: nat): (r: nat)
    requires t <= EndOfTime
    ensures r <= EndOfTime && r + t == EndOfTime
  {
    EndOfTime - t
  }

  /** Every set bit of `sel` in [lo, hi) has an exponent in a list of length n. */
  ghost predicate IndexedRange(sel: nat, n: nat, lo: nat, hi: nat)
  {
    forall b: nat :: lo <= b < hi && Bit(sel, b) ==> b < n
  }

  /** The 64-bit scan over `sel` never indexes past a list of length n. */
  ghost predicate Indexed(sel: nat, n: nat)
  {
    IndexedRange(sel, n, 0, 64)
  }

  /** The tower steps for the set bits of `sel` in [lo, hi), applied from bit
      hi-1 down to bit lo, starting from v. */
  ghost function Climb(v: nat, sel: nat, exps: seq<nat>, m: nat, lo: nat, hi: nat): nat
    requires m > 0 && lo <= hi && IndexedRange(sel, |exps|, lo, hi)
    decreases hi - lo
  {
    if lo == hi then v
    else
      var w := Climb(v, sel, exps, m, lo + 1, hi);
      if Bit(sel, lo) then Pow(exps[lo], w) % m else w
  }

  /** The full 64-bit tower of `target` over `root`. */
  ghost function Wind(root: nat, target: nat, exps: seq<nat>, m: nat): nat
    requires m > 0 && Indexed(target, |exps|)
  {
    Climb(root, target, exps, m, 0, 64)
  }

  /** A range with no set bits applies no step. */
  lemma {:induction false} ClimbNoBits(v: nat, sel: nat, exps: seq<nat>, m: nat, lo: nat, hi: nat)
    requires m > 0 && lo <= hi
    requires forall b: nat :: lo <= b < hi ==> !Bit(sel, b)
    ensures IndexedRange(sel, |exps|, lo, hi)
    ensures Climb(v, sel, exps, m, lo, hi) == v
    decreases hi - lo
  {
    if lo < hi {
      ClimbNoBits(v, sel, exps, m, lo + 1, hi);
    }
  }

  /** Selectors that agree on [lo, hi) give the same tower there. */
  lemma {:induction false} ClimbAgree(v: nat, s1: nat, s2: nat, exps: seq<nat>, m: nat, lo: nat, hi: nat)
    requires m > 0 && lo <= hi && IndexedRange(s1, |exps|, lo, hi)
    requires forall b: nat :: lo <= b < hi ==> Bit(s1, b) == Bit(s2, b)
    ensures IndexedRange(s2, |exps|, lo, hi)
    ensures Climb(v, s1, exps, m, lo, hi) == Climb(v, s2, exps, m, lo, hi)
    decreases hi - lo
  {
    if lo < hi {
      ClimbAgree(v, s1, s2, exps, m, lo + 1, hi);
    }
  }

  /** The high bits [mid, hi) are applied first, then the low bits [lo, mid). */
  lemma {:induction false} ClimbSplit(v: nat, sel: nat, exps: seq<nat>, m: nat, lo: nat, mid: nat, hi: nat)
    requires m > 0 && lo <= mid <= hi && IndexedRange(sel, |exps|, lo, hi)
    ensures IndexedRange(sel, |exps|, lo, mid) && IndexedRange(sel, |exps|, mid, hi)
    ensures Climb(v, sel, exps, m, lo, hi) == Climb(Climb(v, sel, exps, m, mid, hi), sel, exps, m, lo, mid)
    decreases mid - lo
  {
    if lo < mid {
      ClimbSplit(v, sel, exps, m, lo + 1, mid, hi);
    }
  }

  /** wind_encoder: the tower of `target` over `root`; an IndexError when a
      set bit of target has no exponent. */
  method WindEncoder(root: nat, target: nat, exps: seq<nat>, modulus: nat) returns (r: Option<nat>)
    requires modulus > 0
    ensures r.Some? <==> Indexed(target, |exps|)
    ensures r.Some? ==> r.value == Wind(root, target, exps, modulus)
  {
    var result := root;
    for bit := 64 downto 0
      invariant IndexedRange(target, |exps|, bit, 64)
      invariant result == Climb(root, target, exps, modulus, bit, 64)
    {
      if Bit(target, bit) {
        if bit >= |exps| {
          return None;
        }
        result := Pow(exps[bit], result) % modulus;
      }
    }
    return Some(result);
  }

  /** With no set bit below 64 the root comes back unchanged (target 0 in
      particular); otherwise the result is a residue below the modulus. */
  lemma {:induction false} WindRange(root: nat, target: nat, exps: seq<nat>, m: nat)
    requires m > 0 && Indexed(target, |exps|)
    ensures LowFrom(target, 0) == 64 ==> Wind(root, target, exps, m) == root
    ensures LowFrom(target, 0) < 64 ==> Wind(root, target, exps, m) < m
    ensures target == 0 ==> Wind(root, target, exps, m) == root
  {
    var j := LowFrom(target, 0);
    LowFromSpec(target, 0);
    if target == 0 {
      LowFromOfZero(0);
    }
    if j == 64 {
      ClimbNoBits(root, target, exps, m, 0, 64);
    } else {
      ClimbSplit(root, target, exps, m, 0, j, 64);
      ClimbNoBits(Climb(root, target, exps, m, j, 64), target, exps, m, 0, j);
    }
  }

  /** The next stored position after s: s plus its lowest set bit among bits
      0..63, or plus 2^64 when none of them is set. */
  function Successor(s: nat): nat
  {
    s + Pow(2, LowFrom(s, 0))
  }

  /** next_required_intermediate. */
  method NextRequiredIntermediate(start: nat) returns (r: nat)
    ensures r == Successor(start)
  {
    var last := 64;
    for bit := 64 downto 0
      invariant last == LowFrom(start, bit)
    {
      if Bit(start, bit) {
        last := bit;
      }
    }
    r := start + Pow(2, last);
  }

  lemma {:induction false} SuccessorAbove(s: nat)
    ensures Successor(s) > s
  {
    PowPositive(2, LowFrom(s, 0));
  }

  /** The successor is above s; it is 2^64 for s = 0; for 0 < s < 2^64 it is
      s + lowbit(s), and its lowest set bit is strictly higher than that of s. */
  lemma {:induction false} SuccessorFacts(s: nat)
    ensures Successor(s) > s
    ensures s == 0 ==> Successor(s) == Pow(2, 64)
    ensures 0 < s < Pow(2, 64) ==>
              Successor(s) == s + Pow(2, LowestBit(s)) && LowestBit(Successor(s)) > LowestBit(s)
  {
    SuccessorAbove(s);
    if s == 0 {
      LowFromOfZero(0);
    } else if s < Pow(2, 64) {
      var j := LowestBit(s);
      LowFromLowest(s, 0);
      assert Successor(s) == s + Pow(2, j);
      CarryRaisesLowBit(s);
    }
  }

  /** The keys get_intermediates stores, in insertion order: start, then
      successive successors as long as they do not exceed end. */
  function Chain(s: nat, end: nat): seq<nat>
    decreases end + 1 - s
  {
    SuccessorAbove(s);
    [s] + (if Successor(s) > end then [] else Chain(Successor(s), end))
  }

  /** The first key is start (present even when start > end); every later key
      is at most end; each key is the successor of the previous one, so the
      keys strictly increase; the successor of the last key exceeds end. */
  lemma {:induction false} ChainShape(s: nat, end: nat)
    ensures var ks := Chain(s, end);
      && |ks| >= 1 && ks[0] == s && Successor(ks[|ks| - 1]) > end
      && (forall i :: 0 < i < |ks| ==> s < ks[i] <= end)
      && (forall i :: 0 <= i < |ks| - 1 ==> ks[i + 1] == Successor(ks[i]))
      && (forall i, j :: 0 <= i < j < |ks| ==> ks[i] < ks[j])
    decreases end + 1 - s
  {
    SuccessorAbove(s);
    ChainStep(s, end);
    if Successor(s) <= end {
      var rest := Chain(Successor(s), end);
      ChainShape(Successor(s), end);
      var ks := [s] + rest;
      assert forall i :: 0 < i < |ks| ==> ks[i] == rest[i - 1];
      forall i, j | 0 <= i < j < |ks|
        ensures ks[i] < ks[j]
      {
        if i > 0 {
          assert rest[i - 1] < rest[j - 1];
        }
      }
    }
  }

  /** Every key has an exponent for each of its set bits. */
  ghost predicate AllIndexed(keys: seq<nat>, n: nat)
  {
    forall k :: k in keys ==> Indexed(k, n)
  }

  /** The dict get_intermediates returns: every key with its tower. */
  ghost function Encoded(keys: seq<nat>, root: nat, exps: seq<nat>, m: nat): (es: seq<Entry>)
    requires m > 0 && AllIndexed(keys, |exps|)
    ensures Keys(es) == keys
  {
    seq(|keys|, i requires 0 <= i < |keys| => Entry(keys[i], Wind(root, keys[i], exps, m)))
  }

  /** Encoding one more key appends its entry. */
  lemma {:induction false} EncodedSnoc(keys: seq<nat>, k: nat, root: nat, exps: seq<nat>, m: nat)
    requires m > 0 && AllIndexed(keys, |exps|) && Indexed(k, |exps|)
    ensures AllIndexed(keys + [k], |exps|)
    ensures Encoded(keys + [k], root, exps, m) == Encoded(keys, root, exps, m) + [Entry(k, Wind(root, k, exps, m))]
  {
  }

  /** One unfolding of Chain. */
  lemma {:induction false} ChainStep(s: nat, end: nat)
    ensures Successor(s) > end ==> Chain(s, end) == [s]
    ensures Successor(s) <= end ==> Chain(s, end) == [s] + Chain(Successor(s), end)
  {
  }

  /** Moving the current key from the remaining chain to the stored ones. */
  lemma {:induction false} ChainAdvance(start: nat, end: nat, s: nat, done: seq<nat>)
    requires done + Chain(s, end) == Chain(start, end) && Successor(s) <= end
    ensures (done + [s]) + Chain(Successor(s), end) == Chain(start, end)
  {
    ChainStep(s, end);
    assert (done + [s]) + Chain(Successor(s), end) == done + ([s] + Chain(Successor(s), end));
  }

  /** get_intermediates: the chain of keys from start with their towers;
      IndexError when one of the keys has a set bit without an exponent. */
  method GetIntermediates(start: nat, end: nat, root: nat, exps: seq<nat>, modulus: nat)
    returns (d: Option<seq<Entry>>)
    requires modulus > 0
    ensures d.Some? <==> AllIndexed(Chain(start, end), |exps|)
    ensures d.Some? ==> d.value == Encoded(Chain(start, end), root, exps, modulus)
  {
    var inter: seq<Entry> := [];
    var s := start;
    ghost var done: seq<nat> := [];
    while true
      invariant done + Chain(s, end) == Chain(start, end)
      invariant forall k :: k in done ==> k < s
      invariant AllIndexed(done, |exps|)
      invariant inter == Encoded(done, root, exps, modulus)
      invariant done != [] ==> s <= end
      decreases end + 1 - s
    {
      ChainStep(s, end);
      var w := WindEncoder(root, s, exps, modulus);
      if w.None? {
        assert s in Chain(start, end);
        return None;
      }
      PutNewKey(inter, s, w.value);
      EncodedSnoc(done, s, root, exps, modulus);
      inter := Put(inter, s, w.value);
      var next := NextRequiredIntermediate(s);
      SuccessorAbove(s);
      if next > end {
        assert done + [s] == Chain(start, end);
        d := Some(inter);
        return;
      }
      ChainAdvance(start, end, s, done);
      done := done + [s];
      s := next;
    }
  }

  /** The closest-position scan of wind_decoder over the entries in iteration
      order: stop at the first position above target, and take a position
      when it is above the one taken so far. */
  function Closest(es: seq<Entry>, target: nat, acc: Entry): Entry
    decreases |es|
  {
    if es == [] || es[0].pos > target then acc
    else Closest(es[1..], target, if es[0].pos > acc.pos then es[0] else acc)
  }

  /** The scan result is at most the target; it is the starting accumulator
      or an entry strictly above it (so with the accumulator at position 0 a
      key 0 is never taken); and it is at least every entry scanned before
      the first position above target. */
  lemma {:induction false} ClosestBelow(es: seq<Entry>, target: nat, acc: Entry)
    requires acc.pos <= target
    ensures var c := Closest(es, target, acc);
      && c.pos <= target
      && (c == acc || (c in es && c.pos > acc.pos))
      && acc.pos <= c.pos
      && forall i :: 0 <= i < |es| && (forall j :: 0 <= j <= i ==> es[j].pos <= target) ==> es[i].pos <= c.pos
    decreases |es|
  {
    if es != [] && es[0].pos <= target {
      var acc' := if es[0].pos > acc.pos then es[0] else acc;
      ClosestBelow(es[1..], target, acc');
      var c := Closest(es, target, acc);
      forall i | 0 <= i < |es| && (forall j :: 0 <= j <= i ==> es[j].pos <= target)
        ensures es[i].pos <= c.pos
      {
        if i > 0 {
          assert es[i] == es[1..][i - 1];
          assert forall j :: 0 <= j <= i - 1 ==> es[1..][j].pos <= target by {
            forall j | 0 <= j <= i - 1
              ensures es[1..][j].pos <= target
            {
              assert es[1..][j] == es[j + 1];
            }
          }
        }
      }
    }
  }

  /** wind_decoder: take the closest stored position below the target, then
      apply the steps for the bits set in target and clear in that position,
      from bit 63 down to bit 0. An IndexError when one of those bits has no
      exponent. */
  method WindDecoder(target: nat, exps: seq<nat>, modulus: nat, inter: seq<Entry>) returns (r: Option<nat>)
    requires modulus > 0
    ensures var c := Closest(inter, target, Entry(0, 0));
      && (r.Some? <==> Indexed(AndNot(target, c.pos), |exps|))
      && (r.Some? ==> r.value == Wind(c.value, AndNot(target, c.pos), exps, modulus))
  {
    var closest, closestIntermediate := 0, 0;
    for i := 0 to |inter|
      invariant Closest(inter[i..], target, Entry(closest, closestIntermediate)) == Closest(inter, target, Entry(0, 0))
    {
      if inter[i].pos > target {
        assert Closest(inter[i..], target, Entry(closest, closestIntermediate)) == Entry(closest, closestIntermediate);
        break;
      }
      assert inter[i..][1..] == inter[i + 1..];
      if inter[i].pos > closest {
        closest := inter[i].pos;
        closestIntermediate := inter[i].value;
      }
    }
    ghost var sel := AndNot(target, closest);
    var result := closestIntermediate;
    for bit := 64 downto 0
      invariant IndexedRange(sel, |exps|, bit, 64)
      invariant result == Climb(closestIntermediate, sel, exps, modulus, bit, 64)
    {
      AndNotBit(target, closest, bit);
      if Bit(target, bit) && !Bit(closest, bit) {
        if bit >= |exps| {
          return None;
        }
        result := Pow(exps[bit], result) % modulus;
      }
    }
    return Some(result);
  }

  /** Over entries stored at the chain's keys, the scan for a target in
      [s, end] picks one of the entries, at a key c with
      c <= t < c + lowbit(c). */
  lemma {:induction false} ChainClosest(s: nat, end: nat, t: nat, acc: Entry, es: seq<Entry>)
    requires Keys(es) == Chain(s, end)
    requires 0 < s <= t <= end < Pow(2, 64) && acc.pos < s
    ensures var c := Closest(es, t, acc);
      c in es && 0 < c.pos <= t < c.pos + Pow(2, LowestBit(c.pos))
    decreases end - s
  {
    ChainStep(s, end);
    SuccessorAbove(s);
    LowFromLowest(s, 0);
    var next := Successor(s);
    assert es[0].pos == s;
    var tail := es[1..];
    assert Keys(tail) == Keys(es)[1..];
    assert Closest(es, t, acc) == Closest(tail, t, es[0]);
    if next <= end {
      if next > t {
        assert tail[0].pos == next;
      } else {
        ChainClosest(next, end, t, es[0], tail);
      }
    }
  }

  /** Every entry of the encoded dict holds the tower of its key. */
  lemma {:induction false} EncodedMember(e: Entry, keys: seq<nat>, root: nat, exps: seq<nat>, m: nat)
    requires m > 0 && AllIndexed(keys, |exps|) && e in Encoded(keys, root, exps, m)
    ensures e.pos in keys && Indexed(e.pos, |exps|) && e.value == Wind(root, e.pos, exps, m)
  {
  }

  /** The carry argument: for c <= t < c + lowbit(c), the bits of t from
      lowbit(c) up are those of c and c has no lower bits, so finishing the
      tower of c with the bits of t outside c gives the tower of t. */
  lemma {:induction false} DecodeFromCarry(root: nat, c: nat, t: nat, exps: seq<nat>, m: nat)
    requires m > 0 && 0 < c <= t < c + Pow(2, LowestBit(c)) && c < Pow(2, 64)
    requires Indexed(c, |exps|)
    ensures Indexed(t, |exps|) && Indexed(AndNot(t, c), |exps|)
    ensures Wind(Wind(root, c, exps, m), AndNot(t, c), exps, m) == Wind(root, t, exps, m)
  {
    var j := LowestBit(c);
    var n := |exps|;
    LowestBitSpec(c);
    LowestBitBelowWidth(c, 64);
    CarryWindow(c, t);
    var sel := AndNot(t, c);
    forall b: nat
      ensures Bit(sel, b) == (Bit(t, b) && !Bit(c, b))
    {
      AndNotBit(t, c, b);
    }
    assert j < n;
    assert Indexed(t, n);
    assert Indexed(sel, n);
    var hi := Climb(root, c, exps, m, j, 64);
    ClimbSplit(root, c, exps, m, 0, j, 64);
    ClimbNoBits(hi, c, exps, m, 0, j);
    ClimbAgree(root, c, t, exps, m, j, 64);
    ClimbSplit(root, t, exps, m, 0, j, 64);
    ClimbSplit(hi, sel, exps, m, 0, j, 64);
    ClimbNoBits(hi, sel, exps, m, j, 64);
    ClimbAgree(hi, sel, t, exps, m, 0, j);
  }

  /** The check of the prototype: for every timestamp t in [start, end], with
      0 < start and end < 2^64, finishing the tower from the closest stored
      intermediate reproduces the encoder's value for t. */
  lemma {:induction false} DecoderMatchesEncoder(root: nat, start: nat, end: nat, t: nat, exps: seq<nat>, m: nat)
    requires m > 0 && AllIndexed(Chain(start, end), |exps|)
    requires 0 < start <= t <= end < Pow(2, 64)
    ensures Indexed(t, |exps|)
    ensures var c := Closest(Encoded(Chain(start, end), root, exps, m), t, Entry(0, 0));
      Indexed(AndNot(t, c.pos), |exps|) && Wind(c.value, AndNot(t, c.pos), exps, m) == Wind(root, t, exps, m)
  {
    var es := Encoded(Chain(start, end), root, exps, m);
    ChainClosest(start, end, t, Entry(0, 0), es);
    var c := Closest(es, t, Entry(0, 0));
    EncodedMember(c, Chain(start, end), root, exps, m);
    DecodeFromCarry(root, c.pos, t, exps, m);
  }

  /** Why the prototype needs start > 0: from start 0 the only stored key is
      0, which the scan never takes, so decoding starts from 0 instead of the
      root. */
  lemma {:induction false} ZeroStartIgnored(root: nat, end: nat, t: nat, exps: seq<nat>, m: nat)
    requires m > 0 && end < Pow(2, 64)
    ensures Chain(0, end) == [0]
    ensures AllIndexed([0], |exps|)
    ensures Closest(Encoded([0], root, exps, m), t, Entry(0, 0)) == Entry(0, 0)
  {
    SuccessorFacts(0);
    ChainStep(0, end);
    forall b: nat
      ensures !Bit(0, b)
    {
      BitOfZero(b);
    }
  }
}
