/** The subscription generator (gen_subscription.py) beyond the power tower
    itself: the device-bound hashing of the backward intermediates, the
    fixed-width big-endian serialisers, and the 24576-byte subscription
    made of a metadata page and two pages of intermediates. */
module GenSubscription {
  import opened Arith
  import opened Bits
  import opened Bytes
  import opened Dict
  import opened Wrappers
  import opened Primes
  import Tower

  /** Non-decreasing order. */
  predicate Sorted(s: seq<nat>)
  {
    forall i, j :: 0 <= i < j < |s| ==> s[i] <= s[j]
  }

  /** Insert x into a sorted list, before the first element not below it. */
  function Insert(x: nat, s: seq<nat>): (r: seq<nat>)
    requires Sorted(s)
    ensures Sorted(r) && multiset(r) == multiset(s) + multiset{x}
  {
    if s == [] || x <= s[0] then [x] + s
    else
      var r := Insert(x, s[1..]);
      assert s == [s[0]] + s[1..];
      ConsSorted(s[0], r, s[1..], x);
      [s[0]] + r
  }

  /** A lower bound of t and of x can head any sorted list holding x and t. */
  lemma {:induction false} ConsSorted(a: nat, r: seq<nat>, t: seq<nat>, x: nat)
    requires Sorted(r) && multiset(r) == multiset(t) + multiset{x}
    requires a <= x && forall k :: 0 <= k < |t| ==> a <= t[k]
    ensures Sorted([a] + r)
  {
    forall k | 0 <= k < |r|
      ensures a <= r[k]
    {
      assert r[k] in multiset(r);
      if r[k] != x {
        assert r[k] in multiset(t);
        var j :| 0 <= j < |t| && t[j] == r[k];
      }
    }
  }

  /** `sorted()` on a list of naturals: a sorted permutation. */
  function Sort(s: seq<nat>): (r: seq<nat>)
    ensures Sorted(r) && multiset(r) == multiset(s)
  {
    if s == [] then []
    else
      assert s == [s[0]] + s[1..];
      Insert(s[0], Sort(s[1..]))
  }

  /** Sorting an already sorted list leaves it as it is. */
  lemma {:induction false} SortKeepsSorted(s: seq<nat>)
    requires Sorted(s)
    ensures Sort(s) == s
  {
    if s != [] {
      SortKeepsSorted(s[1..]);
      assert s == [s[0]] + s[1..];
    }
  }

  /** `sorted(d.keys())`: the keys of d in ascending order. */
  function SortedKeys(d: seq<Entry>): (ks: seq<nat>)
    ensures |ks| == |d| && Sorted(ks) && multiset(ks) == multiset(Keys(d))
    ensures forall i :: 0 <= i < |ks| ==> ks[i] in Keys(d)
  {
    var ks := Sort(Keys(d));
    assert forall i :: 0 <= i < |ks| ==> ks[i] in Keys(d) by {
      forall i | 0 <= i < |ks|
        ensures ks[i] in Keys(d)
      {
        assert ks[i] in multiset(ks);
      }
    }
    assert |ks| == |multiset(ks)|;
    ks
  }

  /** `[d[p] for p in sorted(d.keys())]`. */
  function Values(d: seq<Entry>): (vs: seq<nat>)
    ensures |vs| == |d|
  {
    var ks := SortedKeys(d);
    seq(|ks|, i requires 0 <= i < |ks| => Lookup(d, ks[i]))
  }

  /** For a dict whose keys were inserted in increasing order, sorting the
      keys changes nothing and the values come out in insertion order. */
  lemma {:induction false} ValuesInOrder(d: seq<Entry>)
    requires Increasing(d)
    ensures SortedKeys(d) == Keys(d)
    ensures forall i :: 0 <= i < |d| ==> Values(d)[i] == d[i].value
  {
    SortKeepsSorted(Keys(d));
    forall i | 0 <= i < |d|
      ensures Values(d)[i] == d[i].value
    {
      LookupAt(d, i);
    }
  }

  /** The dict of get_intermediates_hashed: the same keys, each value v
      replaced by (v xor h) mod m. */
  function Hashed(d: seq<Entry>, h: nat, m: nat): (r: seq<Entry>)
    requires m > 0
    ensures |r| == |d| && Keys(r) == Keys(d)
    ensures forall i :: 0 <= i < |d| ==> r[i].value < m
  {
    seq(|d|, i requires 0 <= i < |d| => Entry(d[i].pos, Xor(d[i].value, h) % m))
  }

  /** The hashing is undone by a second xor with h whenever v xor h is
      already below m, its case for an intermediate below the modulus and a
      hash of fewer bits than the modulus. */
  lemma {:induction false} HashUndone(v: nat, h: nat, m: nat)
    requires m > 0 && Xor(v, h) < m
    ensures Xor(Xor(v, h) % m, h) == v
  {
    ModSmall(Xor(v, h), m);
    XorCancel(v, h);
  }

  /** A dict with strictly increasing keys keeps them after hashing. */
  lemma {:induction false} HashedIncreasing(d: seq<Entry>, h: nat, m: nat)
    requires m > 0 && Increasing(d)
    ensures Increasing(Hashed(d, h, m))
  {
  }

  /** get_intermediates_hashed: the intermediates of get_intermediates, each
      value replaced in place by (v xor H) mod modulus, H the big-endian value
      of the device hash. */
  method GetIntermediatesHashed(start: nat, end: nat, root: nat, exps: seq<nat>, modulus: nat,
                                deviceHash: seq<byte>)
    returns (d: Option<seq<Entry>>)
    requires modulus > 0
    ensures d.Some? <==> Tower.AllIndexed(Tower.Chain(start, end), |exps|)
    ensures d.Some? ==>
      d.value == Hashed(Tower.Encoded(Tower.Chain(start, end), root, exps, modulus), FromBE(deviceHash), modulus)
  {
    var inter := Tower.GetIntermediates(start, end, root, exps, modulus);
    if inter.None? {
      return None;
    }
    ghost var original := inter.value;
    Tower.ChainShape(start, end);
    var es := inter.value;
    var h := FromBE(deviceHash);
    for i := 0 to |es|
      invariant |es| == |original| && Keys(es) == Keys(original) && Increasing(es)
      invariant forall k :: 0 <= k < i ==> es[k] == Entry(original[k].pos, Xor(original[k].value, h) % modulus)
      invariant forall k :: i <= k < |es| ==> es[k] == original[k]
    {
      PutExisting(es, i, Xor(es[i].value, h) % modulus);
      assert Keys(es[i := Entry(es[i].pos, Xor(es[i].value, h) % modulus)]) == Keys(es);
      es := Put(es, es[i].pos, Xor(es[i].value, h) % modulus);
    }
    return Some(es);
  }

  /** Every value fits in w bytes. */
  predicate Fits(vs: seq<nat>, w: nat)
  {
    forall i :: 0 <= i < |vs| ==> vs[i] < Pow(256, w)
  }

  /** The values one after the other, each as w big-endian bytes. */
  function Blocks(vs: seq<nat>, w: nat): (r: seq<byte>)
    ensures |r| == w * |vs|
  {
    if vs == [] then []
    else
      MulDistributes(w, |vs| - 1, 1);
      Blocks(vs[..|vs| - 1], w) + ToBE(vs[|vs| - 1], w)
  }

  /** One more value packed: its w big-endian bytes are appended. */
  lemma {:induction false} BlocksSnoc(vs: seq<nat>, w: nat, i: nat, b: seq<byte>)
    requires i < |vs| && Fits(vs[..i], w) && |b| == w && FromBE(b) == vs[i]
    ensures Fits(vs[..i + 1], w)
    ensures Blocks(vs[..i + 1], w) == Blocks(vs[..i], w) + b
  {
    ToFromBE(b);
    FromBEBound(b);
    assert vs[..i + 1][..i] == vs[..i];
  }

  /** Block i of Blocks(vs, w) holds vs[i], when all the values fit. */
  lemma {:induction false} BlockAt(vs: seq<nat>, w: nat, i: nat)
    requires i < |vs| && Fits(vs, w)
    ensures w * i + w <= w * |vs|
    ensures FromBE(Blocks(vs, w)[w * i .. w * i + w]) == vs[i]
    decreases |vs|
  {
    var n := |vs|;
    var init := vs[..n - 1];
    var front, last := Blocks(init, w), ToBE(vs[n - 1], w);
    assert Blocks(vs, w) == front + last;
    BlockOffsets(w, i, n);
    if i < n - 1 {
      BlockAt(init, w, i);
    }
    SliceOfAppend(front, last, w * i, w * i + w);
    FromToBE(vs[i], w);
    ModSmall(vs[i], Pow(256, w));
  }

  lemma {:induction false} BlockOffsets(w: nat, i: nat, n: nat)
    requires i < n
    ensures 0 <= w * i && w * (n - 1) + w == w * n && w * i + w <= w * n
    ensures i < n - 1 ==> w * i + w <= w * (n - 1)
    ensures i == n - 1 ==> w * i == w * (n - 1)
  {
    MulDistributes(w, n - 1, 1);
    MulDistributes(w, i, 1);
    MulMonotoneNat(w, i + 1, n);
    if i < n - 1 {
      MulMonotoneNat(w, i + 1, n - 1);
    }
  }

  /** A slice of a + b lying within a, or exactly b. */
  lemma {:induction false} SliceOfAppend(a: seq<byte>, b: seq<byte>, lo: nat, hi: nat)
    requires lo <= hi <= |a| || (lo == |a| && hi == |a| + |b|)
    ensures hi <= |a| ==> (a + b)[lo..hi] == a[lo..hi]
    ensures lo == |a| && hi == |a| + |b| ==> (a + b)[lo..hi] == b
  {
  }

  /** s followed by zero bytes up to a total of n (none when s is already
      that long). */
  function Padded(s: seq<byte>, n: nat): (r: seq<byte>)
    ensures |r| == if |s| < n then n else |s|
    ensures r[..|s|] == s && forall i :: |s| <= i < |r| ==> r[i] == 0
  {
    s + Zeros(if |s| < n then n - |s| else 0)
  }

  /** The padding loops `for _ in range(n - len(res)): res += b"\x00"`. */
  method PadWithZeros(s: seq<byte>, n: nat) returns (r: seq<byte>)
    ensures r == Padded(s, n)
  {
    r := s;
    var missing := n - |s|;
    for k := 0 to if missing > 0 then missing else 0
      invariant r == s + Zeros(k)
    {
      assert Zeros(k + 1) == Zeros(k) + [0];
      r := r + [0];
    }
  }

  /** pack_intermediates: the values in ascending key order as 128 big-endian
      bytes each, padded to 8192 bytes; an OverflowError when a value needs
      more than 128 bytes. */
  method PackIntermediates(d: seq<Entry>) returns (r: Option<seq<byte>>)
    ensures r.None? <==> !Fits(Values(d), 128)
    ensures r.Some? ==> r.value == Padded(Blocks(Values(d), 128), 8192)
  {
    var res: seq<byte> := [];
    var positions := SortedKeys(d);
    ghost var vs := Values(d);
    for i := 0 to |positions|
      invariant res == Blocks(vs[..i], 128) && Fits(vs[..i], 128)
    {
      assert vs[i] == Lookup(d, positions[i]);
      var b := ToBytesBE(Lookup(d, positions[i]), 128);
      if b.None? {
        return None;
      }
      BlocksSnoc(vs, 128, i, b.value);
      res := res + b.value;
    }
    assert vs[..|positions|] == vs;
    var padded := PadWithZeros(res, 8192);
    return Some(padded);
  }

  /** pack_inter_positions: the keys in ascending order as 8 big-endian bytes
      each, padded to 512 bytes; an OverflowError for a key of 2^64 or more. */
  method PackInterPositions(d: seq<Entry>) returns (r: Option<seq<byte>>)
    ensures r.None? <==> !Fits(SortedKeys(d), 8)
    ensures r.Some? ==> r.value == Padded(Blocks(SortedKeys(d), 8), 512)
  {
    var res: seq<byte> := [];
    var positions := SortedKeys(d);
    for i := 0 to |positions|
      invariant res == Blocks(positions[..i], 8) && Fits(positions[..i], 8)
    {
      var b := ToBytesBE(positions[i], 8);
      if b.None? {
        return None;
      }
      BlocksSnoc(positions, 8, i, b.value);
      res := res + b.value;
    }
    assert positions[..|positions|] == positions;
    var padded := PadWithZeros(res, 512);
    return Some(padded);
  }

  /** The counts, channel, positions, modulus and window of pack_metadata
      each fit their field: otherwise to_bytes raises an OverflowError. */
  ghost predicate MetaFits(channel: nat, modulus: nat, start: nat, end: nat, fwd: seq<Entry>, bwd: seq<Entry>)
  {
    && |fwd| < Pow(256, 1) && |bwd| < Pow(256, 1) && channel < Pow(256, 4)
    && Fits(SortedKeys(fwd), 8) && Fits(SortedKeys(bwd), 8)
    && modulus < Pow(256, 128) && start < Pow(256, 8) && end < Pow(256, 8)
  }

  /** The metadata fields one after the other, before the padding: the two
      counts, the channel, the two position tables, the modulus, start, end. */
  ghost function Metadata(channel: nat, modulus: nat, start: nat, end: nat, fwd: seq<Entry>, bwd: seq<Entry>): seq<byte>
  {
    ToBE(|fwd|, 1) + ToBE(|bwd|, 1) + ToBE(channel, 4)
      + Padded(Blocks(SortedKeys(fwd), 8), 512) + Padded(Blocks(SortedKeys(bwd), 8), 512)
      + ToBE(modulus, 128) + ToBE(start, 8) + ToBE(end, 8)
  }

  /** pack_metadata: the metadata fields padded with zeros to 8192 bytes, or
      the OverflowError of a field that does not fit. */
  method PackMetadata(channel: nat, modulus: nat, start: nat, end: nat, fwd: seq<Entry>, bwd: seq<Entry>)
    returns (r: Option<seq<byte>>)
    ensures r.None? <==> !MetaFits(channel, modulus, start, end, fwd, bwd)
    ensures r.Some? ==> r.value == Padded(Metadata(channel, modulus, start, end, fwd, bwd), 8192)
  {
    var nf := ToBytesBE(|fwd|, 1);
    var nb := ToBytesBE(|bwd|, 1);
    var ch := ToBytesBE(channel, 4);
    var pf := PackInterPositions(fwd);
    var pb := PackInterPositions(bwd);
    var md := ToBytesBE(modulus, 128);
    var st := ToBytesBE(start, 8);
    var en := ToBytesBE(end, 8);
    if nf.None? || nb.None? || ch.None? || pf.None? || pb.None? || md.None? || st.None? || en.None? {
      return None;
    }
    var res := nf.value + nb.value + ch.value + pf.value + pb.value + md.value + st.value + en.value;
    var padded := PadWithZeros(res, 8192);
    return Some(padded);
  }

  /** Padding leaves every block in place. */
  lemma {:induction false} PaddedBlockAt(vs: seq<nat>, w: nat, n: nat, i: nat)
    requires Fits(vs, w) && w * |vs| <= n && i < |vs|
    ensures |Padded(Blocks(vs, w), n)| == n && w * i + w <= n
    ensures FromBE(Padded(Blocks(vs, w), n)[w * i .. w * i + w]) == vs[i]
  {
    BlockAt(vs, w, i);
    BlockOffsets(w, i, |vs|);
    var s := Blocks(vs, w);
    assert Padded(s, n)[w * i .. w * i + w] == s[w * i .. w * i + w];
  }

  /** The fixed offsets of the metadata page: the counts in bytes 0 and 1,
      the channel in 2..6, forward position i at 6 + 8i, backward position i
      at 518 + 8i, the modulus in 1030..1158, start in 1158..1166 and end in
      1166..1174, for at most 64 intermediates on each side. */
  lemma {:induction false} MetadataLayout(channel: nat, modulus: nat, start: nat, end: nat, fwd: seq<Entry>, bwd: seq<Entry>)
    requires MetaFits(channel, modulus, start, end, fwd, bwd) && |fwd| <= 64 && |bwd| <= 64
    ensures var md := Padded(Metadata(channel, modulus, start, end, fwd, bwd), 8192);
      && |md| == 8192
      && md[0] == |fwd| && md[1] == |bwd| && FromBE(md[2..6]) == channel
      && (forall i :: 0 <= i < |fwd| ==> FromBE(md[6 + 8 * i .. 6 + 8 * i + 8]) == SortedKeys(fwd)[i])
      && (forall i :: 0 <= i < |bwd| ==> FromBE(md[518 + 8 * i .. 518 + 8 * i + 8]) == SortedKeys(bwd)[i])
      && FromBE(md[1030..1158]) == modulus && FromBE(md[1158..1166]) == start
      && FromBE(md[1166..1174]) == end
  {
    var pf, pb := Padded(Blocks(SortedKeys(fwd), 8), 512), Padded(Blocks(SortedKeys(bwd), 8), 512);
    var meta := Metadata(channel, modulus, start, end, fwd, bwd);
    var md := Padded(meta, 8192);
    MetadataFields(ToBE(|fwd|, 1), ToBE(|bwd|, 1), ToBE(channel, 4), pf, pb,
                   ToBE(modulus, 128), ToBE(start, 8), ToBE(end, 8), md);
    FieldValue(|fwd|, 1);
    FieldValue(|bwd|, 1);
    FieldValue(channel, 4);
    FieldValue(modulus, 128);
    FieldValue(start, 8);
    FieldValue(end, 8);
    PositionTable(md, 6, SortedKeys(fwd));
    PositionTable(md, 518, SortedKeys(bwd));
  }

  /** A position table copied at offset off decodes to the positions. */
  lemma {:induction false} PositionTable(md: seq<byte>, off: nat, vs: seq<nat>)
    requires Fits(vs, 8) && |vs| <= 64 && off + 512 <= |md|
    requires forall i :: 0 <= i < 64 ==>
      md[off + 8 * i .. off + 8 * i + 8] == Padded(Blocks(vs, 8), 512)[8 * i .. 8 * i + 8]
    ensures forall i :: 0 <= i < |vs| ==> FromBE(md[off + 8 * i .. off + 8 * i + 8]) == vs[i]
  {
    forall i | 0 <= i < |vs|
      ensures FromBE(md[off + 8 * i .. off + 8 * i + 8]) == vs[i]
    {
      PaddedBlockAt(vs, 8, 512, i);
    }
  }

  /** Where each field of the metadata lies in the padded page. */
  lemma {:induction false} MetadataFields(a: seq<byte>, b: seq<byte>, c: seq<byte>, pf: seq<byte>, pb: seq<byte>,
                       m: seq<byte>, s: seq<byte>, e: seq<byte>, md: seq<byte>)
    requires |a| == 1 && |b| == 1 && |c| == 4 && |pf| == 512 && |pb| == 512
    requires |m| == 128 && |s| == 8 && |e| == 8
    requires md == Padded(a + b + c + pf + pb + m + s + e, 8192)
    ensures |md| == 8192 && md[0] == a[0] && md[1] == b[0] && md[2..6] == c
    ensures md[1030..1158] == m && md[1158..1166] == s && md[1166..1174] == e
    ensures forall i :: 0 <= i < 64 ==> md[6 + 8 * i .. 6 + 8 * i + 8] == pf[8 * i .. 8 * i + 8]
    ensures forall i :: 0 <= i < 64 ==> md[518 + 8 * i .. 518 + 8 * i + 8] == pb[8 * i .. 8 * i + 8]
  {
    var h0 := a + b + c;
    var h1 := h0 + pf;
    var h2 := h1 + pb;
    var h3 := h2 + m;
    var h4 := h3 + s;
    var meta := h4 + e;
    assert md[..1174] == meta;
    assert md[0] == meta[0] == h0[0] == a[0];
    assert md[1] == meta[1] == h0[1] == b[0];
    Within(md, meta, h4, 2, 6);
    Within(h4, h3, h1, 2, 6);
    Within(h1, h0, h0, 2, 6);
    assert h0[2..6] == c;
    Within(md, meta, h4, 1030, 1158);
    Within(h4, h3, h3, 1030, 1158);
    assert h3[1030..1158] == m;
    Within(md, meta, h4, 1158, 1166);
    assert h4[1158..1166] == s;
    Within(md, meta, meta, 1166, 1174);
    assert meta[1166..1174] == e;
    forall i | 0 <= i < 64
      ensures md[6 + 8 * i .. 6 + 8 * i + 8] == pf[8 * i .. 8 * i + 8]
    {
      Within(md, meta, h4, 6 + 8 * i, 6 + 8 * i + 8);
      Within(h4, h3, h1, 6 + 8 * i, 6 + 8 * i + 8);
      Behind(h0, pf, 8 * i, 8 * i + 8);
    }
    forall i | 0 <= i < 64
      ensures md[518 + 8 * i .. 518 + 8 * i + 8] == pb[8 * i .. 8 * i + 8]
    {
      Within(md, meta, h4, 518 + 8 * i, 518 + 8 * i + 8);
      Within(h4, h3, h2, 518 + 8 * i, 518 + 8 * i + 8);
      Behind(h1, pb, 8 * i, 8 * i + 8);
    }
  }

  /** A slice of w that lies in a prefix p, itself with prefix q of w's
      prefix chain, is the same slice of q. */
  lemma {:induction false} Within(w: seq<byte>, p: seq<byte>, q: seq<byte>, lo: nat, hi: nat)
    requires |q| <= |p| <= |w| && w[..|p|] == p && p[..|q|] == q && lo <= hi <= |q|
    ensures w[lo..hi] == q[lo..hi]
  {
    forall k | lo <= k < hi
      ensures w[k] == q[k]
    {
      assert w[k] == w[..|p|][k] && p[k] == p[..|q|][k];
    }
  }

  /** A slice of a + b lying behind a. */
  lemma {:induction false} Behind(a: seq<byte>, b: seq<byte>, lo: nat, hi: nat)
    requires lo <= hi <= |b|
    ensures (a + b)[|a| + lo .. |a| + hi] == b[lo..hi]
  {
  }

  /** A field that fits decodes to its value; a one-byte field is the value. */
  lemma {:induction false} FieldValue(v: nat, n: nat)
    requires v < Pow(256, n)
    ensures FromBE(ToBE(v, n)) == v
    ensures n == 1 ==> ToBE(v, n)[0] == v
  {
    FromToBE(v, n);
    ModSmall(v, Pow(256, n));
    if n == 1 {
      assert ToBE(v, 1) == ToBE(v / 256, 0) + [v % 256];
    }
  }

  /** The forward intermediates of [start, end]: the tower of the forward
      root at every position of the chain from start. */
  ghost function ForwardInters(start: nat, end: nat, root: nat, exps: seq<nat>, modulus: nat): seq<Entry>
    requires modulus > 0 && Tower.AllIndexed(Tower.Chain(start, end), |exps|)
  {
    Tower.Encoded(Tower.Chain(start, end), root, exps, modulus)
  }

  /** The backward intermediates of [start, end]: the towers of the backward
      root over the mirrored window [2^64-1-end, 2^64-1-start], hashed with h. */
  ghost function BackwardInters(start: nat, end: nat, root: nat, exps: seq<nat>, modulus: nat, h: nat): seq<Entry>
    requires modulus > 0 && start <= Tower.EndOfTime && end <= Tower.EndOfTime
    requires Tower.AllIndexed(Tower.Chain(Tower.Mirror(end), Tower.Mirror(start)), |exps|)
  {
    Hashed(Tower.Encoded(Tower.Chain(Tower.Mirror(end), Tower.Mirror(start)), root, exps, modulus), h, modulus)
  }

  /** The conditions under which gen_subscription returns instead of raising:
      a non-zero modulus, 64-bit timestamps, an exponent for every set bit of
      every position, and every field fitting its width. */
  ghost predicate Generates(modulus: nat, forward: nat, backward: nat, h: nat, start: nat, end: nat,
                            channel: nat, exps: seq<nat>)
  {
    && modulus > 0 && start <= Tower.EndOfTime && end <= Tower.EndOfTime
    && Tower.AllIndexed(Tower.Chain(start, end), |exps|)
    && Tower.AllIndexed(Tower.Chain(Tower.Mirror(end), Tower.Mirror(start)), |exps|)
    && Packs(channel, modulus, start, end, ForwardInters(start, end, forward, exps, modulus),
             BackwardInters(start, end, backward, exps, modulus, h))
  }

  /** Every field of both pack_metadata and the two pack_intermediates fits. */
  ghost predicate Packs(channel: nat, modulus: nat, start: nat, end: nat, fwd: seq<Entry>, bwd: seq<Entry>)
  {
    MetaFits(channel, modulus, start, end, fwd, bwd) && Fits(Values(fwd), 128) && Fits(Values(bwd), 128)
  }

  /** The 24576 bytes of a subscription: the metadata page, then the forward
      and the backward values, each padded to a page of 8192 bytes. */
  ghost function SubscriptionBytes(channel: nat, modulus: nat, start: nat, end: nat, fwd: seq<Entry>, bwd: seq<Entry>): seq<byte>
  {
    Padded(Metadata(channel, modulus, start, end, fwd, bwd), 8192)
      + Padded(Blocks(Values(fwd), 128), 8192) + Padded(Blocks(Values(bwd), 128), 8192)
  }

  /** The body of gen_subscription for a given exponent list: the two sets
      of intermediates, then pack_metadata and the two pack_intermediates.
      A zero modulus makes pow or the hashing's `%` raise, and a timestamp
      of 2^64 or more makes `to_bytes(8)` in pack_metadata raise, so these
      give None before any tower is computed. */
  method BuildSubscription(modulus: nat, forward: nat, backward: nat, deviceHash: seq<byte>,
                           start: nat, end: nat, channel: nat, exps: seq<nat>)
    returns (r: Option<seq<byte>>)
    ensures r.None? <==> !Generates(modulus, forward, backward, FromBE(deviceHash), start, end, channel, exps)
    ensures r.Some? ==> r.value == SubscriptionBytes(channel, modulus, start, end,
      ForwardInters(start, end, forward, exps, modulus),
      BackwardInters(start, end, backward, exps, modulus, FromBE(deviceHash)))
  {
    if modulus == 0 || start > Tower.EndOfTime || end > Tower.EndOfTime {
      return None;
    }
    var fwd := Tower.GetIntermediates(start, end, forward, exps, modulus);
    if fwd.None? {
      assert !Tower.AllIndexed(Tower.Chain(start, end), |exps|);
      return None;
    }
    var bwd := GetIntermediatesHashed(Tower.Mirror(end), Tower.Mirror(start), backward, exps, modulus, deviceHash);
    if bwd.None? {
      assert !Tower.AllIndexed(Tower.Chain(Tower.Mirror(end), Tower.Mirror(start)), |exps|);
      return None;
    }
    ghost var h := FromBE(deviceHash);
    ghost var fs, bs := ForwardInters(start, end, forward, exps, modulus), BackwardInters(start, end, backward, exps, modulus, h);
    assert fwd.value == fs && bwd.value == bs;
    var meta := PackMetadata(channel, modulus, start, end, fwd.value, bwd.value);
    var pf := PackIntermediates(fwd.value);
    var pb := PackIntermediates(bwd.value);
    if meta.None? || pf.None? || pb.None? {
      assert !Packs(channel, modulus, start, end, fs, bs);
      return None;
    }
    assert Packs(channel, modulus, start, end, fs, bs);
    assert Generates(modulus, forward, backward, h, start, end, channel, exps);
    r := Some(meta.value + pf.value + pb.value);
    assert r.value == SubscriptionBytes(channel, modulus, start, end, fs, bs);
  }

  /** A position with a set bit at 2^n or above but below 2^64 indexes past
      a list of n exponents. */
  lemma {:induction false} NotIndexed(k: nat, n: nat)
    requires Pow(2, n) <= k < Pow(2, 64)
    ensures !Tower.Indexed(k, n)
  {
    var b := HighBitSet(k, n);
    if b >= 64 {
      BitAboveWidth(k, 64, b);
    }
  }

  /** gen_subscription as written: the tower is built over only 16
      exponents, so every position with a set bit from 16 to 63 raises an
      IndexError, and with it every subscription that starts at 2^16 or
      later or ends at least 2^16 before the end of time. */
  method GenSubscription(modulus: nat, forward: nat, backward: nat, deviceHash: seq<byte>,
                         start: nat, end: nat, channel: nat)
    returns (r: Option<seq<byte>>, ghost exps: seq<nat>)
    ensures |exps| == 16 && OddPrimesAbove(exps, 1025)
    ensures r.None? <==> !Generates(modulus, forward, backward, FromBE(deviceHash), start, end, channel, exps)
    ensures r.Some? ==> r.value == SubscriptionBytes(channel, modulus, start, end,
      ForwardInters(start, end, forward, exps, modulus),
      BackwardInters(start, end, backward, exps, modulus, FromBE(deviceHash)))
    ensures start >= 65536 || end + 65536 <= Tower.EndOfTime ==> r.None?
  {
    var primes := GetPrimesStartingWith(1025, 16);
    exps := primes;
    r := BuildSubscription(modulus, forward, backward, deviceHash, start, end, channel, primes);
    if start >= 65536 || end + 65536 <= Tower.EndOfTime {
      SixteenTooFew(start, end, primes);
    }
  }

  /** With 16 exponents no chain reaches past the lowest 16 bits. */
  lemma {:induction false} SixteenTooFew(start: nat, end: nat, exps: seq<nat>)
    requires |exps| == 16 && (start >= 65536 || end + 65536 <= Tower.EndOfTime)
    ensures start <= Tower.EndOfTime && end <= Tower.EndOfTime ==>
      !Tower.AllIndexed(Tower.Chain(start, end), 16)
      || !Tower.AllIndexed(Tower.Chain(Tower.Mirror(end), Tower.Mirror(start)), 16)
  {
    if start <= Tower.EndOfTime && end <= Tower.EndOfTime {
      Pow2To16();
      Tower.EndOfTimeValue();
      Tower.ChainShape(start, end);
      Tower.ChainShape(Tower.Mirror(end), Tower.Mirror(start));
      if start >= 65536 {
        NotIndexed(start, 16);
        assert start in Tower.Chain(start, end);
      } else {
        NotIndexed(Tower.Mirror(end), 16);
        assert Tower.Mirror(end) in Tower.Chain(Tower.Mirror(end), Tower.Mirror(start));
      }
    }
  }

  /** Below 2^64 a chain has at most 64 positions, all below 2^64 (at most
      64 - lowbit(s) from s > 0, since each step raises the lowest set bit;
      only s itself from 0). */
  lemma {:induction false} ChainLength(s: nat, end: nat)
    requires s < Pow(2, 64) && end < Pow(2, 64)
    ensures |Tower.Chain(s, end)| <= 64
    ensures s > 0 ==> |Tower.Chain(s, end)| <= 64 - LowestBit(s)
    ensures forall k :: k in Tower.Chain(s, end) ==> k < Pow(2, 64)
    decreases end + 1 - s
  {
    Tower.SuccessorFacts(s);
    Tower.ChainStep(s, end);
    if s > 0 {
      LowestBitBelowWidth(s, 64);
      if Tower.Successor(s) <= end {
        ChainLength(Tower.Successor(s), end);
      }
    }
  }

  /** The forward dict is keyed by the chain in ascending order and its
      values, in that order, are the towers of the chain's positions. */
  lemma {:induction false} ForwardFacts(start: nat, end: nat, root: nat, exps: seq<nat>, m: nat)
    requires m > 0 && Tower.AllIndexed(Tower.Chain(start, end), |exps|)
    ensures var f, ks := ForwardInters(start, end, root, exps, m), Tower.Chain(start, end);
      && |f| == |ks| && SortedKeys(f) == ks && |Values(f)| == |ks|
      && forall i :: 0 <= i < |ks| ==> Values(f)[i] == Tower.Wind(root, ks[i], exps, m)
  {
    var f := ForwardInters(start, end, root, exps, m);
    ChainIncreasing(start, end, root, exps, m);
    ValuesInOrder(f);
  }

  /** The dict of a chain has strictly increasing keys. */
  lemma {:induction false} ChainIncreasing(s: nat, end: nat, root: nat, exps: seq<nat>, m: nat)
    requires m > 0 && Tower.AllIndexed(Tower.Chain(s, end), |exps|)
    ensures Increasing(Tower.Encoded(Tower.Chain(s, end), root, exps, m))
  {
    var ks := Tower.Chain(s, end);
    var e := Tower.Encoded(ks, root, exps, m);
    Tower.ChainShape(s, end);
    forall i, j | 0 <= i < j < |e|
      ensures e[i].pos < e[j].pos
    {
      assert e[i].pos == ks[i] && e[j].pos == ks[j];
    }
  }

  /** Likewise for the backward dict, whose values are the hashed towers. */
  lemma {:induction false} BackwardFacts(start: nat, end: nat, root: nat, exps: seq<nat>, m: nat, h: nat)
    requires m > 0 && start <= Tower.EndOfTime && end <= Tower.EndOfTime
    requires Tower.AllIndexed(Tower.Chain(Tower.Mirror(end), Tower.Mirror(start)), |exps|)
    ensures var b, ks := BackwardInters(start, end, root, exps, m, h),
                         Tower.Chain(Tower.Mirror(end), Tower.Mirror(start));
      && |b| == |ks| && SortedKeys(b) == ks && |Values(b)| == |ks|
      && forall i :: 0 <= i < |ks| ==> Values(b)[i] == Xor(Tower.Wind(root, ks[i], exps, m), h) % m
  {
    HashedChainFacts(Tower.Mirror(end), Tower.Mirror(start), root, exps, m, h);
  }

  lemma {:induction false} HashedChainFacts(s: nat, end: nat, root: nat, exps: seq<nat>, m: nat, h: nat)
    requires m > 0 && Tower.AllIndexed(Tower.Chain(s, end), |exps|)
    ensures var b, ks := Hashed(Tower.Encoded(Tower.Chain(s, end), root, exps, m), h, m), Tower.Chain(s, end);
      && |b| == |ks| && SortedKeys(b) == ks && |Values(b)| == |ks|
      && forall i :: 0 <= i < |ks| ==> Values(b)[i] == Xor(Tower.Wind(root, ks[i], exps, m), h) % m
  {
    var e := Tower.Encoded(Tower.Chain(s, end), root, exps, m);
    ChainIncreasing(s, end, root, exps, m);
    HashedIncreasing(e, h, m);
    ValuesInOrder(Hashed(e, h, m));
  }

  /** The three pages of a subscription, and where the fields of the first
      and the blocks of the other two lie in the whole. */
  lemma {:induction false} Pages(r: seq<byte>, p0: seq<byte>, p1: seq<byte>, p2: seq<byte>)
    requires |p0| == 8192 && |p1| == 8192 && |p2| == 8192 && r == p0 + p1 + p2
    ensures |r| == 24576 && r[0] == p0[0] && r[1] == p0[1] && r[2..6] == p0[2..6]
    ensures r[1030..1158] == p0[1030..1158] && r[1158..1166] == p0[1158..1166]
    ensures r[1166..1174] == p0[1166..1174]
    ensures forall i :: 0 <= i < 64 ==> r[6 + 8 * i .. 6 + 8 * i + 8] == p0[6 + 8 * i .. 6 + 8 * i + 8]
    ensures forall i :: 0 <= i < 64 ==> r[518 + 8 * i .. 518 + 8 * i + 8] == p0[518 + 8 * i .. 518 + 8 * i + 8]
    ensures forall i :: 0 <= i < 64 ==>
      r[8192 + 128 * i .. 8192 + 128 * i + 128] == p1[128 * i .. 128 * i + 128]
    ensures forall i :: 0 <= i < 64 ==>
      r[16384 + 128 * i .. 16384 + 128 * i + 128] == p2[128 * i .. 128 * i + 128]
  {
    var h := p0 + p1;
    Within(r, h, p0, 2, 6);
    Within(r, h, p0, 1030, 1158);
    Within(r, h, p0, 1158, 1166);
    Within(r, h, p0, 1166, 1174);
    forall i | 0 <= i < 64
      ensures r[6 + 8 * i .. 6 + 8 * i + 8] == p0[6 + 8 * i .. 6 + 8 * i + 8]
      ensures r[518 + 8 * i .. 518 + 8 * i + 8] == p0[518 + 8 * i .. 518 + 8 * i + 8]
    {
      Within(r, h, p0, 6 + 8 * i, 6 + 8 * i + 8);
      Within(r, h, p0, 518 + 8 * i, 518 + 8 * i + 8);
    }
    forall i | 0 <= i < 64
      ensures r[8192 + 128 * i .. 8192 + 128 * i + 128] == p1[128 * i .. 128 * i + 128]
      ensures r[16384 + 128 * i .. 16384 + 128 * i + 128] == p2[128 * i .. 128 * i + 128]
    {
      Within(r, h, h, 8192 + 128 * i, 8192 + 128 * i + 128);
      Behind(p0, p1, 128 * i, 128 * i + 128);
      Behind(h, p2, 128 * i, 128 * i + 128);
    }
  }

  /** A page of values copied at offset off decodes to the values. */
  lemma {:induction false} ValueTable(r: seq<byte>, off: nat, vs: seq<nat>)
    requires Fits(vs, 128) && |vs| <= 64 && off + 8192 <= |r|
    requires forall i :: 0 <= i < 64 ==>
      r[off + 128 * i .. off + 128 * i + 128] == Padded(Blocks(vs, 128), 8192)[128 * i .. 128 * i + 128]
    ensures forall i :: 0 <= i < |vs| ==> FromBE(r[off + 128 * i .. off + 128 * i + 128]) == vs[i]
  {
    forall i | 0 <= i < |vs|
      ensures FromBE(r[off + 128 * i .. off + 128 * i + 128]) == vs[i]
    {
      PaddedBlockAt(vs, 128, 8192, i);
    }
  }

  /** Where the decoder finds the metadata of a generated subscription: the
      counts in bytes 0 and 1, the channel in 2..6, forward position i at
      6 + 8i, backward position i at 518 + 8i, the modulus in 1030..1158,
      start and end in 1158..1174, all big-endian; 24576 bytes in all. */
  lemma {:induction false} SubscriptionHeader(modulus: nat, forward: nat, backward: nat, h: nat, start: nat, end: nat,
                           channel: nat, exps: seq<nat>)
    requires Generates(modulus, forward, backward, h, start, end, channel, exps)
    ensures var fk, bk := Tower.Chain(start, end), Tower.Chain(Tower.Mirror(end), Tower.Mirror(start));
      var r := SubscriptionBytes(channel, modulus, start, end, ForwardInters(start, end, forward, exps, modulus),
                                 BackwardInters(start, end, backward, exps, modulus, h));
      && |r| == 24576 && r[0] == |fk| && r[1] == |bk| && FromBE(r[2..6]) == channel
      && (forall i :: 0 <= i < |fk| ==> FromBE(r[6 + 8 * i .. 6 + 8 * i + 8]) == fk[i])
      && (forall i :: 0 <= i < |bk| ==> FromBE(r[518 + 8 * i .. 518 + 8 * i + 8]) == bk[i])
      && FromBE(r[1030..1158]) == modulus && FromBE(r[1158..1166]) == start && FromBE(r[1166..1174]) == end
  {
    var f := ForwardInters(start, end, forward, exps, modulus);
    var b := BackwardInters(start, end, backward, exps, modulus, h);
    ChainFits(start, end);
    ForwardFacts(start, end, forward, exps, modulus);
    ChainFits(Tower.Mirror(end), Tower.Mirror(start));
    BackwardFacts(start, end, backward, exps, modulus, h);
    BytesLayout(channel, modulus, start, end, f, b);
  }

  /** Where the decoder finds the intermediates of a generated subscription:
      the tower of forward position i at 8192 + 128i and the hashed tower of
      backward position i at 16384 + 128i, big-endian. */
  lemma {:induction false} SubscriptionValues(modulus: nat, forward: nat, backward: nat, h: nat, start: nat, end: nat,
                           channel: nat, exps: seq<nat>)
    requires Generates(modulus, forward, backward, h, start, end, channel, exps)
    ensures var fk, bk := Tower.Chain(start, end), Tower.Chain(Tower.Mirror(end), Tower.Mirror(start));
      var r := SubscriptionBytes(channel, modulus, start, end, ForwardInters(start, end, forward, exps, modulus),
                                 BackwardInters(start, end, backward, exps, modulus, h));
      && |r| == 24576
      && (forall i :: 0 <= i < |fk| ==>
            FromBE(r[8192 + 128 * i .. 8192 + 128 * i + 128]) == Tower.Wind(forward, fk[i], exps, modulus))
      && (forall i :: 0 <= i < |bk| ==>
            FromBE(r[16384 + 128 * i .. 16384 + 128 * i + 128]) == Xor(Tower.Wind(backward, bk[i], exps, modulus), h) % modulus)
  {
    var f := ForwardInters(start, end, forward, exps, modulus);
    var b := BackwardInters(start, end, backward, exps, modulus, h);
    ChainFits(start, end);
    ForwardFacts(start, end, forward, exps, modulus);
    ChainFits(Tower.Mirror(end), Tower.Mirror(start));
    BackwardFacts(start, end, backward, exps, modulus, h);
    BytesLayout(channel, modulus, start, end, f, b);
  }

  /** The layout of SubscriptionBytes for any two dicts of at most 64
      entries whose fields fit. */
  lemma {:induction false} BytesLayout(channel: nat, modulus: nat, start: nat, end: nat, f: seq<Entry>, b: seq<Entry>)
    requires Packs(channel, modulus, start, end, f, b) && |f| <= 64 && |b| <= 64
    ensures var r := SubscriptionBytes(channel, modulus, start, end, f, b);
      && |r| == 24576 && r[0] == |f| && r[1] == |b| && FromBE(r[2..6]) == channel
      && (forall i :: 0 <= i < |f| ==> FromBE(r[6 + 8 * i .. 6 + 8 * i + 8]) == SortedKeys(f)[i])
      && (forall i :: 0 <= i < |b| ==> FromBE(r[518 + 8 * i .. 518 + 8 * i + 8]) == SortedKeys(b)[i])
      && FromBE(r[1030..1158]) == modulus && FromBE(r[1158..1166]) == start && FromBE(r[1166..1174]) == end
      && (forall i :: 0 <= i < |f| ==> FromBE(r[8192 + 128 * i .. 8192 + 128 * i + 128]) == Values(f)[i])
      && (forall i :: 0 <= i < |b| ==> FromBE(r[16384 + 128 * i .. 16384 + 128 * i + 128]) == Values(b)[i])
  {
    MetadataLayout(channel, modulus, start, end, f, b);
    var p0 := Padded(Metadata(channel, modulus, start, end, f, b), 8192);
    var p1, p2 := Padded(Blocks(Values(f), 128), 8192), Padded(Blocks(Values(b), 128), 8192);
    var r := p0 + p1 + p2;
    Pages(r, p0, p1, p2);
    ValueTable(r, 8192, Values(f));
    ValueTable(r, 16384, Values(b));
  }

  /** A non-zero position below 2^64 has a set bit among bits 0..63. */
  lemma {:induction false} LowBitBelow64(k: nat)
    requires 0 < k < Pow(2, 64)
    ensures LowFrom(k, 0) < 64
  {
    LowFromLowest(k, 0);
    LowestBitBelowWidth(k, 64);
  }

  /** 256^8 is 2^64, so a 64-bit timestamp fits its 8 bytes. */
  lemma {:induction false} Pow256To8()
    ensures Pow(256, 8) == Pow(2, 64) && Pow(256, 1) == 256
  {
    PowMul(2, 8, 8);
    assert Pow(2, 8) == 256;
  }

  /** With one exponent per bit, every subscription within 64-bit time, for
      a modulus and a channel that fit their fields, is generated. A window
      starting at time 0 stores the forward root itself, unreduced, at
      position 0, so there the root must fit its 128 bytes as well. */
  lemma {:induction false} GeneratesWith64(modulus: nat, forward: nat, backward: nat, h: nat, start: nat, end: nat,
                        channel: nat, exps: seq<nat>)
    requires |exps| == 64 && start <= Tower.EndOfTime && end <= Tower.EndOfTime
    requires 0 < start || forward < Pow(256, 128)
    requires 0 < modulus < Pow(256, 128) && channel < Pow(256, 4)
    ensures Generates(modulus, forward, backward, h, start, end, channel, exps)
  {
    ForwardSide(start, end, forward, exps, modulus);
    HashedSide(Tower.Mirror(end), Tower.Mirror(start), backward, exps, modulus, h);
    var f := ForwardInters(start, end, forward, exps, modulus);
    var b := BackwardInters(start, end, backward, exps, modulus, h);
    SidesPack(channel, modulus, start, end, f, b);
  }

  /** The fields fit once both dicts have at most 64 entries with 8-byte
      keys, the forward values fit 128 bytes and the backward values are
      below the modulus. */
  lemma {:induction false} SidesPack(channel: nat, modulus: nat, start: nat, end: nat, f: seq<Entry>, b: seq<Entry>)
    requires modulus < Pow(256, 128) && channel < Pow(256, 4)
    requires start <= Tower.EndOfTime && end <= Tower.EndOfTime
    requires |f| <= 64 && Fits(SortedKeys(f), 8) && Fits(Values(f), 128)
    requires |b| <= 64 && Fits(SortedKeys(b), 8) && forall i :: 0 <= i < |b| ==> Values(b)[i] < modulus
    ensures Packs(channel, modulus, start, end, f, b)
  {
    Pow256To8();
    Tower.EndOfTimeValue();
    FitsBelow(Values(b), modulus, 128);
  }

  /** Values below a bound that fits w bytes fit w bytes. */
  lemma {:induction false} FitsBelow(vs: seq<nat>, m: nat, w: nat)
    requires m <= Pow(256, w) && forall i :: 0 <= i < |vs| ==> vs[i] < m
    ensures Fits(vs, w)
  {
  }

  /** A chain within 64-bit time: at most 64 positions, each fitting 8 bytes
      and having an exponent in a list of 64. */
  lemma {:induction false} ChainFits(s: nat, end: nat)
    requires s <= Tower.EndOfTime && end <= Tower.EndOfTime
    ensures |Tower.Chain(s, end)| <= 64 && Fits(Tower.Chain(s, end), 8)
    ensures Tower.AllIndexed(Tower.Chain(s, end), 64)
  {
    Tower.EndOfTimeValue();
    Pow256To8();
    ChainLength(s, end);
    var ks := Tower.Chain(s, end);
    forall i | 0 <= i < |ks|
      ensures ks[i] < Pow(256, 8)
    {
      assert ks[i] in ks;
    }
  }

  /** The forward dict of a window within 64-bit time, with 64 exponents:
      at most 64 entries and 8-byte keys; the towers of positive positions
      are below the modulus, and position 0, only there when the window
      starts at 0, keeps the root. */
  lemma {:induction false} ForwardSide(start: nat, end: nat, root: nat, exps: seq<nat>, m: nat)
    requires |exps| == 64 && start <= Tower.EndOfTime && end <= Tower.EndOfTime && 0 < m <= Pow(256, 128)
    requires 0 < start || root < Pow(256, 128)
    ensures Tower.AllIndexed(Tower.Chain(start, end), |exps|)
    ensures var f := ForwardInters(start, end, root, exps, m);
      && |f| <= 64 && Fits(SortedKeys(f), 8) && Fits(Values(f), 128)
  {
    var ks := Tower.Chain(start, end);
    ChainFits(start, end);
    ForwardFacts(start, end, root, exps, m);
    forall i | 0 <= i < |ks|
      ensures Tower.Wind(root, ks[i], exps, m) < Pow(256, 128)
    {
      KeyTowerFits(start, end, root, exps, m, i);
    }
  }

  /** The tower stored at chain index i fits 128 bytes. */
  lemma {:induction false} KeyTowerFits(start: nat, end: nat, root: nat, exps: seq<nat>, m: nat, i: nat)
    requires |exps| == 64 && start <= Tower.EndOfTime && end <= Tower.EndOfTime && 0 < m <= Pow(256, 128)
    requires 0 < start || root < Pow(256, 128)
    requires i < |Tower.Chain(start, end)|
    ensures Tower.Indexed(Tower.Chain(start, end)[i], |exps|)
    ensures Tower.Wind(root, Tower.Chain(start, end)[i], exps, m) < Pow(256, 128)
  {
    var ks := Tower.Chain(start, end);
    ChainFits(start, end);
    Tower.EndOfTimeValue();
    ChainLength(start, end);
    Tower.ChainShape(start, end);
    assert ks[i] in ks;
    Tower.WindRange(root, ks[i], exps, m);
    if ks[i] > 0 {
      LowBitBelow64(ks[i]);
    }
  }

  /** The hashed dict of any chain within 64-bit time, with 64 exponents:
      at most 64 entries, 8-byte keys, values reduced below the modulus. */
  lemma {:induction false} HashedSide(s: nat, e: nat, root: nat, exps: seq<nat>, m: nat, h: nat)
    requires |exps| == 64 && s <= Tower.EndOfTime && e <= Tower.EndOfTime && m > 0
    ensures Tower.AllIndexed(Tower.Chain(s, e), |exps|)
    ensures var b := Hashed(Tower.Encoded(Tower.Chain(s, e), root, exps, m), h, m);
      && |b| <= 64 && Fits(SortedKeys(b), 8)
      && forall i :: 0 <= i < |b| ==> Values(b)[i] < m
  {
    ChainFits(s, e);
    HashedChainFacts(s, e, root, exps, m, h);
  }

  /** gen_subscription with the 64 exponents that the encoder and the
      decoder's prime table use: it succeeds on every subscription that
      GeneratesWith64 covers. */
  method GenSubscriptionCorrected(modulus: nat, forward: nat, backward: nat, deviceHash: seq<byte>,
                                  start: nat, end: nat, channel: nat)
    returns (r: Option<seq<byte>>, ghost exps: seq<nat>)
    ensures |exps| == 64 && OddPrimesAbove(exps, 1025)
    ensures r.None? <==> !Generates(modulus, forward, backward, FromBE(deviceHash), start, end, channel, exps)
    ensures r.Some? ==> r.value == SubscriptionBytes(channel, modulus, start, end,
      ForwardInters(start, end, forward, exps, modulus),
      BackwardInters(start, end, backward, exps, modulus, FromBE(deviceHash)))
    ensures (start <= Tower.EndOfTime && end <= Tower.EndOfTime && (0 < start || forward < Pow(256, 128))
             && 0 < modulus < Pow(256, 128) && channel < Pow(256, 4)) ==> r.Some?
  {
    var primes := GetPrimesStartingWith(1025, 64);
    exps := primes;
    r := BuildSubscription(modulus, forward, backward, deviceHash, start, end, channel, primes);
    if start <= Tower.EndOfTime && end <= Tower.EndOfTime && (0 < start || forward < Pow(256, 128))
       && 0 < modulus < Pow(256, 128) && channel < Pow(256, 4) {
      GeneratesWith64(modulus, forward, backward, FromBE(deviceHash), start, end, channel, primes);
    }
  }
}
