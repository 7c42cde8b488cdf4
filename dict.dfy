/** A Python dict from positions to values, as the sequence of its entries in
    insertion order (the order in which Python iterates a dict). */
module Dict {

  datatype Entry = Entry(pos: nat, value: nat)

  /** `d.keys()`, in iteration order. */
  function Keys(d: seq<Entry>): (ks: seq<nat>)
    ensures |ks| == |d| && forall i :: 0 <= i < |d| ==> ks[i] == d[i].pos
  {
    seq(|d|, i requires 0 <= i < |d| => d[i].pos)
  }

  /** `d[k] = v`: overwrite the entry of an existing key in place, otherwise
      append a new entry at the end. */
  function Put(d: seq<Entry>, k: nat, v: nat): seq<Entry>
  {
    if d == [] then [Entry(k, v)]
    else if d[0].pos == k then [Entry(k, v)] + d[1..]
    else [d[0]] + Put(d[1..], k, v)
  }

  /** Assigning to a key that is not yet present appends it. */
  lemma {:induction false} PutNewKey(d: seq<Entry>, k: nat, v: nat)
    requires k !in Keys(d)
    ensures Put(d, k, v) == d + [Entry(k, v)]
  {
    if d != [] {
      assert Keys(d[1..]) == Keys(d)[1..];
      PutNewKey(d[1..], k, v);
      assert d == [d[0]] + d[1..];
    }
  }

  /** Strictly increasing keys in iteration order. */
  predicate Increasing(d: seq<Entry>)
  {
    forall i, j :: 0 <= i < j < |d| ==> d[i].pos < d[j].pos
  }

  /** `d[k]` for a key that is present: the value of its (first) entry. */
  function Lookup(d: seq<Entry>, k: nat): (v: nat)
    requires k in Keys(d)
    ensures exists i :: 0 <= i < |d| && d[i] == Entry(k, v)
  {
    if d[0].pos == k then d[0].value
    else
      assert Keys(d[1..]) == Keys(d)[1..];
      var v := Lookup(d[1..], k);
      assert exists i :: 0 <= i < |d[1..]| && d[1..][i] == Entry(k, v);
      v
  }

  /** With strictly increasing keys, looking up the key of entry i gives the
      value of entry i. */
  lemma {:induction false} LookupAt(d: seq<Entry>, i: nat)
    requires Increasing(d) && i < |d|
    ensures d[i].pos in Keys(d) && Lookup(d, d[i].pos) == d[i].value
  {
    assert d[i].pos == Keys(d)[i];
    if i > 0 {
      assert Keys(d[1..]) == Keys(d)[1..];
      assert d[1..][i - 1] == d[i];
      LookupAt(d[1..], i - 1);
    }
  }

  /** Assigning to the key of entry i of a dict with strictly increasing keys
      replaces the value of entry i and nothing else. */
  lemma {:induction false} PutExisting(d: seq<Entry>, i: nat, v: nat)
    requires Increasing(d) && i < |d|
    ensures Put(d, d[i].pos, v) == d[i := Entry(d[i].pos, v)]
  {
    if i > 0 {
      assert d[1..][i - 1] == d[i];
      PutExisting(d[1..], i - 1, v);
      assert d[0].pos != d[i].pos;
      assert d[i := Entry(d[i].pos, v)] == [d[0]] + d[1..][i - 1 := Entry(d[i].pos, v)];
    }
  }
}
