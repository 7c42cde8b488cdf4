/** Fixed-width integer encodings: Python's `int.to_bytes` /
    `int.from_bytes`, `struct.pack("<IQ")`, and Rust's `from_be_bytes`. */
module Bytes {
  import opened Arith
  import opened Wrappers

  type byte = b: int | 0 <= b < 256

  /** The big-endian value of a byte string. */
  function FromBE(s: seq<byte>): nat
  {
    if s == [] then 0 else FromBE(s[..|s| - 1]) * 256 + s[|s| - 1]
  }

  /** The n low-order bytes of v, most significant first. */
  function ToBE(v: nat, n: nat): (s: seq<byte>)
    ensures |s| == n
  {
    if n == 0 then [] else ToBE(v / 256, n - 1) + [v % 256]
  }

  /** The little-endian value of a byte string. */
  function FromLE(s: seq<byte>): nat
  {
    if s == [] then 0 else s[0] + 256 * FromLE(s[1..])
  }

  /** The n low-order bytes of v, least significant first. */
  function ToLE(v: nat, n: nat): (s: seq<byte>)
    ensures |s| == n
  {
    if n == 0 then [] else [v % 256] + ToLE(v / 256, n - 1)
  }

  function Zeros(n: nat): (z: seq<byte>)
    ensures |z| == n && forall i :: 0 <= i < n ==> z[i] == 0
  {
    seq(n, i => 0)
  }

  /** n bytes hold exactly the values below 256^n. */
  lemma {:induction false} FromBEBound(s: seq<byte>)
    ensures FromBE(s) < Pow(256, |s|)
  {
    if s != [] {
      var init := s[..|s| - 1];
      FromBEBound(init);
      assert FromBE(s) <= (Pow(256, |init|) - 1) * 256 + 255;
    }
  }

  /** Decoding the n-byte encoding gives v back, reduced modulo 256^n. */
  lemma {:induction false} FromToBE(v: nat, n: nat)
    ensures Pow(256, n) > 0
    ensures FromBE(ToBE(v, n)) == v % Pow(256, n)
  {
    PowPositive(256, n);
    if n == 0 {
    } else {
      var s := ToBE(v, n);
      assert s[..n - 1] == ToBE(v / 256, n - 1);
      FromToBE(v / 256, n - 1);
      ModSplit(v, 256, Pow(256, n - 1));
    }
  }

  /** Encoding the value of an n-byte string gives the string back. */
  lemma {:induction false} ToFromBE(s: seq<byte>)
    ensures ToBE(FromBE(s), |s|) == s
  {
    if s != [] {
      var init := s[..|s| - 1];
      var v := FromBE(s);
      DivModUnique(v, 256, FromBE(init), s[|s| - 1]);
      ToFromBE(init);
      assert s == init + [s[|s| - 1]];
    }
  }

  lemma {:induction false} FromToLE(v: nat, n: nat)
    ensures Pow(256, n) > 0
    ensures FromLE(ToLE(v, n)) == v % Pow(256, n)
  {
    PowPositive(256, n);
    if n > 0 {
      var s := ToLE(v, n);
      assert s[1..] == ToLE(v / 256, n - 1);
      FromToLE(v / 256, n - 1);
      ModSplit(v, 256, Pow(256, n - 1));
    }
  }

  lemma {:induction false} ToFromLE(s: seq<byte>)
    ensures ToLE(FromLE(s), |s|) == s
  {
    if s != [] {
      var v := FromLE(s);
      DivModUnique(v, 256, FromLE(s[1..]), s[0]);
      ToFromLE(s[1..]);
      assert s == [s[0]] + s[1..];
    }
  }

  /** `v.to_bytes(n, byteorder="big")`: an OverflowError when v needs more
      than n bytes. */
  function ToBytesBE(v: nat, n: nat): (r: Option<seq<byte>>)
    ensures r.None? <==> v >= Pow(256, n)
    ensures r.Some? ==> |r.value| == n && FromBE(r.value) == v && r.value == ToBE(v, n)
  {
    FromToBE(v, n);
    if v >= Pow(256, n) then None
    else
      ModSmall(v, Pow(256, n));
      Some(ToBE(v, n))
  }

  /** The big-endian value of a concatenation. */
  lemma {:induction false} FromBEAppend(a: seq<byte>, b: seq<byte>)
    ensures FromBE(a + b) == FromBE(a) * Pow(256, |b|) + FromBE(b)
    decreases |b|
  {
    if b == [] {
      assert a + b == a;
    } else {
      var c := b[..|b| - 1];
      assert (a + b)[..|a + b| - 1] == a + c;
      FromBEAppend(a, c);
      MulRotate(256, FromBE(a), Pow(256, |c|));
    }
  }

  /** Leading zero bytes do not change a big-endian value. */
  lemma {:induction false} FromBELeadingZeros(n: nat, b: seq<byte>)
    ensures FromBE(Zeros(n) + b) == FromBE(b)
  {
    FromBEAppend(Zeros(n), b);
    FromBEZeros(n);
  }

  lemma {:induction false} FromBEZeros(n: nat)
    ensures FromBE(Zeros(n)) == 0
  {
    if n > 0 {
      assert Zeros(n)[..n - 1] == Zeros(n - 1);
      FromBEZeros(n - 1);
    }
  }
}
