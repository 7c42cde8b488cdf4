/** The decoder's subscription records (decoder/src/subscription.rs): the
    listing of the subscription slots in flash, the in-memory subscription
    with its two position tables, the addresses of its intermediates, and
    the frame-key decoding from the power tower of the timestamp. */
module Subscriptions {
  import opened Arith
  import opened Bits
  import opened Bytes
  import opened Wrappers
  import opened Flash
  import Tower

  /** Direction tags of the two halves of a subscription. */
  const Forward: nat := 0x1f8c_25d4_b902_e785
  const Backward: nat := 0xf329_d3e6_bb90_fcc5

  /** main.rs: the number of intermediates per direction, where they start
      in a record, their width, and the width of a stored position. */
  const IntermediateNum: nat := 64
  const IntermediateLoc: nat := 1280
  const IntermediateSize: nat := 16
  const IntermediatePosSize: nat := 8

  /** main.rs: the record size, channel + lengths + the two position tables
      + modulus + start + end + the two intermediate tables. */
  const SubSize: nat := 4 + 2 + 64 + 64 + 128 + 8 + 8 + 1024 + 1024

  /** main.rs: the flash address of the subscription area. */
  const SubLoc: nat := 0x1001_f000

  /** The first 64 primes above 1024, the tower exponents by bit. */
  const Primes: seq<nat> := [
    1031, 1033, 1039, 1049, 1051, 1061, 1063, 1069, 1087, 1091, 1093, 1097, 1103, 1109, 1117, 1123,
    1129, 1151, 1153, 1163, 1171, 1181, 1187, 1193, 1201, 1213, 1217, 1223, 1229, 1231, 1237, 1249,
    1259, 1277, 1279, 1283, 1289, 1291, 1297, 1301, 1303, 1307, 1319, 1321, 1327, 1361, 1367, 1373,
    1381, 1399, 1409, 1423, 1427, 1429, 1433, 1439, 1447, 1451, 1453, 1459, 1471, 1481, 1483, 1487]

  /** `ConstDivisor::new`: a divisor for every positive value; dashu
      panics on a zero divisor, which is None here. */
  function NewDivisor(v: nat): (d: Option<nat>)
    ensures d.None? <==> v == 0
    ensures d.Some? ==> d.value == v
  {
    if v == 0 then None else Some(v)
  }

  /** A subscription listing; `present` is the source's `exists` flag. */
  datatype SubStat = SubStat(present: bool, channel: nat, start: nat, end: nat)

  /** The 22-byte header buffer of slot i, as `read_bytes` fills it. */
  function SlotHeader(mem: seq<byte>, i: nat): (data: seq<byte>)
    ensures |data| == 22
  {
    ReadBytes(mem, SubLoc + i * SubSize, Zeros(22), 22)
  }

  /** The listing of slot i: none when its first byte is 0 or 0xFF, else the
      channel from bytes 0..4, start from 6..14 and end from 14..22. */
  function SlotStat(mem: seq<byte>, i: nat): (s: Option<SubStat>)
    ensures s.None? <==> SlotHeader(mem, i)[0] == 0 || SlotHeader(mem, i)[0] == 0xFF
    ensures s.Some? ==> s.value.present && s.value.channel < Pow(256, 4)
    ensures s.Some? ==> s.value.start < Pow(256, 8) && s.value.end < Pow(256, 8)
  {
    var data := SlotHeader(mem, i);
    FromBEBound(data[0..4]);
    FromBEBound(data[6..14]);
    FromBEBound(data[14..22]);
    if data[0] == 0 || data[0] == 0xFF then None
    else Some(SubStat(true, FromBE(data[0..4]), FromBE(data[6..14]), FromBE(data[14..22])))
  }

  /** The listings of slots 0 .. n-1, in slot order. */
  function Listed(mem: seq<byte>, n: nat): seq<SubStat>
  {
    if n == 0 then []
    else Listed(mem, n - 1) + (if SlotStat(mem, n - 1).Some? then [SlotStat(mem, n - 1).value] else [])
  }

  /** `get_subscriptions`: visits the eight slots in order and pushes the
      listing of every slot in use. */
  method GetSubscriptions(mem: seq<byte>) returns (ret: seq<SubStat>)
    ensures ret == Listed(mem, 8) && |ret| <= 8
    ensures forall k :: 0 <= k < |ret| ==> ret[k].present
  {
    ret := [];
    for i := 0 to 8
      invariant ret == Listed(mem, i)
    {
      var data := ReadBytes(mem, SubLoc + i * SubSize, Zeros(22), 22);
      if data[0] == 0 || data[0] == 0xFF {
        continue;
      }
      ret := ret + [SubStat(data[0] != 0 && data[0] != 0xFF, FromBE(data[0..4]), FromBE(data[6..14]),
                            FromBE(data[14..22]))];
    }
    ListedSound(mem, 8);
  }

  /** Every listing comes from a slot in use, and there is at most one per
      slot. */
  lemma {:induction false} ListedSound(mem: seq<byte>, n: nat)
    ensures |Listed(mem, n)| <= n
    ensures forall k :: 0 <= k < |Listed(mem, n)| ==>
      exists i :: 0 <= i < n && SlotStat(mem, i) == Some(Listed(mem, n)[k])
  {
    if n > 0 {
      ListedSound(mem, n - 1);
      var l, l' := Listed(mem, n - 1), Listed(mem, n);
      forall k | 0 <= k < |l'|
        ensures exists i :: 0 <= i < n && SlotStat(mem, i) == Some(l'[k])
      {
        if k < |l| {
          assert l'[k] == l[k];
          var i :| 0 <= i < n - 1 && SlotStat(mem, i) == Some(l[k]);
          assert 0 <= i < n && SlotStat(mem, i) == Some(l'[k]);
        } else {
          assert SlotStat(mem, n - 1) == Some(l'[k]);
        }
      }
    }
  }

  /** Every slot in use is listed, and the listings keep the slot order. */
  lemma {:induction false} ListedComplete(mem: seq<byte>, n: nat, i: nat, j: nat)
    requires i < j < n && SlotStat(mem, i).Some? && SlotStat(mem, j).Some?
    ensures exists a, b :: (0 <= a < b < |Listed(mem, n)|
      && Listed(mem, n)[a] == SlotStat(mem, i).value && Listed(mem, n)[b] == SlotStat(mem, j).value)
  {
    var a := ListedIndex(mem, j, i);
    var b := ListedIndex(mem, n, j);
    ListedPrefix(mem, j, n);
    assert b >= |Listed(mem, j)| by {
      ListedCount(mem, j);
    }
    assert Listed(mem, n)[a] == Listed(mem, j)[a];
  }

  /** The position of slot i's listing in the listings of slots below n. */
  lemma {:induction false} ListedIndex(mem: seq<byte>, n: nat, i: nat) returns (a: nat)
    requires i < n && SlotStat(mem, i).Some?
    ensures a < |Listed(mem, n)| && Listed(mem, n)[a] == SlotStat(mem, i).value
    ensures a >= |Listed(mem, i)|
  {
    if i == n - 1 {
      a := |Listed(mem, n - 1)|;
    } else {
      a := ListedIndex(mem, n - 1, i);
    }
    ListedPrefix(mem, i, n);
  }

  /** The listings of fewer slots are a prefix. */
  lemma {:induction false} ListedPrefix(mem: seq<byte>, m: nat, n: nat)
    requires m <= n
    ensures |Listed(mem, m)| <= |Listed(mem, n)| && Listed(mem, n)[..|Listed(mem, m)|] == Listed(mem, m)
    decreases n - m
  {
    if m < n {
      ListedPrefix(mem, m, n - 1);
      assert Listed(mem, n)[..|Listed(mem, n - 1)|] == Listed(mem, n - 1);
    }
  }

  /** Slot j's own listing lies behind those of the slots before it. */
  lemma {:induction false} ListedCount(mem: seq<byte>, j: nat)
    ensures |Listed(mem, j)| <= |Listed(mem, j + 1)|
  {
  }

  /** What a listing holds when slot i's first line is readable:
      `read_bytes` copies only the 16 bytes of one whole line, so the end
      timestamp keeps bytes 14 and 15 and its six low bytes are zero. */
  lemma {:induction false} SlotStatAsRead(mem: seq<byte>, i: nat)
    requires Readable(mem, SubLoc + i * SubSize) && SlotStat(mem, i).Some?
    ensures var a := SubLoc + i * SubSize; var s := SlotStat(mem, i).value;
      && s.channel == FromBE(mem[a .. a + 4]) && s.start == FromBE(mem[a + 6 .. a + 14])
      && s.end == FromBE(mem[a + 14 .. a + 16]) * Pow(256, 6)
  {
    var a := SubLoc + i * SubSize;
    var data := SlotHeader(mem, i);
    ReadBytesReadable(mem, a, Zeros(22), 22);
    assert data == mem[a .. a + 16] + Zeros(22)[16..];
    assert data[0..4] == mem[a .. a + 4];
    assert data[6..14] == mem[a + 6 .. a + 14];
    assert data[14..22] == mem[a + 14 .. a + 16] + Zeros(6);
    FromBEAppend(mem[a + 14 .. a + 16], Zeros(6));
    FromBEZeros(6);
  }

  /** The header read the listing evidently intends: 22 bytes rounded up to
      two whole lines, so that all of start and end are copied. */
  function SlotStatCorrected(mem: seq<byte>, i: nat): (s: Option<SubStat>)
  {
    var data := ReadBytes(mem, SubLoc + i * SubSize, Zeros(32), 32)[..22];
    if data[0] == 0 || data[0] == 0xFF then None
    else Some(SubStat(true, FromBE(data[0..4]), FromBE(data[6..14]), FromBE(data[14..22])))
  }

  /** With the corrected read, the listing holds the stored fields whole. */
  lemma {:induction false} SlotStatCorrectedReads(mem: seq<byte>, i: nat)
    requires SubLoc + i * SubSize + 32 <= |mem|
    ensures var a := SubLoc + i * SubSize; var s := SlotStatCorrected(mem, i);
      && (s.None? <==> mem[a] == 0 || mem[a] == 0xFF)
      && (s.Some? ==> s.value.channel == FromBE(mem[a .. a + 4]) && s.value.start == FromBE(mem[a + 6 .. a + 14])
                      && s.value.end == FromBE(mem[a + 14 .. a + 22]))
  {
    var a := SubLoc + i * SubSize;
    ReadBytesReadable(mem, a, Zeros(32), 32);
    var data := ReadBytes(mem, a, Zeros(32), 32)[..22];
    assert data == mem[a .. a + 22];
    assert data[0..4] == mem[a .. a + 4];
    assert data[6..14] == mem[a + 6 .. a + 14];
    assert data[14..22] == mem[a + 14 .. a + 22];
  }

  /** `trailing_zeroes_special`: 0 for 0, otherwise the index of the lowest
      set bit. */
  function TrailingZeroesSpecial(target: nat): (r: nat)
    requires target < Pow(2, 64)
    ensures target == 0 ==> r == 0
    ensures target > 0 ==> r < 64 && Bit(target, r) && forall i: nat :: i < r ==> !Bit(target, i)
  {
    if target == 0 then 0
    else
      LowestBitSpec(target);
      LowestBitBelowWidth(target, 64);
      LowestBit(target)
  }

  /** The value decode_side promises for a 64-bit target: 1 for target 0,
      otherwise the compressed tower step of its lowest set bit i,
      compress(target^PRIMES[i] mod n, i). */
  function SideValue(target: nat, n: nat, compress: (nat, nat) -> nat): nat
    requires n > 0 && target < Pow(2, 64)
  {
    if target == 0 then 1
    else
      LowestBitBelowWidth(target, 64);
      var i := LowestBit(target);
      compress(Pow(target, Primes[i]) % n, i)
  }

  /** What the tower loop holds once bits 63 down to k are done: the step of
      the lowest set bit at or above k, or the initial 1. */
  ghost function StepsFrom(target: nat, n: nat, compress: (nat, nat) -> nat, k: nat): nat
    requires n > 0 && k <= 64
  {
    LowFromSpec(target, k);
    var i := LowFrom(target, k);
    if i < 64 then compress(Pow(target, Primes[i]) % n, i) else 1
  }

  /** The loop's final value is SideValue. */
  lemma {:induction false} StepsFromZero(target: nat, n: nat, compress: (nat, nat) -> nat)
    requires n > 0 && target < Pow(2, 64)
    ensures StepsFrom(target, n, compress, 0) == SideValue(target, n, compress)
  {
    if target == 0 {
      LowFromOfZero(0);
    } else {
      LowFromLowest(target, 0);
      LowestBitBelowWidth(target, 64);
    }
  }

  /** The number of positions the closest-position scan visits: it stops at
      the first position above target. */
  function ScanLength(ps: seq<nat>, target: nat): (k: nat)
    ensures k <= |ps| && (forall j :: 0 <= j < k ==> ps[j] <= target)
    ensures k < |ps| ==> ps[k] > target
  {
    if ps == [] || ps[0] > target then 0 else 1 + ScanLength(ps[1..], target)
  }

  /** The closest-position scan of decode_side: the largest position among
      those visited, at its first occurrence, or position 0 at index 0. */
  method FindClosest(pos: array<nat>, target: nat) returns (closestPos: nat, closestIdx: nat)
    ensures var k := ScanLength(pos[..], target);
      && closestPos <= target
      && (forall j :: 0 <= j < k ==> pos[j] <= closestPos)
      && (closestPos == 0 ==> closestIdx == 0)
      && (closestPos > 0 ==> closestIdx < k && pos[closestIdx] == closestPos
                             && forall j :: 0 <= j < closestIdx ==> pos[j] < closestPos)
  {
    closestPos, closestIdx := 0, 0;
    ghost var k := ScanLength(pos[..], target);
    var i := 0;
    while i < pos.Length
      invariant i <= k
      invariant closestPos <= target
      invariant forall j :: 0 <= j < i ==> pos[j] <= closestPos
      invariant closestPos == 0 ==> closestIdx == 0
      invariant closestPos > 0 ==> closestIdx < i && pos[closestIdx] == closestPos
                                   && forall j :: 0 <= j < closestIdx ==> pos[j] < closestPos
    {
      ScanStops(pos[..], target, i);
      if pos[i] > target {
        break;
      }
      if pos[i] > closestPos {
        closestPos := pos[i];
        closestIdx := i;
      }
      i := i + 1;
    }
  }

  /** The scan visits index i exactly when every position up to i is at
      most target. */
  lemma {:induction false} ScanStops(ps: seq<nat>, target: nat, i: nat)
    requires i < |ps| && forall j :: 0 <= j < i ==> ps[j] <= target
    ensures ps[i] > target ==> ScanLength(ps, target) == i
    ensures ps[i] <= target ==> ScanLength(ps, target) > i
  {
    if i > 0 {
      ScanStops(ps[1..], target, i - 1);
    }
  }

  class Subscription {
    var n: nat
    var forwardPos: array<nat>
    var backwardPos: array<nat>
    var start: nat
    var end: nat
    var channel: nat
    var location: nat
    var currFrame: nat

    /** The two position tables hold INTERMEDIATE_NUM entries each, and the
        modulus is a `ConstDivisor`, which is never zero. */
    ghost predicate Valid()
      reads this
    {
      n > 0 && forwardPos.Length == IntermediateNum && backwardPos.Length == IntermediateNum && forwardPos != backwardPos
    }

    /** `Subscription::new`: modulus 1, every position and field 0. */
    constructor ()
      ensures Valid() && fresh(forwardPos) && fresh(backwardPos)
      ensures n == 1 && start == 0 && end == 0 && channel == 0 && location == 0 && currFrame == 0
      ensures forall j :: 0 <= j < IntermediateNum ==> forwardPos[j] == 0 && backwardPos[j] == 0
    {
      n := 1;
      forwardPos := new nat[IntermediateNum](_ => 0);
      backwardPos := new nat[IntermediateNum](_ => 0);
      start, end, channel, location, currFrame := 0, 0, 0, 0, 0;
    }

    /** `set_modulus`: the modulus is replaced by the divisor of m; for
        m = 0 `ConstDivisor::new` panics (false) and nothing changes. */
    method SetModulus(m: nat) returns (ok: bool)
      requires Valid()
      modifies this
      ensures Valid() && (ok <==> m > 0)
      ensures ok ==> n == m
      ensures !ok ==> n == old(n)
      ensures forwardPos == old(forwardPos) && backwardPos == old(backwardPos)
      ensures start == old(start) && end == old(end) && channel == old(channel)
      ensures location == old(location) && currFrame == old(currFrame)
    {
      var d := NewDivisor(m);
      if d.None? {
        return false;
      }
      n := d.value;
      return true;
    }

    /** Where intermediate pos of a direction lies, from the start of the
        record: the forward table at INTERMEDIATE_LOC, anything that is not
        FORWARD 1024 bytes further on. */
    function IntermediateOffset(pos: nat, dir: nat): (off: nat)
      ensures dir == Forward ==> off == IntermediateLoc + IntermediateSize * pos
      ensures dir != Forward ==> off == IntermediateLoc + 1024 + IntermediateSize * pos
    {
      IntermediateLoc + pos * IntermediateSize + if dir == Forward then 0 else 1024
    }

    /** `get_intermediate`: 16 big-endian bytes, from the embedded emergency
        record for location 0 (past its end the slice panics: None), else
        from flash at location plus the offset, truncated to a 32-bit
        address; an unreadable line leaves the zero buffer. */
    function GetIntermediate(mem: seq<byte>, emergency: seq<byte>, pos: nat, dir: nat): (r: Option<nat>)
      reads this
      ensures r.Some? ==> r.value < Pow(256, IntermediateSize)
      ensures location == 0 ==> (r.Some? <==> IntermediateOffset(pos, dir) + 16 <= |emergency|)
      ensures location == 0 && r.Some? ==>
        r.value == FromBE(emergency[IntermediateOffset(pos, dir) .. IntermediateOffset(pos, dir) + 16])
      ensures location != 0 ==> r.Some?
    {
      var off := IntermediateOffset(pos, dir);
      if location == 0 then
        if off + 16 <= |emergency| then
          FromBEBound(emergency[off .. off + 16]);
          Some(FromBE(emergency[off .. off + 16]))
        else None
      else
        var data := ReadBytes(mem, (location + off) % 0x1_0000_0000, Zeros(IntermediateSize), IntermediateSize);
        FromBEBound(data);
        Some(FromBE(data))
    }

    /** A flash intermediate is the 16 bytes at its address when that line
        is readable. */
    lemma {:induction false} FlashIntermediate(mem: seq<byte>, emergency: seq<byte>, pos: nat, dir: nat)
      requires location != 0 && Readable(mem, (location + IntermediateOffset(pos, dir)) % 0x1_0000_0000)
      ensures var a := (location + IntermediateOffset(pos, dir)) % 0x1_0000_0000;
        GetIntermediate(mem, emergency, pos, dir) == Some(FromBE(mem[a .. a + 16]))
    {
      var a := (location + IntermediateOffset(pos, dir)) % 0x1_0000_0000;
      ReadBytesReadable(mem, a, Zeros(16), 16);
      assert ReadBytes(mem, a, Zeros(16), 16) == mem[a .. a + 16];
    }

    /** `decode_side`: 0 for a direction that is neither FORWARD nor
        BACKWARD; otherwise the closest stored position is looked up and
        then the tower loop runs over bits 63 down to 0, overwriting the
        result at every set bit of target, so that the lowest set bit's
        step is what remains. */
    method DecodeSide(target: nat, dir: nat, compress: (nat, nat) -> nat) returns (r: nat)
      requires Valid() && target < Pow(2, 64)
      ensures dir != Forward && dir != Backward ==> r == 0
      ensures dir == Forward || dir == Backward ==> r == SideValue(target, n, compress)
    {
      var pos: array<nat>;
      if dir == Forward {
        pos := forwardPos;
      } else if dir == Backward {
        pos := backwardPos;
      } else {
        return 0;
      }
      var closestPos, closestIdx := FindClosest(pos, target);
      var result := 1;
      var idx: nat := IntermediateNum - 1;
      while true
        invariant idx < 64
        invariant result == StepsFrom(target, n, compress, idx + 1)
        decreases idx
      {
        if Bit(target, idx) {
          PowModBase(target, Primes[idx], n);
          result := compress(Pow(target % n, Primes[idx]) % n, idx);
        }
        if idx == 0 {
          break;
        }
        idx := idx - 1;
      }
      StepsFromZero(target, n, compress);
      r := result;
    }

    /** `decode`: target^65537 mod n, XORed with the guard, the XOR of the
        forward side at timestamp and the backward side at its bitwise
        complement 2^64 - 1 - timestamp. */
    method Decode(target: nat, timestamp: nat, compress: (nat, nat) -> nat) returns (r: nat)
      requires Valid() && timestamp <= Tower.EndOfTime
      ensures r == Xor(Pow(target, 65537) % n, Guard(timestamp, n, compress))
    {
      Tower.EndOfTimeValue();
      var forward := DecodeSide(timestamp, Forward, compress);
      var backward := DecodeSide(Tower.Mirror(timestamp), Backward, compress);
      var guard := Xor(forward, backward);
      r := Xor(Pow(target, 65537) % n, guard);
    }
  }

  /** The guard of a frame: the forward side at the timestamp against the
      backward side at its mirror image. */
  function Guard(timestamp: nat, n: nat, compress: (nat, nat) -> nat): nat
    requires n > 0 && timestamp <= Tower.EndOfTime
  {
    Tower.EndOfTimeValue();
    Xor(SideValue(timestamp, n, compress), SideValue(Tower.Mirror(timestamp), n, compress))
  }

  /** XORing the guard back off the decoded value leaves target^65537 mod n:
      decoding and guarding are inverse masks. */
  lemma {:induction false} GuardCancels(target: nat, timestamp: nat, n: nat, compress: (nat, nat) -> nat)
    requires n > 0 && timestamp <= Tower.EndOfTime
    ensures Xor(Xor(Pow(target, 65537) % n, Guard(timestamp, n, compress)), Guard(timestamp, n, compress))
      == Pow(target, 65537) % n
  {
    XorCancel(Pow(target, 65537) % n, Guard(timestamp, n, compress));
  }

  /** The frame round trip: a frame value v masked with the timestamp's
      guard and raised to the private exponent d decodes back to v,
      given the RSA key relation x^(d*65537) = x (mod n) for the masked
      value x. */
  lemma {:induction false} DecodeRoundTrip(v: nat, d: nat, timestamp: nat, n: nat, compress: (nat, nat) -> nat)
    requires n > 0 && timestamp <= Tower.EndOfTime
    requires Xor(v, Guard(timestamp, n, compress)) < n
    requires var x := Xor(v, Guard(timestamp, n, compress)); Pow(x, d * 65537) % n == x
    ensures var target := Pow(Xor(v, Guard(timestamp, n, compress)), d) % n;
      Xor(Pow(target, 65537) % n, Guard(timestamp, n, compress)) == v
  {
    var g := Guard(timestamp, n, compress);
    var x := Xor(v, g);
    PowPowMod(x, d, 65537, n);
    XorCancel(v, g);
  }

  /** Exactly one of a timestamp and its mirror image is odd, so exactly one
      of the two sides takes the step of bit 0. */
  lemma {:induction false} OneSideOdd(timestamp: nat)
    requires timestamp <= Tower.EndOfTime
    ensures Bit(Tower.Mirror(timestamp), 0) == !Bit(timestamp, 0)
  {
  }
}
