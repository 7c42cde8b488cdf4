/** The decoder's start-up code (decoder/src/main.rs): the channel list
    compiled in as text, the slot of a channel, the RSA-wrapped channel
    moduli and the loading of a subscription record into a Subscription. */
module DecoderMain {
  import opened Arith
  import opened Bytes
  import opened Wrappers
  import opened Flash
  import opened Subscriptions

  /** main.rs: the flash page length. */
  const SubSpace: nat := 8192

  /** The number of channel slots. */
  const Slots: nat := 9

  // ---------------------------------------------------------------------
  // The CHANNELS text

  /** `str::split(",")`: the fields between the commas, in order; the
      empty text is one empty field. */
  function Split(s: string): (fs: seq<string>)
    ensures |fs| >= 1
    ensures forall k :: 0 <= k < |fs| ==> ',' !in fs[k]
  {
    if s == [] then [[]]
    else
      var rest := Split(s[1..]);
      if s[0] == ',' then [[]] + rest
      else [[s[0]] + rest[0]] + rest[1..]
  }

  /** The fields joined back with commas. */
  function Join(fs: seq<string>): string
    requires |fs| >= 1
  {
    if |fs| == 1 then fs[0] else fs[0] + [','] + Join(fs[1..])
  }

  /** Joining the fields gives the text back. */
  lemma {:induction false} JoinSplit(s: string)
    ensures Join(Split(s)) == s
  {
    if s != [] {
      JoinSplit(s[1..]);
      var rest := Split(s[1..]);
      if s[0] == ',' {
        assert Split(s)[1..] == rest;
      } else {
        JoinCons(s[0], rest);
      }
    }
  }

  /** A character put in front of the first field goes in front of the join. */
  lemma {:induction false} JoinCons(c: char, fs: seq<string>)
    requires |fs| >= 1
    ensures Join([[c] + fs[0]] + fs[1..]) == [c] + Join(fs)
  {
    var gs := [[c] + fs[0]] + fs[1..];
    if |fs| == 1 {
      assert Join(gs) == gs[0];
    } else {
      var tail := Join(fs[1..]);
      assert gs[1..] == fs[1..];
      assert Join(gs) == ([c] + fs[0]) + [','] + tail;
      assert Join(fs) == fs[0] + [','] + tail;
      assert ([c] + fs[0]) + [','] + tail == [c] + (fs[0] + [','] + tail);
    }
  }

  /** Splitting comma-free fields joined with commas gives the fields back. */
  lemma {:induction false} SplitJoin(fs: seq<string>)
    requires |fs| >= 1 && forall k :: 0 <= k < |fs| ==> ',' !in fs[k]
    ensures Split(Join(fs)) == fs
    decreases |fs|, |fs[0]|
  {
    if fs[0] == [] {
      if |fs| > 1 {
        SplitJoin(fs[1..]);
        assert Join(fs) == [','] + Join(fs[1..]);
        assert Join(fs)[1..] == Join(fs[1..]);
      }
    } else {
      var c := fs[0][0];
      var gs := [fs[0][1..]] + fs[1..];
      assert gs[1..] == fs[1..];
      assert ',' !in gs[0] by {
        assert forall x :: x in gs[0] ==> x in fs[0];
      }
      SplitJoin(gs);
      assert fs[0] == [c] + gs[0];
      JoinCons(c, gs);
      assert [[c] + gs[0]] + gs[1..] == fs;
      assert Join(fs)[1..] == Join(gs);
    }
  }

  predicate IsDigit(c: char)
  {
    '0' <= c <= '9'
  }

  /** The value of one decimal digit. */
  function DigitOf(c: char): (d: nat)
    requires IsDigit(c)
    ensures d < 10
  {
    c as int - '0' as int
  }

  /** The value of a string of decimal digits, most significant first. */
  function DigitsValue(ds: string): nat
    requires forall k :: 0 <= k < |ds| ==> IsDigit(ds[k])
  {
    if ds == [] then 0 else DigitsValue(ds[..|ds| - 1]) * 10 + DigitOf(ds[|ds| - 1])
  }

  /** `str::parse::<u32>`: an optional leading '+', then at least one
      decimal digit and nothing else, of value below 2^32. */
  function ParseU32(s: string): (r: Option<nat>)
    ensures r.Some? ==> r.value < Pow(2, 32)
    ensures r.Some? ==> s != [] && (IsDigit(s[0]) || (s[0] == '+' && |s| >= 2))
    ensures r.Some? ==> '-' !in s && ',' !in s
  {
    var ds := if s != [] && s[0] == '+' then s[1..] else s;
    if ds == [] || !(forall k :: 0 <= k < |ds| ==> IsDigit(ds[k])) then None
    else if DigitsValue(ds) >= 0x1_0000_0000 then None
    else
      assert Pow(2, 32) == 0x1_0000_0000 by {
        PowTo32();
      }
      assert forall c :: c in s ==> c == '+' || IsDigit(c) by {
        forall c | c in s
          ensures c == '+' || IsDigit(c)
        {
          var k :| 0 <= k < |s| && s[k] == c;
          if s[0] == '+' && k > 0 {
            assert s[k] == ds[k - 1];
          }
        }
      }
      Some(DigitsValue(ds))
  }

  lemma {:induction false} PowTo32()
    ensures Pow(2, 32) == 0x1_0000_0000
  {
    Pow2To16();
    PowAdd(2, 16, 16);
  }

  /** The decimal digits of v, without leading zeros ("0" for zero). */
  function Decimal(v: nat): (ds: string)
    ensures |ds| >= 1 && forall k :: 0 <= k < |ds| ==> IsDigit(ds[k])
  {
    var d := ['0' + ((v % 10) as char)];
    if v < 10 then d else Decimal(v / 10) + d
  }

  /** The decimal digits have the value they print. */
  lemma {:induction false} DecimalValue(v: nat)
    ensures DigitsValue(Decimal(v)) == v
  {
    var ds := Decimal(v);
    if v >= 10 {
      DecimalValue(v / 10);
      assert ds[..|ds| - 1] == Decimal(v / 10);
    }
  }

  /** Every 32-bit value printed in decimal parses back. */
  lemma {:induction false} ParseDecimal(v: nat)
    requires v < Pow(2, 32)
    ensures ParseU32(Decimal(v)) == Some(v)
  {
    DecimalValue(v);
    PowTo32();
  }

  /** The channel table `get_channels` builds: slot k holds the k-th field,
      the slots after the last field hold 0; it panics (None) when a field
      does not parse or when there are more fields than slots. */
  function ChannelTable(text: string): (r: Option<seq<nat>>)
    ensures var fs := Split(text);
      r.None? <==> |fs| > Slots || exists k :: 0 <= k < |fs| && ParseU32(fs[k]).None?
    ensures r.Some? ==> (|r.value| == Slots
      && (forall k :: 0 <= k < |Split(text)| ==> Some(r.value[k]) == ParseU32(Split(text)[k]))
      && (forall k :: |Split(text)| <= k < Slots ==> r.value[k] == 0))
  {
    var fs := Split(text);
    if |fs| > Slots || exists k :: 0 <= k < |fs| && ParseU32(fs[k]).None? then None
    else Some(seq(Slots, k => if 0 <= k < |fs| then ParseU32(fs[k]).value else 0))
  }

  /** `get_channels`, over the CHANNELS text given at build time. */
  method GetChannels(text: string) returns (r: Option<seq<nat>>)
    ensures r == ChannelTable(text)
  {
    var ret := new nat[Slots](_ => 0);
    var fields := Split(text);
    var i := 0;
    while i < |fields|
      invariant i <= |fields| && i <= Slots
      invariant forall k :: 0 <= k < i ==> ParseU32(fields[k]).Some? && ret[k] == ParseU32(fields[k]).value
      invariant forall k :: i <= k < Slots ==> ret[k] == 0
    {
      var channel := ParseU32(fields[i]);
      if channel.None? {
        return None;
      }
      if i >= Slots {
        return None;
      }
      ret[i] := channel.value;
      i := i + 1;
    }
    r := Some(ret[..]);
    assert r.value == ChannelTable(text).value;
  }

  /** The first index of x in s, or 0 when x does not occur. */
  function FirstSlotOf(s: seq<nat>, x: nat): (i: nat)
    ensures i < |s| || i == 0
    ensures x in s ==> s[i] == x && x !in s[..i]
    ensures x !in s ==> i == 0
  {
    if s == [] || x !in s then 0
    else if s[0] == x then 0
    else
      var i := FirstSlotOf(s[1..], x);
      assert s[..i + 1] == [s[0]] + s[1..][..i];
      i + 1
  }

  /** Only the first occurrence has no earlier occurrence. */
  lemma {:induction false} FirstSlotUnique(s: seq<nat>, x: nat, i: nat)
    requires i < |s| && s[i] == x && x !in s[..i]
    ensures FirstSlotOf(s, x) == i
  {
  }

  /** The slot of a channel in the CHANNELS table (None when building the
      table panics). */
  function ChannelSlot(text: string, channel: nat): (r: Option<nat>)
    ensures r.None? <==> ChannelTable(text).None?
    ensures r.Some? ==> r.value < Slots
  {
    match ChannelTable(text)
    case None => None
    case Some(t) => Some(FirstSlotOf(t, channel))
  }

  /** The slot `get_loc_for_channel` picks in a channel table: the first
      slot holding the channel, or slot 0 when none does. */
  method LocInTable(channels: seq<nat>, channel: nat) returns (loc: nat)
    ensures loc == FirstSlotOf(channels, channel)
  {
    for i := 0 to |channels|
      invariant channel !in channels[..i]
    {
      if channels[i] == channel {
        FirstSlotUnique(channels, channel, i);
        return i;
      }
      assert channels[..i + 1] == channels[..i] + [channels[i]];
    }
    assert channels[..|channels|] == channels;
    return 0;
  }

  /** `get_loc_for_channel`: the slot of a channel in the CHANNELS table,
      None when building the table panics. */
  method GetLocForChannel(text: string, channel: nat) returns (r: Option<nat>)
    ensures r == ChannelSlot(text, channel)
    ensures r.None? <==> ChannelTable(text).None?
    ensures r.Some? ==> r.value < Slots && var t := ChannelTable(text).value;
      && (channel in t ==> t[r.value] == channel && channel !in t[..r.value])
      && (channel !in t ==> r.value == 0)
  {
    var channels := GetChannels(text);
    if channels.None? {
      return None;
    }
    var loc := LocInTable(channels.value, channel);
    return Some(loc);
  }

  /** Channel 0 (the emergency channel) is taken from the first slot after
      the listed channels when none of them is 0. */
  lemma {:induction false} EmergencySlot(text: string)
    requires ChannelTable(text).Some? && |Split(text)| < Slots
    requires forall k :: 0 <= k < |Split(text)| ==> ParseU32(Split(text)[k]) != Some(0)
    ensures var t := ChannelTable(text).value;
      0 in t && t[|Split(text)|] == 0 && 0 !in t[..|Split(text)|]
  {
    var t := ChannelTable(text).value;
    var m := |Split(text)|;
    assert t[m] == 0;
    forall k | 0 <= k < m
      ensures t[..m][k] != 0
    {
      assert Some(t[k]) == ParseU32(Split(text)[k]);
    }
  }

  // ---------------------------------------------------------------------
  // Channel moduli

  /** `decrypt_channel_modulus`: the channel's 160-byte modulus N and
      private exponent d from the embedded tables, and c^d mod N, the raw
      RSA decryption of section 5.1.2 of RFC 8017 in its (n, d) form. A
      slice past the end of a table panics, and so does `ConstDivisor::new`
      of a zero value, both for N (line 242) and for the result (line 252):
      None. */
  function DecryptChannelModulus(c: nat, channelPos: nat, moduli: seq<byte>, privates: seq<byte>): (r: Option<nat>)
    ensures var p := 160 * channelPos;
      r.Some? <==> (p + 160 <= |moduli| && p + 160 <= |privates| && FromBE(moduli[p .. p + 160]) > 0
                    && Pow(c, FromBE(privates[p .. p + 160])) % FromBE(moduli[p .. p + 160]) > 0)
    ensures r.Some? ==> var p := 160 * channelPos; var m := FromBE(moduli[p .. p + 160]);
      0 < r.value < m && r.value == Pow(c, FromBE(privates[p .. p + 160])) % m
  {
    var pos := channelPos * 160;
    if pos + 160 > |moduli| || pos + 160 > |privates| then None
    else
      var modulus := NewDivisor(FromBE(moduli[pos .. pos + 160]));
      var privateKey := FromBE(privates[pos .. pos + 160]);
      if modulus.None? then None
      else
        PowModBase(c, privateKey, modulus.value);
        NewDivisor(Pow(c % modulus.value, privateKey) % modulus.value)
  }

  /** Decryption undoes the channel's public exponent e for every message
      below N, given the RSA key relation m^(e*d) = m (mod N); the message
      0 decrypts to 0, on which `ConstDivisor::new` panics. */
  lemma {:induction false} DecryptEncrypted(msg: nat, e: nat, channelPos: nat, moduli: seq<byte>, privates: seq<byte>)
    requires var p := 160 * channelPos;
      p + 160 <= |moduli| && p + 160 <= |privates| && msg < FromBE(moduli[p .. p + 160])
    requires var p := 160 * channelPos; var m := FromBE(moduli[p .. p + 160]);
      Pow(msg, e * FromBE(privates[p .. p + 160])) % m == msg
    ensures var p := 160 * channelPos;
      DecryptChannelModulus(Pow(msg, e) % FromBE(moduli[p .. p + 160]), channelPos, moduli, privates)
        == if msg == 0 then None else Some(msg)
  {
    var p := 160 * channelPos;
    var m := FromBE(moduli[p .. p + 160]);
    PowPowMod(msg, e, FromBE(privates[p .. p + 160]), m);
  }

  /** Where `load_moduli` reads slot i's wrapped modulus: past the 22 header
      bytes and the 64 eight-byte positions of the slot's page. */
  function ModulusAddress(i: nat): (a: nat)
    ensures a == 8192 * i + 534
  {
    SubSpace * i + IntermediatePosSize * IntermediateNum + 22
  }

  /** The 160-byte buffer after the reads of slots 0 .. i-1; the buffer is
      shared by the iterations, so a failed read keeps the bytes of the
      slot before. */
  function ModulusBuffer(mem: seq<byte>, i: nat): (b: seq<byte>)
    ensures |b| == 160
  {
    if i == 0 then Zeros(160) else ReadBytes(mem, ModulusAddress(i - 1), ModulusBuffer(mem, i - 1), 160)
  }

  /** With slot i's 160 bytes in the image, its buffer holds exactly them. */
  lemma {:induction false} ModulusBufferReadable(mem: seq<byte>, i: nat)
    requires ModulusAddress(i) + 160 <= |mem|
    ensures ModulusBuffer(mem, i + 1) == mem[ModulusAddress(i) .. ModulusAddress(i) + 160]
  {
    ReadWholeLines(mem, ModulusAddress(i), ModulusBuffer(mem, i));
  }

  /** A readable read of exactly the buffer's length, a whole number of
      lines, replaces the buffer. */
  lemma {:induction false} ReadWholeLines(mem: seq<byte>, a: nat, b: seq<byte>)
    requires |b| == 160 && a + 160 <= |mem|
    ensures ReadBytes(mem, a, b, 160) == mem[a .. a + 160]
  {
    ReadBytesReadable(mem, a, b, 160);
    assert b[160..] == [];
  }

  /** The modulus `load_moduli` puts in slot i: the decryption of the
      buffer after slot i's read. */
  function ModulusAt(mem: seq<byte>, moduli: seq<byte>, privates: seq<byte>, i: nat): (r: Option<nat>)
    ensures r == DecryptChannelModulus(FromBE(ModulusBuffer(mem, i + 1)), i, moduli, privates)
  {
    DecryptChannelModulus(FromBE(ModulusBuffer(mem, i + 1)), i, moduli, privates)
  }

  /** The loop of `load_moduli` after the table is filled with
      `ConstDivisor::new(fill)`: that fill panics for 0; otherwise slots
      0..7 hold the decrypted modulus of their page and slot 8 keeps the
      fill; a decryption that panics makes the whole load None. */
  method LoadModuliFilled(fill: nat, mem: seq<byte>, moduli: seq<byte>, privates: seq<byte>) returns (r: Option<seq<nat>>)
    ensures r.None? <==> fill == 0 || (exists i :: 0 <= i < 8 && ModulusAt(mem, moduli, privates, i).None?)
    ensures r.Some? ==> (|r.value| == Slots && r.value[8] == fill
      && forall i :: 0 <= i < 8 ==> Some(r.value[i]) == ModulusAt(mem, moduli, privates, i))
    ensures r.Some? ==> forall i :: 0 <= i < Slots ==> r.value[i] > 0
  {
    var divisor := NewDivisor(fill);
    if divisor.None? {
      return None;
    }
    var ret := new nat[Slots](_ => fill);
    var cache := Zeros(160);
    for i := 0 to 8
      invariant cache == ModulusBuffer(mem, i)
      invariant forall j :: 0 <= j < i ==> Some(ret[j]) == ModulusAt(mem, moduli, privates, j) && ret[j] > 0
      invariant forall j :: i <= j < Slots ==> ret[j] == fill
    {
      var pos := SubSpace * i + IntermediatePosSize * IntermediateNum + 22;
      cache := ReadBytes(mem, pos, cache, 160);
      var encryptedModulus := FromBE(cache[0..160]);
      assert cache[0..160] == cache;
      var m := DecryptChannelModulus(encryptedModulus, i, moduli, privates);
      if m.None? {
        assert ModulusAt(mem, moduli, privates, i).None?;
        return None;
      }
      ret[i] := m.value;
    }
    r := Some(ret[..]);
  }

  /** `load_moduli` as written: the table is first filled with
      `ConstDivisor::new(UBig::from(0))`, which panics, so the load never
      gets to the flash. */
  method LoadModuli(mem: seq<byte>, moduli: seq<byte>, privates: seq<byte>) returns (r: Option<seq<nat>>)
    ensures r == None
  {
    r := LoadModuliFilled(0, mem, moduli, privates);
  }

  /** `load_moduli` with a fill that is a valid divisor, the modulus 1 that
      `Subscription::new` also starts with: slots 0..7 hold the decrypted
      modulus of their page, slot 8 is 1, and None exactly when one
      decryption panics. */
  method LoadModuliCorrected(mem: seq<byte>, moduli: seq<byte>, privates: seq<byte>) returns (r: Option<seq<nat>>)
    ensures r.None? <==> (exists i :: 0 <= i < 8 && ModulusAt(mem, moduli, privates, i).None?)
    ensures r.Some? ==> (|r.value| == Slots && r.value[8] == 1
      && forall i :: 0 <= i < 8 ==> Some(r.value[i]) == ModulusAt(mem, moduli, privates, i))
    ensures r.Some? ==> forall i :: 0 <= i < Slots ==> r.value[i] > 0
  {
    r := LoadModuliFilled(1, mem, moduli, privates);
  }

  // ---------------------------------------------------------------------
  // Loading a subscription

  /** The position stored at entry j of a table at offset base. */
  function PosAt(buf: seq<byte>, base: nat, j: nat): (v: nat)
    requires base + 8 * j + 8 <= |buf|
    ensures v < Pow(256, 8)
  {
    FromBEBound(buf[base + 8 * j .. base + 8 * j + 8]);
    FromBE(buf[base + 8 * j .. base + 8 * j + 8])
  }

  /** How many entries of a 64-entry table are copied: all up to the first
      zero after entry 0. */
  function TableLength(buf: seq<byte>, base: nat): (k: nat)
    requires base + 512 <= |buf|
    ensures 1 <= k <= 64
    ensures forall j :: 0 < j < k ==> PosAt(buf, base, j) != 0
    ensures k < 64 ==> PosAt(buf, base, k) == 0
  {
    TableLengthFrom(buf, base, 1)
  }

  function TableLengthFrom(buf: seq<byte>, base: nat, j: nat): (k: nat)
    requires base + 512 <= |buf| && 1 <= j <= 64
    ensures j <= k <= 64
    ensures forall i :: j <= i < k ==> PosAt(buf, base, i) != 0
    ensures k < 64 ==> PosAt(buf, base, k) == 0
    decreases 64 - j
  {
    if j == 64 || PosAt(buf, base, j) == 0 then j else TableLengthFrom(buf, base, j + 1)
  }

  /** A position table after loading from buf at base, given what it held
      before: the first TableLength entries come from buf, the rest are
      kept. */
  predicate PositionsFrom(table: seq<nat>, before: seq<nat>, buf: seq<byte>, base: nat)
    requires base + 512 <= |buf| && |table| == 64 && |before| == 64
  {
    && (forall j :: 0 <= j < TableLength(buf, base) ==> table[j] == PosAt(buf, base, j))
    && (forall j :: TableLength(buf, base) <= j < 64 ==> table[j] == before[j])
  }

  /** One position-table loop of `load_subscription`: entries j = 0, 1, ...
      are copied in order until the first zero after entry 0; the entries
      after it keep what they held. */
  method LoadPositions(table: array<nat>, buf: seq<byte>, base: nat)
    requires table.Length == IntermediateNum && base + 512 <= |buf|
    modifies table
    ensures PositionsFrom(table[..], old(table[..]), buf, base)
  {
    ghost var k := TableLength(buf, base);
    for j := 0 to 64
      invariant j <= k
      invariant forall i :: 0 <= i < j ==> table[i] == PosAt(buf, base, i)
      invariant forall i :: j <= i < 64 ==> table[i] == old(table[i])
    {
      var v := PosAt(buf, base, j);
      if v == 0 && j > 0 {
        break;
      }
      table[j] := v;
    }
  }

  /** The fields of a subscription record as `load_subscription` reads
      them: the initialised byte 20, channel in bytes 0..4, start in 4..12,
      end in 12..20, the position tables at 22 and 534, the wrapped modulus
      in 1046..1206. */
  predicate Accepted(buf: seq<byte>)
    requires |buf| > 20
  {
    buf[20] != 0 && buf[20] != 0xFF
  }

  /** `load_subscription` on the record buffer: Some(false), with nothing
      changed, for an uninitialised record; otherwise every field is read
      from the record and Some(true), or None when decrypting the modulus
      panics (then every field but the modulus has already been written). */
  method LoadSubscription(sub: Subscription, buf: seq<byte>, channelPos: nat, moduli: seq<byte>, privates: seq<byte>)
    returns (r: Option<bool>)
    requires sub.Valid() && |buf| >= 1206
    modifies sub, sub.forwardPos, sub.backwardPos
    ensures sub.Valid() && sub.forwardPos == old(sub.forwardPos) && sub.backwardPos == old(sub.backwardPos)
    ensures sub.currFrame == old(sub.currFrame)
    ensures r == Some(false) <==> !Accepted(buf)
    ensures !Accepted(buf) ==> unchanged(sub, sub.forwardPos, sub.backwardPos)
    ensures var m := DecryptChannelModulus(FromBE(buf[1046..1206]), channelPos, moduli, privates);
      Accepted(buf) ==>
        && (r.None? <==> m.None?)
        && (m.Some? ==> sub.n == m.value) && (m.None? ==> sub.n == old(sub.n))
        && sub.location == channelPos * SubSize && sub.channel == FromBE(buf[0..4])
        && sub.start == FromBE(buf[4..12]) && sub.end == FromBE(buf[12..20])
        && PositionsFrom(sub.forwardPos[..], old(sub.forwardPos[..]), buf, 22)
        && PositionsFrom(sub.backwardPos[..], old(sub.backwardPos[..]), buf, 534)
  {
    var init := buf[20];
    if init == 0 || init == 0xFF {
      return Some(false);
    }
    sub.location := channelPos * SubSize;
    sub.channel := FromBE(buf[0..4]);
    sub.start := FromBE(buf[4..12]);
    sub.end := FromBE(buf[12..20]);
    LoadPositions(sub.forwardPos, buf, 22);
    LoadPositions(sub.backwardPos, buf, 22 + IntermediatePosSize * IntermediateNum);
    var encryptedModulus := FromBE(buf[1046..1206]);
    var m := DecryptChannelModulus(encryptedModulus, channelPos, moduli, privates);
    if m.None? {
      return None;
    }
    sub.n := m.value;
    return Some(true);
  }

  /** `load_emergency_subscription` on the embedded emergency record:
      location 0 and the channel from bytes 0..4; a non-zero channel ends
      it there, otherwise the other fields are read as in
      `load_subscription` and the modulus is decrypted with the key of
      channel 0's slot. It returns false when it panics: a record shorter
      than the slices it takes, a CHANNELS text that does not parse, or a
      failed decryption; the firmware halts there. */
  method LoadEmergencySubscription(sub: Subscription, emergency: seq<byte>, channels: string,
                                   moduli: seq<byte>, privates: seq<byte>)
    returns (ok: bool)
    requires sub.Valid()
    modifies sub, sub.forwardPos, sub.backwardPos
    ensures sub.Valid() && sub.forwardPos == old(sub.forwardPos) && sub.backwardPos == old(sub.backwardPos)
    ensures ok <==> (|emergency| >= 4 &&
      (FromBE(emergency[0..4]) == 0 ==>
         && |emergency| >= 1206 && ChannelSlot(channels, 0).Some?
         && DecryptChannelModulus(FromBE(emergency[1046..1206]), ChannelSlot(channels, 0).value, moduli, privates).Some?))
    ensures ok ==> sub.location == 0 && sub.channel == FromBE(emergency[0..4]) && sub.currFrame == old(sub.currFrame)
    ensures ok && sub.channel != 0 ==> (sub.n == old(sub.n) && sub.start == old(sub.start) && sub.end == old(sub.end)
      && unchanged(sub.forwardPos, sub.backwardPos))
    ensures ok && sub.channel == 0 ==>
      && Some(sub.n) == DecryptChannelModulus(FromBE(emergency[1046..1206]), ChannelSlot(channels, 0).value, moduli, privates)
      && sub.start == FromBE(emergency[4..12]) && sub.end == FromBE(emergency[12..20])
      && PositionsFrom(sub.forwardPos[..], old(sub.forwardPos[..]), emergency, 22)
      && PositionsFrom(sub.backwardPos[..], old(sub.backwardPos[..]), emergency, 534)
  {
    sub.location := 0;
    if |emergency| < 4 {
      return false;
    }
    sub.channel := FromBE(emergency[0..4]);
    if sub.channel != 0 {
      return true;
    }
    if |emergency| < 1206 {
      return false;
    }
    sub.start := FromBE(emergency[4..12]);
    sub.end := FromBE(emergency[12..20]);
    LoadPositions(sub.forwardPos, emergency, 22);
    LoadPositions(sub.backwardPos, emergency, 22 + IntermediatePosSize * IntermediateNum);
    var encryptedModulus := FromBE(emergency[1046..1206]);
    var loc := GetLocForChannel(channels, 0);
    if loc.None? {
      return false;
    }
    var m := DecryptChannelModulus(encryptedModulus, loc.value, moduli, privates);
    if m.None? {
      return false;
    }
    sub.n := m.value;
    return true;
  }

  /** The flash load as written: SUB_SIZE bytes are read from the start of
      the subscription area into a 2048-byte buffer, so `read_bytes` stops
      with LowSpace before copying anything and the record is never
      accepted. */
  lemma {:induction false} FlashRecordAsWritten(mem: seq<byte>, channelPos: nat)
    ensures ReadBytes(mem, SubLoc, Zeros(2048), SubSize) == Zeros(2048)
    ensures !Accepted(ReadBytes(mem, SubLoc, Zeros(2048), SubSize))
  {
  }

  /** `load_subscription` as written: when the fixed address check passes,
      SUB_SIZE bytes from the start of the subscription area are read into
      a 2048-byte buffer, whatever the channel, and the record is then
      parsed from that buffer; the check failing also gives false. */
  method LoadSubscriptionFromFlash(sub: Subscription, mem: seq<byte>, addressOk: bool, channelPos: nat,
                                   moduli: seq<byte>, privates: seq<byte>)
    returns (r: Option<bool>)
    requires sub.Valid()
    modifies sub, sub.forwardPos, sub.backwardPos
    ensures r == Some(false) && unchanged(sub) && unchanged(sub.forwardPos, sub.backwardPos)
  {
    if !addressOk {
      return Some(false);
    }
    var cache := ReadBytes(mem, SubLoc, Zeros(2048), SubSize);
    FlashRecordAsWritten(mem, channelPos);
    r := LoadSubscription(sub, cache, channelPos, moduli, privates);
  }

  /** `load_subscription` with the evidently intended read: the channel's
      own record, into a buffer large enough for it; it is accepted
      exactly when the record's byte 20 is initialised. */
  method LoadSubscriptionCorrected(sub: Subscription, mem: seq<byte>, addressOk: bool, channelPos: nat,
                                   moduli: seq<byte>, privates: seq<byte>)
    returns (r: Option<bool>)
    requires sub.Valid()
    modifies sub, sub.forwardPos, sub.backwardPos
    ensures sub.Valid()
    ensures var a := SubLoc + channelPos * SubSize;
      addressOk && a + 2336 <= |mem| ==> (r == Some(false) <==> mem[a + 20] == 0 || mem[a + 20] == 0xFF)
    ensures var a := SubLoc + channelPos * SubSize;
      addressOk && a + 2336 <= |mem| && r == Some(true) ==>
        sub.channel == FromBE(mem[a .. a + 4]) && sub.start == FromBE(mem[a + 4 .. a + 12])
        && sub.end == FromBE(mem[a + 12 .. a + 20]) && sub.location == channelPos * SubSize
  {
    if !addressOk {
      return Some(false);
    }
    var cache := FlashRecordCorrected(mem, channelPos);
    ghost var a := SubLoc + channelPos * SubSize;
    if a + 2336 <= |mem| {
      FlashRecordCorrectedReads(mem, channelPos);
      assert cache == mem[a .. a + 2336];
      assert cache[0..4] == mem[a .. a + 4];
      assert cache[4..12] == mem[a + 4 .. a + 12];
      assert cache[12..20] == mem[a + 12 .. a + 20];
    }
    r := LoadSubscription(sub, cache, channelPos, moduli, privates);
  }

  /** The evidently intended flash load: the channel's own record, read
      into a buffer of SUB_SIZE rounded up to whole 16-byte lines, holds
      the record's bytes, so it is accepted exactly when its byte 20 is
      initialised. */
  function FlashRecordCorrected(mem: seq<byte>, channelPos: nat): (buf: seq<byte>)
    ensures |buf| == 2336
  {
    ReadBytes(mem, SubLoc + channelPos * SubSize, Zeros(2336), 2336)
  }

  lemma {:induction false} FlashRecordCorrectedReads(mem: seq<byte>, channelPos: nat)
    requires SubLoc + channelPos * SubSize + 2336 <= |mem|
    ensures var a := SubLoc + channelPos * SubSize;
      && FlashRecordCorrected(mem, channelPos) == mem[a .. a + 2336]
      && (Accepted(FlashRecordCorrected(mem, channelPos)) <==> mem[a + 20] != 0 && mem[a + 20] != 0xFF)
  {
    var a := SubLoc + channelPos * SubSize;
    ReadBytesReadable(mem, a, Zeros(2336), 2336);
    assert FlashRecordCorrected(mem, channelPos) == mem[a .. a + 2336];
  }
}
