/** The 48-byte NTP header (RFC 5905 section 7.3) and its codec, the 32.32
    timestamp and 16.16 short formats (RFC 5905 section 6), the delay and
    offset of one exchange (RFC 2030 section 5), and the two revisions of the
    response-validity check.

    Times are `real` seconds since the Unix epoch; the wire counts seconds
    since 1900, and the two differ by `EpochDelta`. Floating-point rounding
    of the source's `Double` arithmetic is not modelled. */
module NtpPacket {
  import opened Wrappers
  import opened Bytes
  import opened NtpProtocol

  /** Seconds from 1900-01-01 (NTP era 0) to 1970-01-01 (Unix epoch). */
  const EpochDelta: int := 2208988800
  /** Largest tolerated gap between the client-observed elapsed time and the delay. */
  const MaximumDelayDifference: real := 0.1
  /** Largest tolerated root dispersion, in seconds. */
  const MaximumDispersion: real := 100.0
  const Two32: int := 0x1_0000_0000
  const Two16: int := 0x1_0000
  /** Length of the NTP header without extension fields or authenticator. */
  const HeaderLength: int := 48

  datatype Packet = Packet(
    leap: LeapIndicator,
    version: int8,
    mode: Mode,
    stratum: Stratum,
    poll: int8,
    precision: int8,
    rootDelay: real,
    rootDispersion: real,
    clockSource: ClockSource,
    referenceTime: real,
    originTime: real,
    receiveTime: real,
    transmitTime: real,
    destinationTime: real)

  /** `NTPPacket(version:mode:)`: the fields of an outgoing request. The
      1900 epoch (`-EpochDelta`) marks the times the client does not know. */
  function DefaultPacket(version: int8, mode: Mode): Packet {
    Packet(
      leap := NoWarning, version := version, mode := mode, stratum := Unspecified,
      poll := 4, precision := -6, rootDelay := 1.0, rootDispersion := 1.0,
      clockSource := ReferenceIdentifier(0),
      referenceTime := -EpochDelta as real, originTime := -EpochDelta as real,
      receiveTime := -EpochDelta as real, transmitTime := 0.0, destinationTime := -1.0)
  }

  /** `NTPPacket()`: version 3, client mode. */
  function ClientRequest(): Packet {
    DefaultPacket(3, Client)
  }

  // ---------------------------------------------------------------------
  // Truncation toward zero, as Swift's `UInt32(_:)`, `UInt16(_:)` and `modf` do it.

  /** The integer part of `x`, rounded toward zero. */
  function Trunc(x: real): (n: int)
    ensures 0.0 <= x ==> 0 <= n && n as real <= x < n as real + 1.0
    ensures x < 0.0 ==> n <= 0 && n as real - 1.0 < x <= n as real
  {
    if 0.0 <= x then x.Floor else -((-x).Floor)
  }

  /** `modf(x).1`: the fractional part of `x`, with the sign of `x`. */
  function Frac(x: real): (f: real)
    ensures -1.0 < f < 1.0
    ensures 0.0 <= x ==> 0.0 <= f
    ensures x <= 0.0 ==> f <= 0.0
    ensures (x - f).Floor as real == x - f
  {
    x - Trunc(x) as real
  }

  // ---------------------------------------------------------------------
  // Timestamp format (32.32, seconds since 1900) and short format (16.16).

  /** The domain on which `dateToNTPFormat` does not trap: `UInt32(t + EpochDelta)`
      needs `-1 < t + EpochDelta < 2^32`, and `UInt64(modf(t).1 * 2^32)`
      needs the scaled fraction above -1, which a negative non-integral time fails. */
  predicate DateEncodable(t: real) {
    && -1.0 < t + EpochDelta as real < Two32 as real
    && (0.0 <= t || Frac(t) * Two32 as real > -1.0)
  }

  /** `dateToNTPFormat`: integer seconds since 1900 in the high word, the
      fraction of `t` scaled by 2^32 in the low word. */
  function DateToWire(t: real): (w: uint64)
    requires DateEncodable(t)
    ensures w / Two32 == Trunc(t + EpochDelta as real)
    ensures w % Two32 == Trunc(Frac(t) * Two32 as real)
  {
    var seconds := Trunc(t + EpochDelta as real);
    var fraction := Trunc(Frac(t) * Two32 as real);
    SplitWord(seconds, fraction, Two32);
    seconds * Two32 + fraction
  }

  /** `dateFromNTPFormat`: `hi32 - EpochDelta + lo32 / 2^32`. */
  function DateFromWire(w: uint64): (t: real)
    ensures -EpochDelta as real <= t < (Two32 - EpochDelta) as real
  {
    (w / Two32 - EpochDelta) as real + (w % Two32) as real / Two32 as real
  }

  /** The domain on which `intervalToNTPFormat` does not trap: `UInt16(x)`
      needs `-1 < x < 65536` and `UInt32(modf(x).1 * 2^16)` needs the scaled
      fraction above -1. */
  predicate IntervalEncodable(x: real) {
    -1.0 < x * Two16 as real && x < Two16 as real
  }

  /** `intervalToNTPFormat`: integer seconds in the high half, the fraction
      scaled by 2^16 in the low half. */
  function IntervalToWire(x: real): (w: uint32)
    requires IntervalEncodable(x)
    ensures w / Two16 == Trunc(x)
    ensures w % Two16 == Trunc(Frac(x) * Two16 as real)
  {
    var seconds := Trunc(x);
    var fraction := Trunc(Frac(x) * Two16 as real);
    SplitWord(seconds, fraction, Two16);
    seconds * Two16 + fraction
  }

  /** `intervalFromNTPFormat`: `hi16 + lo16 / 2^16`. */
  function IntervalFromWire(w: uint32): (x: real)
    ensures 0.0 <= x < Two16 as real
  {
    (w / Two16) as real + (w % Two16) as real / Two16 as real
  }

  lemma SplitWord(high: int, low: int, scale: int)
    requires scale == Two32 || scale == Two16
    requires 0 <= low < scale
    ensures (high * scale + low) / scale == high
    ensures (high * scale + low) % scale == low
  {
  }

  /** `t` with its fraction truncated to a multiple of `1 / scale`. */
  function Quantize(t: real, scale: nat): real
    requires scale > 0
  {
    (t - Frac(t)) + (Frac(t) * scale as real).Floor as real / scale as real
  }

  /** Encoding a time and decoding it again keeps the whole seconds and
      truncates the fraction to 2^-32 s. */
  lemma DateRoundTrip(t: real)
    requires DateEncodable(t)
    requires 0.0 <= t || Frac(t) == 0.0
    ensures DateFromWire(DateToWire(t)) == Quantize(t, Two32)
  {
    var w := DateToWire(t);
    var hi, lo := w / Two32, w % Two32;
    var f := Frac(t);
    assert hi == Trunc(t + EpochDelta as real) == Trunc(t) + EpochDelta by {
      if 0.0 <= t {
        assert Trunc(t) == t.Floor;
      } else {
        assert t == Trunc(t) as real;
      }
    }
    assert lo == (f * Two32 as real).Floor by {
      assert 0.0 <= f;
    }
    calc {
      DateFromWire(w);
      (hi - EpochDelta) as real + lo as real / Two32 as real;
      Trunc(t) as real + lo as real / Two32 as real;
      (t - f) + (f * Two32 as real).Floor as real / Two32 as real;
    }
  }

  /** Decoding a 1970-or-later wire timestamp and encoding it again gives
      back the same 64 bits. */
  lemma WireDateRoundTrip(w: uint64)
    requires w / Two32 >= EpochDelta
    ensures DateEncodable(DateFromWire(w))
    ensures DateToWire(DateFromWire(w)) == w
  {
    var hi, lo := w / Two32, w % Two32;
    var t := DateFromWire(w);
    var f := lo as real / Two32 as real;
    assert 0.0 <= f < 1.0;
    assert Trunc(t) == hi - EpochDelta;
    assert Frac(t) == f;
    assert Trunc(t + EpochDelta as real) == hi;
    assert Trunc(f * Two32 as real) == lo;
  }

  /** Encoding a non-negative interval and decoding it again keeps the whole
      seconds and truncates the fraction to 2^-16 s. */
  lemma IntervalRoundTrip(x: real)
    requires IntervalEncodable(x) && 0.0 <= x
    ensures IntervalFromWire(IntervalToWire(x)) == Quantize(x, Two16)
  {
  }

  /** Every 16.16 wire value decodes to an encodable interval that encodes back to it. */
  lemma WireIntervalRoundTrip(w: uint32)
    ensures IntervalEncodable(IntervalFromWire(w))
    ensures IntervalToWire(IntervalFromWire(w)) == w
  {
    var hi, lo := w / Two16, w % Two16;
    var f := lo as real / Two16 as real;
    var x := IntervalFromWire(w);
    assert 0.0 <= f < 1.0;
    assert Trunc(x) == hi;
    assert Frac(x) == f;
    assert Trunc(f * Two16 as real) == lo;
  }

  // ---------------------------------------------------------------------
  // Byte 0: leap indicator (bits 7-6), version (bits 5-3), mode (bits 2-0).

  /** Bitwise or of two 2-bit values. */
  function Or2(a: int, b: int): (r: int)
    requires 0 <= a < 4 && 0 <= b < 4
    ensures 0 <= r < 4
    ensures a == 0 ==> r == b
    ensures b == 0 ==> r == a
  {
    if a == b then a else if a == 0 then b else if b == 0 then a else 3
  }

  /** `leap.rawValue << 6 | version << 3 | mode.rawValue` on `Int8`. With
      `u` the version's bit pattern, `u << 3` keeps the low five bits of `u`
      in bits 7-3, so bits 5-3 hold `u % 8` and the bits `(u / 8) % 4` of a
      version above 7 are or-ed into the leap bits. */
  function HeaderByte(leap: LeapIndicator, version: int8, mode: Mode): (b: int8)
    ensures ToUnsigned(b) % 8 == ModeRaw(mode)
    ensures (ToUnsigned(b) / 8) % 8 == ToUnsigned(version) % 8
    ensures 0 <= version < 8 ==> ToUnsigned(b) / 64 == LeapRaw(leap)
  {
    var u := ToUnsigned(version);
    ToSigned(Or2(LeapRaw(leap), (u / 8) % 4) * 64 + (u % 8) * 8 + ModeRaw(mode))
  }

  /** `(getByte(0) >> 6) & 0b11`: an arithmetic shift of the signed byte
      then a mask, which is floor division then a non-negative remainder. */
  function LeapBits(s: int8): int {
    (s / 64) % 4
  }

  /** `getByte(0) >> 3 & 0b111`. */
  function VersionBits(s: int8): int8 {
    (s / 8) % 8
  }

  /** `getByte(0) & 0b111`. */
  function ModeBits(s: int8): int {
    s % 8
  }

  /** The signed shifts and masks pick out the same bits as reading the byte unsigned. */
  lemma SignedFieldsAreUnsignedBits(b: uint8)
    ensures LeapBits(ToSigned(b)) == b / 64
    ensures VersionBits(ToSigned(b)) == (b / 8) % 8
    ensures ModeBits(ToSigned(b)) == b % 8
  {
    if b >= 0x80 {
      var s := ToSigned(b);
      assert s == b - 256;
      assert s / 64 == b / 64 - 4;
      assert s / 8 == b / 8 - 32;
    }
  }

  // ---------------------------------------------------------------------
  // Decoding (`init(data:destinationTime:)`).

  datatype ParseError = InvalidNTPPDU(length: nat)

  /** The 16.16 short value stored big-endian at `i`, read byte by byte. */
  function WireShort(d: seq<uint8>, i: nat): real
    requires i + 4 <= |d|
  {
    ((d[i] as int) * 256 + d[i + 1]) as real + ((d[i + 2] as int) * 256 + d[i + 3]) as real / Two16 as real
  }

  /** The 32-bit word stored big-endian at `i`, read byte by byte. */
  function WireWord(d: seq<uint8>, i: nat): nat
    requires i + 4 <= |d|
  {
    (d[i] as int) * 0x100_0000 + (d[i + 1] as int) * 0x1_0000 + (d[i + 2] as int) * 0x100 + d[i + 3]
  }

  /** The 32.32 timestamp stored big-endian at `i`, as Unix-epoch seconds. */
  function WireTimestamp(d: seq<uint8>, i: nat): real
    requires i + 8 <= |d|
  {
    (WireWord(d, i) - EpochDelta) as real + WireWord(d, i + 4) as real / Two32 as real
  }

  /** `NTPPacket(data:destinationTime:)`: throws exactly when the buffer is
      shorter than 48 bytes, ignores bytes beyond 48, and otherwise reads
      every field at its fixed big-endian offset. */
  function Decode(data: seq<uint8>, destinationTime: real): (r: Result<Packet, ParseError>)
    ensures r.Failure? <==> |data| < HeaderLength
    ensures r.Failure? ==> r.error == InvalidNTPPDU(|data|)
    ensures r.Success? ==>
      && LeapRaw(r.value.leap) == data[0] / 64
      && r.value.version == (data[0] / 8) % 8
      && ModeRaw(r.value.mode) == data[0] % 8
      && (r.value.stratum == Unspecified <==> data[1] == 0)
      && (r.value.stratum == Primary <==> data[1] == 1)
      && (r.value.stratum == Secondary <==> 2 <= data[1] <= 14)
      && (r.value.stratum == Invalid <==> 15 <= data[1])
      && ToUnsigned(r.value.poll) == data[2]
      && ToUnsigned(r.value.precision) == data[3]
    ensures r.Success? ==>
      && r.value.rootDelay == WireShort(data, 4)
      && r.value.rootDispersion == WireShort(data, 8)
      && r.value.clockSource == ClockSourceFor(r.value.stratum, WireWord(data, 12))
      && r.value.referenceTime == WireTimestamp(data, 16)
      && r.value.originTime == WireTimestamp(data, 24)
      && r.value.receiveTime == WireTimestamp(data, 32)
      && r.value.transmitTime == WireTimestamp(data, 40)
      && r.value.destinationTime == destinationTime
  {
    if |data| < HeaderLength then Failure(InvalidNTPPDU(|data|))
    else
      var p := DecodeFields(data, destinationTime);
      DecodeFieldsProof(data, p);
      Success(p)
  }

  /** The field reads of `init(data:destinationTime:)` once the length check has passed. */
  function DecodeFields(data: seq<uint8>, destinationTime: real): Packet
    requires |data| >= HeaderLength
  {
    var b0 := GetByte(data, 0);
    var stratum := StratumFromValue(GetByte(data, 1));
    Packet(
      leap := LeapFromRaw(LeapBits(b0)).GetOr(NoWarning),
      version := VersionBits(b0),
      mode := ModeFromRaw(ModeBits(b0)).GetOr(Unknown),
      stratum := stratum,
      poll := GetByte(data, 2),
      precision := GetByte(data, 3),
      rootDelay := IntervalFromWire(GetUnsignedInteger(data, 4, true)),
      rootDispersion := IntervalFromWire(GetUnsignedInteger(data, 8, true)),
      clockSource := ClockSourceFor(stratum, GetUnsignedInteger(data, 12, true)),
      referenceTime := DateFromWire(GetUnsignedLong(data, 16, true)),
      originTime := DateFromWire(GetUnsignedLong(data, 24, true)),
      receiveTime := DateFromWire(GetUnsignedLong(data, 32, true)),
      transmitTime := DateFromWire(GetUnsignedLong(data, 40, true)),
      destinationTime := destinationTime)
  }

  lemma DecodeFieldsProof(data: seq<uint8>, p: Packet)
    requires |data| >= HeaderLength
    requires p.leap == LeapFromRaw(LeapBits(GetByte(data, 0))).GetOr(NoWarning)
    requires p.version == VersionBits(GetByte(data, 0))
    requires p.mode == ModeFromRaw(ModeBits(GetByte(data, 0))).GetOr(Unknown)
    requires p.stratum == StratumFromValue(GetByte(data, 1))
    requires p.rootDelay == IntervalFromWire(GetUnsignedInteger(data, 4, true))
    requires p.rootDispersion == IntervalFromWire(GetUnsignedInteger(data, 8, true))
    requires p.referenceTime == DateFromWire(GetUnsignedLong(data, 16, true))
    requires p.originTime == DateFromWire(GetUnsignedLong(data, 24, true))
    requires p.receiveTime == DateFromWire(GetUnsignedLong(data, 32, true))
    requires p.transmitTime == DateFromWire(GetUnsignedLong(data, 40, true))
    ensures LeapRaw(p.leap) == data[0] / 64
    ensures p.version == (data[0] / 8) % 8
    ensures ModeRaw(p.mode) == data[0] % 8
    ensures p.stratum == Invalid <==> 15 <= data[1]
    ensures p.stratum == Secondary <==> 2 <= data[1] <= 14
    ensures p.rootDelay == WireShort(data, 4)
    ensures p.rootDispersion == WireShort(data, 8)
    ensures p.referenceTime == WireTimestamp(data, 16)
    ensures p.originTime == WireTimestamp(data, 24)
    ensures p.receiveTime == WireTimestamp(data, 32)
    ensures p.transmitTime == WireTimestamp(data, 40)
  {
    SignedFieldsAreUnsignedBits(data[0]);
    ShortFromWord(data, 4);
    ShortFromWord(data, 8);
    TimestampFromLong(data, 16);
    TimestampFromLong(data, 24);
    TimestampFromLong(data, 32);
    TimestampFromLong(data, 40);
  }

  lemma ShortFromWord(d: seq<uint8>, i: nat)
    requires i + 4 <= |d|
    ensures IntervalFromWire(GetUnsignedInteger(d, i, true)) == WireShort(d, i)
  {
    var w := GetUnsignedInteger(d, i, true);
    var hi, lo := (d[i] as int) * 256 + d[i + 1], (d[i + 2] as int) * 256 + d[i + 3];
    assert w == hi * Two16 + lo;
    SplitWord(hi, lo, Two16);
  }

  lemma TimestampFromLong(d: seq<uint8>, i: nat)
    requires i + 8 <= |d|
    ensures DateFromWire(GetUnsignedLong(d, i, true)) == WireTimestamp(d, i)
  {
    var w := GetUnsignedLong(d, i, true);
    var hi, lo := GetUnsignedInteger(d, i, true), GetUnsignedInteger(d, i + 4, true);
    assert hi == WireWord(d, i) && lo == WireWord(d, i + 4);
    SplitWord(hi, lo, Two32);
  }

  /** Only the first 48 bytes matter: trailing bytes never change the packet. */
  lemma DecodeIgnoresTrailingBytes(data: seq<uint8>, destinationTime: real)
    requires |data| >= HeaderLength
    ensures Decode(data, destinationTime) == Decode(data[..HeaderLength], destinationTime)
  {
    var head, tail := data[..HeaderLength], data[HeaderLength..];
    assert data == head + tail;
    ReadsIgnoreSuffix(head, tail, 0);
    ReadsIgnoreSuffix(head, tail, 1);
    ReadsIgnoreSuffix(head, tail, 2);
    ReadsIgnoreSuffix(head, tail, 3);
    ReadsIgnoreSuffix(head, tail, 4);
    ReadsIgnoreSuffix(head, tail, 8);
    ReadsIgnoreSuffix(head, tail, 12);
    ReadsIgnoreSuffix(head, tail, 16);
    ReadsIgnoreSuffix(head, tail, 24);
    ReadsIgnoreSuffix(head, tail, 32);
    ReadsIgnoreSuffix(head, tail, 40);
  }

  // ---------------------------------------------------------------------
  // Encoding (`prepareToSend(transmitTime:)`).

  /** The inputs on which `prepareToSend` does not trap: both intervals in
      the short format's range, and all four timestamps in era 0. */
  predicate Encodable(p: Packet, transmitTime: real) {
    && IntervalEncodable(p.rootDelay)
    && IntervalEncodable(p.rootDispersion)
    && DateEncodable(p.referenceTime)
    && DateEncodable(p.originTime)
    && DateEncodable(p.receiveTime)
    && DateEncodable(transmitTime)
  }

  /** The packet after `prepareToSend` (its transmit time is now set) and the bytes it produced. */
  datatype Prepared = Prepared(packet: Packet, data: seq<uint8>)

  /** `prepareToSend(transmitTime:)`: fixes the transmit time (the given one,
      or the clock reading `now` when none is given) and writes the 48-byte
      header, field after field, most significant byte first. */
  function PrepareToSend(p: Packet, transmitTime: Option<real>, now: real): (r: Prepared)
    requires Encodable(p, transmitTime.GetOr(now))
    ensures r.packet == p.(transmitTime := transmitTime.GetOr(now))
    ensures |r.data| == HeaderLength
    ensures GetByte(r.data, 0) == HeaderByte(p.leap, p.version, p.mode)
    ensures GetByte(r.data, 1) == StratumRaw(p.stratum)
    ensures GetByte(r.data, 2) == p.poll && GetByte(r.data, 3) == p.precision
    ensures GetUnsignedInteger(r.data, 4, true) == IntervalToWire(p.rootDelay)
    ensures GetUnsignedInteger(r.data, 8, true) == IntervalToWire(p.rootDispersion)
    ensures GetUnsignedInteger(r.data, 12, true) == ClockSourceId(p.clockSource)
    ensures GetUnsignedLong(r.data, 16, true) == DateToWire(p.referenceTime)
    ensures GetUnsignedLong(r.data, 24, true) == DateToWire(p.originTime)
    ensures GetUnsignedLong(r.data, 32, true) == DateToWire(p.receiveTime)
    ensures GetUnsignedLong(r.data, 40, true) == DateToWire(r.packet.transmitTime)
  {
    var sent := p.(transmitTime := transmitTime.GetOr(now));
    var d16 := PrepareFixedFields(p);
    var d48 := AppendTimestamps(d16, p.referenceTime, p.originTime, p.receiveTime, sent.transmitTime);
    FixedFieldsOfPrefix(d16, d48, p);
    Prepared(sent, d48)
  }

  /** The last 32 bytes `prepareToSend` writes: the four timestamps. */
  function AppendTimestamps(d: seq<uint8>, reference: real, origin: real, receive: real, transmit: real): (r: seq<uint8>)
    requires |d| == 16
    requires DateEncodable(reference) && DateEncodable(origin) && DateEncodable(receive) && DateEncodable(transmit)
    ensures |r| == HeaderLength && r[..16] == d
    ensures GetUnsignedLong(r, 16, true) == DateToWire(reference)
    ensures GetUnsignedLong(r, 24, true) == DateToWire(origin)
    ensures GetUnsignedLong(r, 32, true) == DateToWire(receive)
    ensures GetUnsignedLong(r, 40, true) == DateToWire(transmit)
  {
    var d32 := AppendTwoLongs(d, DateToWire(reference), DateToWire(origin));
    var d48 := AppendTwoLongs(d32, DateToWire(receive), DateToWire(transmit));
    PrefixOfPrefix(d, d32, d48);
    ReadsOfPrefix(d32, d48, 16);
    ReadsOfPrefix(d32, d48, 24);
    d48
  }

  /** Two `append(unsignedLong:)` calls in a row. */
  function AppendTwoLongs(d: seq<uint8>, x: uint64, y: uint64): (r: seq<uint8>)
    ensures |r| == |d| + 16 && r[..|d|] == d
    ensures GetUnsignedLong(r, |d|, true) == x
    ensures GetUnsignedLong(r, |d| + 8, true) == y
  {
    var d8 := AppendUnsignedLong(d, x, true);
    var d16 := AppendUnsignedLong(d8, y, true);
    assert d16[..|d|] == d by {
      PrefixOfPrefix(d, d8, d16);
    }
    assert GetUnsignedLong(d16, |d|, true) == x by {
      ReadsOfPrefix(d8, d16, |d|);
    }
    assert |d8| == |d| + 8 && GetUnsignedLong(d16, |d8|, true) == y;
    d16
  }

  /** The first 16 bytes `prepareToSend` writes: byte 0, stratum, poll,
      precision, root delay, root dispersion and reference identifier. */
  function PrepareFixedFields(p: Packet): (d: seq<uint8>)
    requires IntervalEncodable(p.rootDelay) && IntervalEncodable(p.rootDispersion)
    ensures |d| == 16
    ensures FixedFieldsAt(d, p)
  {
    var d1 := AppendByte([], HeaderByte(p.leap, p.version, p.mode));
    var d2 := AppendByte(d1, StratumRaw(p.stratum));
    var d3 := AppendByte(d2, p.poll);
    var d4 := AppendByte(d3, p.precision);
    var d8 := AppendUnsignedInteger(d4, IntervalToWire(p.rootDelay), true);
    var d12 := AppendUnsignedInteger(d8, IntervalToWire(p.rootDispersion), true);
    var d16 := AppendUnsignedInteger(d12, ClockSourceId(p.clockSource), true);
    PrefixOfPrefix(d8, d12, d16);
    PrefixOfPrefix(d4, d8, d16);
    PrefixOfPrefix(d3, d4, d16);
    PrefixOfPrefix(d2, d3, d16);
    PrefixOfPrefix(d1, d2, d16);
    ReadsOfPrefix(d1, d16, 0);
    ReadsOfPrefix(d2, d16, 1);
    ReadsOfPrefix(d3, d16, 2);
    ReadsOfPrefix(d4, d16, 3);
    ReadsOfPrefix(d8, d16, 4);
    ReadsOfPrefix(d12, d16, 8);
    d16
  }

  /** The layout of the first 16 bytes of the header of `p`. */
  predicate FixedFieldsAt(d: seq<uint8>, p: Packet)
    requires 16 <= |d| && IntervalEncodable(p.rootDelay) && IntervalEncodable(p.rootDispersion)
  {
    && GetByte(d, 0) == HeaderByte(p.leap, p.version, p.mode)
    && GetByte(d, 1) == StratumRaw(p.stratum)
    && GetByte(d, 2) == p.poll && GetByte(d, 3) == p.precision
    && GetUnsignedInteger(d, 4, true) == IntervalToWire(p.rootDelay)
    && GetUnsignedInteger(d, 8, true) == IntervalToWire(p.rootDispersion)
    && GetUnsignedInteger(d, 12, true) == ClockSourceId(p.clockSource)
  }

  lemma FixedFieldsOfPrefix(d: seq<uint8>, full: seq<uint8>, p: Packet)
    requires 16 == |d| <= |full| && full[..|d|] == d
    requires IntervalEncodable(p.rootDelay) && IntervalEncodable(p.rootDispersion)
    requires FixedFieldsAt(d, p)
    ensures FixedFieldsAt(full, p)
  {
    ReadsOfPrefix(d, full, 0);
    ReadsOfPrefix(d, full, 1);
    ReadsOfPrefix(d, full, 2);
    ReadsOfPrefix(d, full, 3);
    ReadsOfPrefix(d, full, 4);
    ReadsOfPrefix(d, full, 8);
    ReadsOfPrefix(d, full, 12);
  }

  lemma PrefixOfPrefix(a: seq<uint8>, b: seq<uint8>, c: seq<uint8>)
    requires |a| <= |b| <= |c| && b[..|a|] == a && c[..|b|] == b
    ensures c[..|a|] == a
  {
    assert c[..|a|] == c[..|b|][..|a|];
  }

  /** A read inside a prefix sees the same bytes in the whole buffer. */
  lemma ReadsOfPrefix(d: seq<uint8>, full: seq<uint8>, i: nat)
    requires |d| <= |full| && full[..|d|] == d
    ensures i < |d| ==> GetByte(full, i) == GetByte(d, i)
    ensures i + 4 <= |d| ==> GetUnsignedInteger(full, i, true) == GetUnsignedInteger(d, i, true)
    ensures i + 8 <= |d| ==> GetUnsignedLong(full, i, true) == GetUnsignedLong(d, i, true)
  {
    assert full == d + full[|d|..];
    ReadsIgnoreSuffix(d, full[|d|..], i);
  }

  /** What decoding makes of an encoded packet: the wire keeps the mode, the
      leap indicator, poll and precision; the stratum comes back as the class
      of its raw value; the clock source is rebuilt from the stratum and the
      identifier; times and intervals lose their fraction below 2^-32 s and
      2^-16 s; and the destination time is the receiver's. */
  function WireImage(p: Packet, destinationTime: real): (q: Packet) {
    var stratum := StratumFromValue(StratumRaw(p.stratum));
    p.(stratum := stratum,
       rootDelay := Quantize(p.rootDelay, Two16),
       rootDispersion := Quantize(p.rootDispersion, Two16),
       clockSource := ClockSourceFor(stratum, ClockSourceId(p.clockSource)),
       referenceTime := Quantize(p.referenceTime, Two32),
       originTime := Quantize(p.originTime, Two32),
       receiveTime := Quantize(p.receiveTime, Two32),
       transmitTime := Quantize(p.transmitTime, Two32),
       destinationTime := destinationTime)
  }

  /** A time the timestamp format carries without losing whole seconds:
      at or after 1970, or an integral number of seconds before it. */
  predicate DateRepresentable(t: real) {
    DateEncodable(t) && (0.0 <= t || Frac(t) == 0.0)
  }

  /** The packets whose header the decoder reads back field for field, up
      to `WireImage`: a 3-bit version, non-negative intervals, and times at
      or after 1970 or integral. */
  predicate WireConsistent(p: Packet) {
    && 0 <= p.version < 8
    && IntervalEncodable(p.rootDelay) && 0.0 <= p.rootDelay
    && IntervalEncodable(p.rootDispersion) && 0.0 <= p.rootDispersion
    && DateRepresentable(p.referenceTime)
    && DateRepresentable(p.originTime)
    && DateRepresentable(p.receiveTime)
    && DateRepresentable(p.transmitTime)
  }

  /** The decoder's shifts and masks undo `HeaderByte` when the version fits in three bits. */
  lemma HeaderByteRoundTrip(leap: LeapIndicator, version: int8, mode: Mode)
    requires 0 <= version < 8
    ensures LeapFromRaw(LeapBits(HeaderByte(leap, version, mode))) == Some(leap)
    ensures VersionBits(HeaderByte(leap, version, mode)) == version
    ensures ModeFromRaw(ModeBits(HeaderByte(leap, version, mode))) == Some(mode)
  {
    var b := HeaderByte(leap, version, mode);
    assert b == ToSigned(ToUnsigned(b));
    SignedFieldsAreUnsignedBits(ToUnsigned(b));
    RawValuesRoundTrip(leap, mode);
  }

  /** Encoding then decoding gives back the packet up to `WireImage`. */
  lemma PrepareThenDecode(p: Packet, transmitTime: Option<real>, now: real, destinationTime: real)
    requires WireConsistent(p.(transmitTime := transmitTime.GetOr(now)))
    ensures Decode(PrepareToSend(p, transmitTime, now).data, destinationTime)
      == Success(WireImage(PrepareToSend(p, transmitTime, now).packet, destinationTime))
  {
    var r := PrepareToSend(p, transmitTime, now);
    var q := r.packet;
    var d, w := DecodeFields(r.data, destinationTime), WireImage(q, destinationTime);
    assert d.leap == w.leap && d.version == w.version && d.mode == w.mode by {
      HeaderByteRoundTrip(p.leap, p.version, p.mode);
    }
    assert d.stratum == w.stratum && d.clockSource == w.clockSource;
    assert d.poll == w.poll && d.precision == w.precision;
    assert d.rootDelay == w.rootDelay by { IntervalRoundTrip(q.rootDelay); }
    assert d.rootDispersion == w.rootDispersion by { IntervalRoundTrip(q.rootDispersion); }
    assert d.referenceTime == w.referenceTime by { DateRoundTrip(q.referenceTime); }
    assert d.originTime == w.originTime by { DateRoundTrip(q.originTime); }
    assert d.receiveTime == w.receiveTime by { DateRoundTrip(q.receiveTime); }
    assert d.transmitTime == w.transmitTime by { DateRoundTrip(q.transmitTime); }
  }

  // ---------------------------------------------------------------------
  // Delay and offset of one exchange (RFC 2030 section 5, with the sign of
  // the delay corrected): T1 = origin, T2 = receive, T3 = transmit, T4 = destination.

  /** Round-trip delay `(T4 - T1) - (T3 - T2)`. */
  function Delay(p: Packet): real {
    (p.destinationTime - p.originTime) - (p.transmitTime - p.receiveTime)
  }

  /** Clock offset `((T2 - T1) + (T3 - T4)) / 2`. */
  function Offset(p: Packet): real {
    ((p.receiveTime - p.originTime) + (p.transmitTime - p.destinationTime)) / 2.0
  }

  /** An exchange in which the server clock runs `skew` seconds ahead of the
      client, the request travels `up` seconds, the server holds it `hold`
      seconds and the reply travels `down` seconds: the delay is the time
      spent on the network, and the offset is the skew, off by half the
      asymmetry of the two paths. */
  lemma OffsetRecoversSkew(p: Packet, skew: real, up: real, hold: real, down: real)
    requires p.receiveTime == p.originTime + up + skew
    requires p.transmitTime == p.receiveTime + hold
    requires p.destinationTime == p.transmitTime - skew + down
    ensures Delay(p) == up + down
    ensures Offset(p) == skew + (up - down) / 2.0
    ensures up == down ==> Offset(p) == skew
  {
  }

  /** Adding the offset to the arrival time gives the server's transmit
      time plus half the round trip, and the receive time less half of it. */
  lemma OffsetAgainstServerTimes(p: Packet)
    ensures p.destinationTime + Offset(p) == p.transmitTime + Delay(p) / 2.0
    ensures p.originTime + Offset(p) == p.receiveTime - Delay(p) / 2.0
  {
  }

  // ---------------------------------------------------------------------
  // The two revisions of the validity check.

  function Abs(x: real): (a: real)
    ensures 0.0 <= a && (a == x || a == -x)
  {
    if x < 0.0 then -x else x
  }

  /** The mode, leap and stratum conditions both revisions share: a reply
      from a server, without the alarm, from a synchronised clock. */
  predicate ServerReplyHeader(p: Packet) {
    && (p.mode == Server || p.mode == SymmetricPassive)
    && p.leap != Alarm
    && p.stratum != Invalid && p.stratum != Unspecified
  }

  /** `isValidResponse()`: the header conditions, a root dispersion under
      `MaximumDispersion`, and the client-observed elapsed time since the
      request (`now - originTime`) within `MaximumDelayDifference` of the delay. */
  predicate IsValidResponse(p: Packet, now: real) {
    && ServerReplyHeader(p)
    && p.rootDispersion < MaximumDispersion
    && Abs(now - p.originTime - Delay(p)) < MaximumDelayDifference
  }

  /** `isValidResponse(forVersion:)`: the header conditions, the requested
      version, and a positive delay. */
  predicate IsValidResponseForVersion(p: Packet, version: int8) {
    && p.version == version
    && ServerReplyHeader(p)
    && Delay(p) > 0.0
  }

  /** A valid reply comes from a primary or secondary server in server or
      symmetric-passive mode, never from one raising the alarm. */
  lemma ValidReplyComesFromServer(p: Packet, version: int8)
    requires IsValidResponseForVersion(p, version)
    ensures p.stratum == Primary || p.stratum == Secondary
    ensures p.mode in {Server, SymmetricPassive}
    ensures p.leap in {NoWarning, SixtyOneSeconds, FiftyNineSeconds}
  {
  }

  /** When `now` is the arrival time, the last condition of `isValidResponse()`
      says the server held the request for less than 0.1 s. */
  lemma ValidityBoundsHoldTime(p: Packet)
    ensures IsValidResponse(p, p.destinationTime) <==>
      ServerReplyHeader(p) && p.rootDispersion < MaximumDispersion
      && -MaximumDelayDifference < p.transmitTime - p.receiveTime < MaximumDelayDifference
  {
  }

  /** The check the client applies to a reply, stated on the bytes: the
      buffer holds a header, its version and mode bits name the requested
      version and a server, the leap bits are not the alarm, the stratum
      byte is 1 to 14, and the timestamps give a positive delay. */
  lemma ValidReplyOnTheWire(data: seq<uint8>, destinationTime: real, version: int8)
    ensures
      var r := Decode(data, destinationTime);
      r.Success? && IsValidResponseForVersion(r.value, version) <==>
        && |data| >= HeaderLength
        && (data[0] / 8) % 8 == version
        && (data[0] % 8 == 4 || data[0] % 8 == 2)
        && data[0] / 64 != 3
        && 1 <= data[1] <= 14
        && (destinationTime - WireTimestamp(data, 24)) - (WireTimestamp(data, 40) - WireTimestamp(data, 32)) > 0.0
  {
    var r := Decode(data, destinationTime);
    if r.Success? {
      var p := r.value;
      assert p.mode == Server <==> data[0] % 8 == 4 by {
        assert ModeRaw(Server) == 4;
      }
      assert p.mode == SymmetricPassive <==> data[0] % 8 == 2 by {
        assert ModeRaw(SymmetricPassive) == 2;
      }
      assert p.leap == Alarm <==> data[0] / 64 == 3 by {
        assert LeapRaw(Alarm) == 3;
      }
    }
  }

  /** A reply from a secondary server with the given version, dispersion and times. */
  function SampleReply(version: int8, dispersion: real, origin: real, receive: real, transmit: real, destination: real): Packet {
    Packet(
      leap := NoWarning, version := version, mode := Server, stratum := Secondary,
      poll := 4, precision := -6, rootDelay := 0.0, rootDispersion := dispersion,
      clockSource := ReferenceIdentifier(0), referenceTime := 0.0, originTime := origin,
      receiveTime := receive, transmitTime := transmit, destinationTime := destination)
  }

  /** The older revision ignores the root dispersion: a reply whose
      dispersion is 200 s passes it and fails the newer one. */
  lemma OlderRevisionIgnoresDispersion(p: Packet)
    requires p == SampleReply(3, 200.0, 0.0, 1.0, 1.0, 2.0)
    ensures IsValidResponseForVersion(p, 3)
    ensures !IsValidResponse(p, 2.0)
  {
    assert Delay(p) == 2.0;
  }

  /** The newer revision ignores the version and the sign of the delay: a
      version-4 reply with zero delay passes it and fails the older one. */
  lemma NewerRevisionIgnoresVersionAndDelay(q: Packet)
    requires q == SampleReply(4, 0.0, 0.0, 1.0, 1.0, 0.0)
    ensures IsValidResponse(q, 0.0)
    ensures !IsValidResponseForVersion(q, 3) && !IsValidResponseForVersion(q.(version := 3), 3)
  {
    assert IsValidResponse(q, 0.0) && Delay(q) == 0.0 by { ZeroDelayAccepted(q); }
    assert !IsValidResponseForVersion(q, 3) by { assert q.version == 4; }
    var older := q.(version := 3);
    assert Delay(older) == 0.0 by { assert Delay(older) == Delay(q); }
  }

  lemma ZeroDelayAccepted(q: Packet)
    requires ServerReplyHeader(q) && q.rootDispersion == 0.0
    requires q.originTime == 0.0 && q.destinationTime == 0.0 && q.receiveTime == q.transmitTime
    ensures Delay(q) == 0.0
    ensures IsValidResponse(q, 0.0)
  {
  }

  // ---------------------------------------------------------------------
  // Recorded exchanges.

  /** The header of a default client request sent at 1463303662.776552,
      four bytes at a time: `1b0004fa`, root delay and dispersion of one
      second, a zero reference identifier, the 1900 epoch in the three
      client-unknown timestamps, then the transmit time. The last four bytes
      are the exact fraction 0.776552 * 2^32; a `Double` holding the time
      keeps a coarser fraction and writes `c6cc1c00` there instead. */
  lemma ClientRequestBytes(t: real, now: real)
    requires t == 1463303662.776552
    ensures
      var d := PrepareToSend(ClientRequest(), Some(t), now).data;
      && d[0..4] == [0x1b, 0x00, 0x04, 0xfa]
      && d[4..8] == [0x00, 0x01, 0x00, 0x00] && d[8..12] == [0x00, 0x01, 0x00, 0x00]
      && d[12..16] == [0x00, 0x00, 0x00, 0x00]
      && d[16..20] == [0x00, 0x00, 0x00, 0x00] && d[20..24] == [0x00, 0x00, 0x00, 0x00]
      && d[24..28] == [0x00, 0x00, 0x00, 0x00] && d[28..32] == [0x00, 0x00, 0x00, 0x00]
      && d[32..36] == [0x00, 0x00, 0x00, 0x00] && d[36..40] == [0x00, 0x00, 0x00, 0x00]
      && d[40..44] == [0xda, 0xe2, 0xbc, 0x6e] && d[44..48] == [0xc6, 0xcc, 0x1c, 0xa3]
  {
    ClientRequestTimes(t);
    ClientRequestReads(t, now);
    RequestLayout(PrepareToSend(ClientRequest(), Some(t), now).data);
  }

  /** The fields of a default client request sent at `t`, as the decoder
      would read them. */
  lemma ClientRequestReads(t: real, now: real)
    requires DateEncodable(t)
    ensures
      var d := PrepareToSend(ClientRequest(), Some(t), now).data;
      && |d| == HeaderLength
      && d[0] == 0x1b && d[1] == 0x00 && d[2] == 0x04 && d[3] == 0xfa
      && GetUnsignedInteger(d, 4, true) == 0x1_0000 && GetUnsignedInteger(d, 8, true) == 0x1_0000
      && GetUnsignedInteger(d, 12, true) == 0
      && GetUnsignedLong(d, 16, true) == 0 && GetUnsignedLong(d, 24, true) == 0
      && GetUnsignedLong(d, 32, true) == 0
      && GetUnsignedLong(d, 40, true) == DateToWire(t)
  {
    var d := PrepareToSend(ClientRequest(), Some(t), now).data;
    EpochAndSecondWords();
    RequestHeaderByte();
    assert GetByte(d, 0) == 0x1b && GetByte(d, 1) == 0 && GetByte(d, 2) == 4 && GetByte(d, 3) == -6;
    assert ToUnsigned(GetByte(d, 0)) == d[0] && ToUnsigned(GetByte(d, 3)) == d[3];
  }

  /** Version 3 in client mode without a leap warning is the byte `1b`. */
  lemma RequestHeaderByte()
    ensures HeaderByte(NoWarning, 3, Client) == 0x1b
  {
  }

  /** The bytes of a header whose reads are those of the recorded request. */
  lemma RequestLayout(d: seq<uint8>)
    requires |d| == HeaderLength
    requires d[0] == 0x1b && d[1] == 0x00 && d[2] == 0x04 && d[3] == 0xfa
    requires GetUnsignedInteger(d, 4, true) == 0x1_0000 && GetUnsignedInteger(d, 8, true) == 0x1_0000
    requires GetUnsignedInteger(d, 12, true) == 0
    requires GetUnsignedLong(d, 16, true) == 0 && GetUnsignedLong(d, 24, true) == 0
    requires GetUnsignedLong(d, 32, true) == 0
    requires GetUnsignedLong(d, 40, true) == 0xdae2bc6e * Two32 + 0xc6cc1ca3
    ensures d[0..4] == [0x1b, 0x00, 0x04, 0xfa]
    ensures d[4..8] == [0x00, 0x01, 0x00, 0x00] && d[8..12] == [0x00, 0x01, 0x00, 0x00]
    ensures d[12..16] == [0x00, 0x00, 0x00, 0x00]
    ensures d[16..20] == [0x00, 0x00, 0x00, 0x00] && d[20..24] == [0x00, 0x00, 0x00, 0x00]
    ensures d[24..28] == [0x00, 0x00, 0x00, 0x00] && d[28..32] == [0x00, 0x00, 0x00, 0x00]
    ensures d[32..36] == [0x00, 0x00, 0x00, 0x00] && d[36..40] == [0x00, 0x00, 0x00, 0x00]
    ensures d[40..44] == [0xda, 0xe2, 0xbc, 0x6e] && d[44..48] == [0xc6, 0xcc, 0x1c, 0xa3]
  {
    WordConstants();
    WordBytesOfRead(d, 4);
    WordBytesOfRead(d, 8);
    WordBytesOfRead(d, 12);
    LongWords(d, 16, 0, 0);
    LongWords(d, 24, 0, 0);
    LongWords(d, 32, 0, 0);
    LongWords(d, 40, 0xdae2bc6e, 0xc6cc1ca3);
  }

  /** The two words of a timestamp field whose value is `high:low`. */
  lemma LongWords(d: seq<uint8>, i: nat, high: uint32, low: uint32)
    requires i + 8 <= |d|
    requires GetUnsignedLong(d, i, true) == high * Two32 + low
    ensures d[i..i + 4] == WordBytes(high, true) && d[i + 4..i + 8] == WordBytes(low, true)
  {
    DivideExactly(high, low, Two32);
    DivideExactly(GetUnsignedInteger(d, i, true), GetUnsignedInteger(d, i + 4, true), Two32);
    WordBytesOfRead(d, i);
    WordBytesOfRead(d, i + 4);
  }

  lemma WordConstants()
    ensures WordBytes(0x1_0000, true) == [0x00, 0x01, 0x00, 0x00]
    ensures WordBytes(0, true) == [0x00, 0x00, 0x00, 0x00]
    ensures WordBytes(0xdae2bc6e, true) == [0xda, 0xe2, 0xbc, 0x6e]
    ensures WordBytes(0xc6cc1ca3, true) == [0xc6, 0xcc, 0x1c, 0xa3]
  {
  }

  /** One second as an interval, and the 1900 epoch as a timestamp. */
  lemma EpochAndSecondWords()
    ensures IntervalToWire(1.0) == 0x1_0000
    ensures DateToWire(-EpochDelta as real) == 0
  {
    assert Trunc(1.0) == 1 && Frac(1.0) == 0.0;
    assert Trunc(-EpochDelta as real) == -EpochDelta && Frac(-EpochDelta as real) == 0.0;
  }

  lemma ClientRequestTimes(t: real)
    requires t == 1463303662.776552
    ensures DateEncodable(t)
    ensures DateToWire(t) == 0xdae2bc6e * Two32 + 0xc6cc1ca3
  {
    assert Trunc(t) == 1463303662 && Frac(t) == 0.776552;
    assert Trunc(t + EpochDelta as real) == 0xdae2bc6e;
    assert Trunc(0.776552 * Two32 as real) == 0xc6cc1ca3;
  }

  /** A recorded server reply. */
  const ServerReply: seq<uint8> :=
    [0x1c, 0x02, 0x03, 0xe9, 0x00, 0x00, 0x06, 0x57, 0x00, 0x00, 0x0a, 0x68, 0xad, 0xa2, 0xc0, 0x9c] +
    [0xda, 0xe2, 0xd0, 0x84, 0xa5, 0xa7, 0x6d, 0x5f, 0xda, 0xe2, 0xd3, 0x35, 0x4a, 0x52, 0x90, 0x00] +
    [0xda, 0xe2, 0xd3, 0x2b, 0xb3, 0x8b, 0xab, 0x46, 0xda, 0xe2, 0xd3, 0x2b, 0xb3, 0x8d, 0x9e, 0x00]

  /** The recorded reply decodes to version 3, no leap warning, server mode,
      secondary stratum, poll 3, precision -23, and the times it carries. */
  lemma ServerReplyFields(destinationTime: real)
    ensures Decode(ServerReply, destinationTime).Success?
    ensures
      var p := Decode(ServerReply, destinationTime).value;
      && p.version == 3 && p.leap == NoWarning && p.mode == Server
      && p.stratum == Secondary && p.poll == 3 && p.precision == -23
      && p.rootDelay == 0.0247650146484375
      && p.rootDispersion == 0.0406494140625
      && ClockSourceId(p.clockSource) == 2913124508
      && p.referenceTime == 1463308804.0 + 0xa5a76d5f as real / Two32 as real
      && p.originTime == 1463309493.0 + 0x4a529000 as real / Two32 as real
      && p.receiveTime == 1463309483.0 + 0xb38bab46 as real / Two32 as real
  {
    var data := ServerReply;
    var p := Decode(data, destinationTime).value;
    assert data[0] == 0x1c && data[1] == 0x02 && data[2] == 0x03 && data[3] == 0xe9;
    assert LeapRaw(p.leap) == 0 && ModeRaw(p.mode) == 4;
    assert ToUnsigned(p.poll) == 3 && ToUnsigned(p.precision) == 0xe9;
    assert p.rootDelay == WireShort(data, 4) == 0x0657 as real / Two16 as real;
    assert p.rootDispersion == WireShort(data, 8) == 0x0a68 as real / Two16 as real;
    assert WireWord(data, 12) == 0xada2c09c;
    assert WireWord(data, 16) == 0xdae2d084 && WireWord(data, 20) == 0xa5a76d5f;
    assert WireWord(data, 24) == 0xdae2d335 && WireWord(data, 28) == 0x4a529000;
    assert WireWord(data, 32) == 0xdae2d32b && WireWord(data, 36) == 0xb38bab46;
  }

  /** A buffer shorter than a header is rejected with its length. */
  lemma ShortBufferRejected()
    ensures Decode([0x0b, 0xad, 0xfa, 0xce], 0.0) == Failure(InvalidNTPPDU(4))
  {
  }
}
