/** The small enumerations of the NTP header (RFC 5905 section 7.3): the leap
    indicator, the association mode, the stratum classes and the clock
    source that the stratum gives meaning to. */
module NtpProtocol {
  import opened Wrappers
  import opened Bytes

  /** Warning of a leap second in the last minute of the current month. */
  datatype LeapIndicator = NoWarning | SixtyOneSeconds | FiftyNineSeconds | Alarm

  /** `LeapIndicator.rawValue`. */
  function LeapRaw(l: LeapIndicator): (r: int8)
    ensures 0 <= r < 4
  {
    match l
    case NoWarning => 0
    case SixtyOneSeconds => 1
    case FiftyNineSeconds => 2
    case Alarm => 3
  }

  /** `LeapIndicator(rawValue:)`: defined exactly on the 2-bit values. */
  function LeapFromRaw(r: int): (l: Option<LeapIndicator>)
    ensures l.Some? <==> 0 <= r < 4
    ensures l.Some? ==> LeapRaw(l.value) == r
  {
    if r == 0 then Some(NoWarning)
    else if r == 1 then Some(SixtyOneSeconds)
    else if r == 2 then Some(FiftyNineSeconds)
    else if r == 3 then Some(Alarm)
    else None
  }

  /** The association mode of the packet. */
  datatype Mode = Reserved | SymmetricActive | SymmetricPassive | Client | Server | Broadcast | ReservedNTP | Unknown

  /** `Mode.rawValue`. */
  function ModeRaw(m: Mode): (r: int8)
    ensures 0 <= r < 8
  {
    match m
    case Reserved => 0
    case SymmetricActive => 1
    case SymmetricPassive => 2
    case Client => 3
    case Server => 4
    case Broadcast => 5
    case ReservedNTP => 6
    case Unknown => 7
  }

  /** `Mode(rawValue:)`: defined exactly on the 3-bit values. */
  function ModeFromRaw(r: int): (m: Option<Mode>)
    ensures m.Some? <==> 0 <= r < 8
    ensures m.Some? ==> ModeRaw(m.value) == r
  {
    if r == 0 then Some(Reserved)
    else if r == 1 then Some(SymmetricActive)
    else if r == 2 then Some(SymmetricPassive)
    else if r == 3 then Some(Client)
    else if r == 4 then Some(Server)
    else if r == 5 then Some(Broadcast)
    else if r == 6 then Some(ReservedNTP)
    else if r == 7 then Some(Unknown)
    else None
  }

  /** Every raw value maps back to the case it came from, so the fallbacks
      of the decoder (`?? .NoWarning`, `?? .Unknown`) are never taken on a
      2-bit or 3-bit field. */
  lemma RawValuesRoundTrip(l: LeapIndicator, m: Mode)
    ensures LeapFromRaw(LeapRaw(l)) == Some(l)
    ensures ModeFromRaw(ModeRaw(m)) == Some(m)
  {
  }

  /** The stratum class of the server's clock. */
  datatype Stratum = Unspecified | Primary | Secondary | Invalid

  /** `Stratum.rawValue`: the value the encoder writes to the wire. */
  function StratumRaw(s: Stratum): (r: int8)
    ensures 0 <= r < 4
  {
    match s
    case Unspecified => 0
    case Primary => 1
    case Secondary => 2
    case Invalid => 3
  }

  /** `Stratum(value:)` on the signed stratum byte: 0 is unspecified, 1 is
      primary, 2 to 14 are secondary, and every other value (15 to 127 and
      all negative values, i.e. wire bytes 128 and above) is invalid. */
  function StratumFromValue(v: int8): (s: Stratum)
    ensures s == Unspecified <==> v == 0
    ensures s == Primary <==> v == 1
    ensures s == Secondary <==> 2 <= v <= 14
    ensures s == Invalid <==> v < 0 || 15 <= v
  {
    if v == 0 then Unspecified
    else if v == 1 then Primary
    else if 0 <= v < 15 then Secondary
    else Invalid
  }

  /** Re-encoding a stratum writes its raw value, not a wire stratum: the
      classes Unspecified, Primary and Secondary survive the trip, while
      Invalid (raw 3) comes back as Secondary. */
  lemma {:induction false} StratumRawRoundTrip(s: Stratum)
    ensures StratumFromValue(StratumRaw(s)) == if s == Invalid then Secondary else s
  {
    match s
    case Unspecified =>
    case Primary =>
    case Secondary =>
    case Invalid =>
      assert StratumRaw(s) == 3;
  }

  /** Of the wire stratum bytes, only 0, 1 and 2 decode to a class whose raw
      value re-encodes to the same byte. */
  lemma WireStratumSurvivesIff(b: uint8)
    ensures StratumRaw(StratumFromValue(ToSigned(b))) == b <==> b <= 2
  {
  }

  /** The reference identifiers that `description(fromID:)` knows for
      stratum 1 (IANA reference clock codes). */
  const ReferenceClockIds: set<uint32> := {
    0x47505300, 0x47414c00, 0x50505300, 0x49524947, 0x57575642, 0x44434600,
    0x48424700, 0x4d534600, 0x4a4a5900, 0x4c4f5243, 0x54444600, 0x43485500,
    0x57575600, 0x57575648, 0x4e495354, 0x41435453, 0x55534e4f, 0x50544200,
    0x4c4f434c, 0x4345534d, 0x5242444d, 0x4f4d4547, 0x44434e00, 0x54535000,
    0x44545300, 0x41544f4d, 0x564c4600, 0x31505053, 0x46524545, 0x494e4954
  }

  /** The id half of `description(fromID:)`: a known code is kept, anything else becomes 0. */
  function ReferenceClockId(sourceId: uint32): (id: uint32)
    ensures sourceId in ReferenceClockIds ==> id == sourceId
    ensures sourceId !in ReferenceClockIds ==> id == 0
  {
    if sourceId in ReferenceClockIds then sourceId else 0
  }

  /** Server or reference clock, interpreted according to the stratum. */
  datatype ClockSource =
    | ReferenceClock(id: uint32)
    | Debug(id: uint32)
    | ReferenceIdentifier(id: uint32)

  /** `ClockSource(stratum:sourceID:)`. */
  function ClockSourceFor(stratum: Stratum, sourceId: uint32): (c: ClockSource)
    ensures c.Debug? <==> stratum == Unspecified
    ensures c.ReferenceClock? <==> stratum == Primary
    ensures c.ReferenceIdentifier? <==> stratum == Secondary || stratum == Invalid
  {
    match stratum
    case Unspecified => Debug(sourceId)
    case Primary => ReferenceClock(ReferenceClockId(sourceId))
    case Secondary => ReferenceIdentifier(sourceId)
    case Invalid => ReferenceIdentifier(sourceId)
  }

  /** `ClockSource.ID`. */
  function ClockSourceId(c: ClockSource): uint32 {
    c.id
  }

  /** The identifier read back from a clock source is the one it was built
      from, except for a primary server whose code is not in the table:
      that one reads back as 0, so the reference id is lost on re-encoding. */
  lemma ClockSourceIdPreserved(stratum: Stratum, sourceId: uint32)
    ensures ClockSourceId(ClockSourceFor(stratum, sourceId)) ==
      if stratum == Primary && sourceId !in ReferenceClockIds then 0 else sourceId
  {
  }
}
