# Kronos NTP client, modelled in Dafny

Kronos keeps a drift-free "true time" on a device without touching the
device clock. It queries the servers of an NTP pool, takes the best reply
per server, freezes the resulting clock offset together with the wall time
and the uptime at which it was learnt, and from then on projects "now" from
the uptime alone.

This project models that logic as immutable datatypes and pure functions:

- `wrappers.dfy` (`Wrappers`): `Option` and `Result`.
- `bytes.dfy` (`Bytes`): the byte helpers of `Data` and `NSData`/`NSMutableData`. It covers `init?(hex:)`, `getByte`, `getUnsignedInteger`, `getUnsignedLong` and the three `append` overloads. Both revisions behave the same and are modelled once.
- `ntp_protocol.dfy` (`NtpProtocol`): `LeapIndicator`, `Mode`, `Stratum(value:)`, `ClockSource(stratum:sourceID:)`, its `ID`, and the reference-clock table of `description(fromID:)`.
- `ntp_packet.dfy` (`NtpPacket`): the 48-byte header of RFC 5905, section 7.3. It covers:
  - the decoder and the encoder `prepareToSend`;
  - the 32.32 timestamp and 16.16 interval formats;
  - `delay` and `offset`;
  - both revisions of the validity check: `isValidResponse()`, and the older `isValidResponse(forVersion:)`.
- `ntp_client.dfy` (`NtpClient`): the `queryIP` accept/reject decision; `offsetFromResponses`; the per-server aggregation of `queryPool` as a fold over completed queries, with one progress report per completion; and the query plan.
- `freeze.dfy` (`Freeze`): `TimeFreeze`, covering the projection of "now", the dictionary form, and the reboot check on reload.
- `clock.dfy` (`Clock`) and `clock2.dfy` (`Clock2`): the two front ends, written as state machines stepped by progress events.
- `address.dfy` (`Address`): `InternetAddress`. It covers family, equality and hash by host string, `init?(storage:)`, the port written by `addressData(withPort:)`, and the private-address classification. The classification is stated over the addresses the test suite's `mockIPv6` builds from unpadded hex groups.
- `storage.dfy` (`Storage`): `TimeStoragePolicy` and `TimeStorage.stableTime` over a map of user-defaults suites.
- `defaults.dfy` (`Defaults`): `UserDefaultsState` and `DefaultsController`.

The operating-system clocks (`currentTime()` and `systemUptime()`) are parameters everywhere. Times are `real`. Integers are `int` subset types of the Swift widths. Bytes are `seq<uint8>`.

## Model

| member | source | states |
|---|---|---|
| Bytes.ToSigned | Sources/Data+Bytes.swift:32-35 | A byte reinterpreted as `Int8` is negative exactly when its top bit is set, and equals the byte modulo 256. |
| Bytes.SignedRoundTrip | Sources/NSMutableData+Bytes.swift:36-40 | The signed and unsigned views of a byte convert into each other without loss. |
| Bytes.GetByte | Sources/Data+Bytes.swift:32-35 | `getByte` is the byte at that index as a signed value; read back unsigned, it is exactly `d[i]`. |
| Bytes.WordReadsEndian | Sources/Data+Bytes.swift:43-46 | `getUnsignedInteger` with the flag set is the big-endian value of the four bytes. With the flag off it is their little-endian value. |
| Bytes.LongReadsEndian | Sources/Data+Bytes.swift:54-57 | `getUnsignedLong` is the big-endian (flag set) or little-endian (flag off) value of the eight bytes. |
| Bytes.ReadsIgnoreSuffix | Sources/NSMutableData+Bytes.swift:49-66 | Reads depend only on the bytes they cover; bytes appended later do not change them. |
| Bytes.AppendByte | Sources/Data+Bytes.swift:63-66 | Appending a byte adds exactly one byte and keeps the earlier ones. `getByte` at the old length gives back the appended value. |
| Bytes.AppendUnsignedInteger | Sources/Data+Bytes.swift:71-74 | Appending a 32-bit value adds exactly four bytes and keeps the prefix. Reading at the old length with the same flag gives the value back, in both byte orders. |
| Bytes.AppendUnsignedLong | Sources/NSMutableData+Bytes.swift:96-99 | Appending a 64-bit value adds exactly eight bytes and keeps the prefix. Reading at the old length with the same flag gives the value back, in both byte orders. |
| Bytes.WordBytes | Sources/NSMutableData+Bytes.swift:86-89 | The four bytes written for a 32-bit value read back as that value. |
| Bytes.ParseHexPair | Sources/Data+Bytes.swift:17 | A pair of characters parses iff both are hex digits. |
| Bytes.ParseHexPairs | Sources/Data+Bytes.swift:13-24 | The pairs parse iff every character is a hex digit. The result has half the length; byte `i` is the value of characters `2i` and `2i+1`. |
| Bytes.DataFromHex | Sources/Data+Bytes.swift:8-25 | `init?(hex:)` is nil iff the length is odd or some character is not a hex digit. Otherwise it has half the length, and byte `i` is the value of characters `2i` and `2i+1`. |
| Bytes.HexRoundTrip | Sources/NSMutableData+Bytes.swift:10-27 | Parsing the two-digit lower-case hex spelling of any byte string gives that byte string back. |
| NtpProtocol.LeapFromRaw | Sources/NTPProtocol.swift:17-18 | A raw leap value has a case iff it is in 0..3. |
| NtpProtocol.ModeFromRaw | Sources/NTPProtocol.swift:38-39 | A raw mode value has a case iff it is in 0..7. |
| NtpProtocol.RawValuesRoundTrip | Sources/NTPProtocol.swift:273-275 | Every leap and mode case comes back from its raw value, so the decoder's `??` fallbacks are never taken for 2- and 3-bit fields. |
| NtpProtocol.StratumFromValue | Sources/NTPProtocol.swift:48-62 | The stratum is 0 ↦ Unspecified, 1 ↦ Primary and 2..14 ↦ Secondary. Every other value is Invalid, negative ones included. All four are stated as if-and-only-if. |
| NtpProtocol.StratumRawRoundTrip | Sources/NTPProtocol.swift:45-62 | Decoding a stratum's raw value gives it back, except Invalid (raw 3), which comes back as Secondary. |
| NtpProtocol.WireStratumSurvivesIff | Sources/NTPProtocol.swift:276 | A wire stratum byte survives decoding and re-encoding unchanged iff it is 0, 1 or 2. |
| NtpProtocol.ClockSourceFor | Sources/NTPProtocol.swift:77-89 | Unspecified gives Debug, Primary gives ReferenceClock, and Secondary or Invalid give ReferenceIdentifier. Each is stated as if-and-only-if. |
| NtpProtocol.ReferenceClockId | Sources/NTPProtocol.swift:105-169 | A known IANA reference-clock code is kept; any other id becomes 0. |
| NtpProtocol.ClockSourceIdPreserved | Sources/NTPProtocol.swift:92-103 | `ID` returns the source id unchanged, except a stratum-1 id outside the table, which becomes 0. |
| NtpPacket.DateToWire | Sources/NTPPacket.swift:163-167 | The high word holds the whole seconds since 1900 and the low word holds the fraction scaled by 2^32, both truncated toward zero. The precondition is the exact domain where the conversions do not trap. |
| NtpPacket.DateFromWire | Sources/NTPPacket.swift:175-179 | A decoded timestamp lies in [-2208988800, 2^32 - 2208988800). |
| NtpPacket.IntervalToWire | Sources/NTPPacket.swift:169-173 | The high half holds the whole seconds and the low half holds the fraction scaled by 2^16, within the domain where the conversions do not trap. |
| NtpPacket.IntervalFromWire | Sources/NTPPacket.swift:181-185 | A decoded interval lies in [0, 65536). |
| NtpPacket.DateRoundTrip | Sources/NTPPacket.swift:163-179 | Encoding and then decoding a time at or after 1970, or an integral one, gives it back, quantised down to a multiple of 2^-32 s. |
| NtpPacket.WireDateRoundTrip | Sources/NTPPacket.swift:163-179 | Every wire timestamp from 1970 on decodes to an encodable time that encodes back to the same 64 bits. |
| NtpPacket.IntervalRoundTrip | Sources/NTPPacket.swift:169-185 | Encoding and then decoding a non-negative interval gives it back, quantised down to a multiple of 2^-16 s. |
| NtpPacket.WireIntervalRoundTrip | Sources/NTPPacket.swift:169-185 | Every 32-bit interval decodes to a value that encodes back to the same bits. |
| NtpPacket.HeaderByte | Sources/NTPPacket.swift:133 | Byte 0 holds the mode in bits 2-0 and the low three version bits in bits 5-3. When the version fits in three bits, the leap indicator is in bits 7-6. |
| NtpPacket.SignedFieldsAreUnsignedBits | Sources/NTPPacket.swift:110-112 | The signed shifts and masks of the decoder select the same bit fields as the unsigned byte. |
| NtpPacket.HeaderByteRoundTrip | Sources/NTPPacket.swift:110-112 | Decoding byte 0 gives back the leap, version and mode that were packed into it. |
| NtpPacket.Decode | Sources/NTPPacket.swift:105-124 | Decoding fails with `InvalidNTPPDU(length)` iff fewer than 48 bytes are given. Otherwise every field is the big-endian field at its fixed offset: byte-0 bit fields, stratum classes, signed poll and precision, 16.16 intervals, clock source, and 32.32 timestamps. |
| NtpPacket.DecodeIgnoresTrailingBytes | Sources/NTPPacket.swift:105-124 | Bytes after the first 48 do not change the decoded packet. |
| NtpPacket.PrepareToSend | Sources/NTPPacket.swift:131-147 | The transmit time becomes the given one, or the clock reading when none is given. The result is exactly 48 bytes, and each field reads back at its offset. |
| NtpPacket.PrepareThenDecode | Sources/NTPPacket.swift:105-147 | Decoding what `prepareToSend` wrote gives the sent packet back, up to timestamp and interval quantisation, the stratum-class collapse and the clock-source id. |
| NtpPacket.OffsetRecoversSkew | Sources/NTPPacket.swift:188-212 | In an exchange with server skew `s` and one-way times `up` and `down`, `delay` is `up + down` and `offset` is `s + (up - down)/2`. On a symmetric path the offset is exactly the skew. |
| NtpPacket.OffsetAgainstServerTimes | Sources/NTPPacket.swift:205-212 | Offset and half the delay relate client and server timestamps: T4 + offset = T3 + delay/2, and T1 + offset = T2 - delay/2. |
| NtpPacket.ValidityBoundsHoldTime | Sources/NTPPacket.swift:154-159 | Read at arrival time, `isValidResponse()` holds iff the header is a server reply and the dispersion is under 100. The server must also have held the request less than 0.1 s. |
| NtpPacket.OlderRevisionIgnoresDispersion | Sources/NTPProtocol.swift:320-324 | A reply with a dispersion of 200 s passes `isValidResponse(forVersion:)` and fails `isValidResponse()`. |
| NtpPacket.NewerRevisionIgnoresVersionAndDelay | Sources/NTPPacket.swift:154-159 | A version-4 reply with delay 0 passes `isValidResponse()` and fails the version-3 check of the older revision. |
| NtpPacket.ZeroDelayAccepted | Sources/NTPPacket.swift:154-159 | `isValidResponse()` accepts a reply with zero delay, which the older revision rejects. |
| NtpPacket.ValidReplyComesFromServer | Sources/NTPProtocol.swift:320-324 | A reply that passes `isValidResponse(forVersion:)` is primary or secondary, in server or symmetric-passive mode, and not raising the alarm. |
| NtpPacket.ValidReplyOnTheWire | Sources/NTPProtocol.swift:268-324 | The bytes decode to a reply that passes `isValidResponse(forVersion:)` iff all of these hold: at least 48 bytes, the version bits match, mode 4 or 2, leap not 3, stratum byte in 1..14, and a positive delay computed from the wire timestamps. |
| NtpPacket.ClientRequestBytes | Sources/NTPPacket.swift:81-95 | The default client packet sent at 1463303662.776552 is `1b0004fa 00010000 00010000` followed by 28 zero bytes. Its transmit timestamp is `dae2bc6e c6cc1ca3` (exact arithmetic). |
| NtpPacket.ClientRequestReads | Sources/NTPProtocol.swift:246-260 | The default packet encodes as header `1b 00 04 fa` with version 3, client mode, poll 4 and precision -6. Delay and dispersion are 1.0 each, and the reference, origin and receive times are the 1900 epoch, which encodes as 0. |
| NtpPacket.ServerReplyFields | Sources/NTPProtocol.swift:268-287 | The recorded server reply decodes to version 3, NoWarning, Server, Secondary, poll 3 and precision -23. Root delay is 1623/65536, root dispersion 2664/65536 and clock-source id 2913124508, and the three timestamps match their wire words. |
| NtpPacket.ShortBufferRejected | Sources/NTPPacket.swift:106-108 | The 4-byte buffer `0badface` is rejected with `InvalidNTPPDU(4)`. |
| NtpClient.AcceptReply | Sources/NTPClient.swift:69-76 | A reply is forwarded iff there are bytes that decode to a packet passing `isValidResponse(forVersion:)`, spelled out on the wire bytes. The forwarded packet is the decoded one. |
| NtpClient.MinDelayIndex | Sources/NTPClient.swift:100-102 | The chosen packet has the least delay in its list, and every earlier packet has a strictly larger delay (ties go to the earliest). |
| NtpClient.FirstMinimumUnique | Sources/NTPClient.swift:100-102 | At most one index is the first minimum, so the tie rule determines the choice. |
| NtpClient.Answered | Sources/NTPClient.swift:99-102 | The servers that contribute are among the lists and have packets. There are none iff every list is empty. |
| NtpClient.AnsweredAppend | Sources/NTPClient.swift:99-102 | Dropping the empty lists from two runs of servers in sequence is dropping them from each run. |
| NtpClient.AnsweredKeepsOrder | Sources/NTPClient.swift:99-102 | Every server that answered contributes, at the position right after the servers before it that answered. |
| NtpClient.AllAnswered | Sources/NTPClient.swift:99-102 | When every server answered, every server contributes. |
| NtpClient.BestResponses | Sources/NTPClient.swift:99-102 | There is one best packet per answering server, in server order, each the first minimum-delay packet of its list. |
| NtpClient.OffsetFromResponses | Sources/NTPClient.swift:98-105 | The result is nil iff every list is empty. Otherwise it is the offset of the best packet of the answering server at index n/2, taken in the given order. |
| NtpClient.OffsetComesFromSomeServer | Sources/NTPClient.swift:99-104 | A result is always the offset of some server's first minimum-delay packet. |
| NtpClient.ThreeServersMiddle | Sources/NTPClient.swift:104 | With one packet from each of three servers, the second server's offset is chosen, whatever the packets. |
| NtpClient.MiddleIsNotMedian | Sources/NTPClient.swift:104 | With offsets 0, 10 and 1 in that order the result is 10, not the median 1. There is no sorting. |
| NtpClient.Record | Sources/NTPClient.swift:37-45 | A failed query changes nothing. An accepted packet goes to the end of its address's list, creating the entry if needed. Other addresses are unchanged, and the map stays well formed. |
| NtpClient.Fold | Sources/NTPClient.swift:28-47 | Folding completions preserves the map's invariants: unique addresses, key iff listed, lists never empty. |
| NtpClient.Values | Sources/NTPClient.swift:33 | The lists handed to the offset computation are the map's lists, one per address. |
| NtpClient.FoldKeepsEveryPacket | Sources/NTPClient.swift:37-45 | After any sequence of completions, an address holds exactly its accepted packets, in completion order. |
| NtpClient.RunPool | Sources/NTPClient.swift:28-47 | The callback loop ends with the folded map. `progress` is called exactly once per completion, failures included, with the offset of the map as it stands after that completion. |
| NtpClient.ReportsOnceAnswered | Sources/NTPClient.swift:32-45 | Once some query has been accepted, every later progress report carries an offset. |
| NtpClient.RoundsQueryEachAddress | Sources/NTPClient.swift:49-53 | `numberOfSamples × |addresses|` queries are issued, and each address is queried `numberOfSamples` times for each time it is listed. |
| NtpClient.QueryPlan | Sources/NTPClient.swift:49-53 | The nested loop issues the rounds in order: all addresses once per sample. |
| Freeze.Capture | Sources/TimeFreeze.swift:28-32 | `init(offset:)` pins the offset to the wall time and the uptime read at capture. |
| Freeze.AdjustedAtCapture | Sources/TimeFreeze.swift:13-32 | Read at capture, the adjusted time is the offset plus the wall time, and the time since the last sync is 0. |
| Freeze.AdjustedFollowsUptime | Sources/TimeFreeze.swift:13-26 | `d` more seconds of uptime add exactly `d` to the adjusted time and to the time since the last sync, whatever the wall clock says. The adjusted time is the offset plus the capture time plus the time since the last sync. |
| Freeze.Rint | Sources/TimeFreeze.swift:45 | `rint` is at most one half away from its argument and picks the even integer on ties. |
| Freeze.RintMonotone | Sources/TimeFreeze.swift:45 | `rint` preserves order. |
| Freeze.ToDictionary | Sources/TimeFreeze.swift:57-63 | The dictionary has exactly the keys Uptime, Timestamp and Offset, holding the three fields. |
| Freeze.FromDictionary | Sources/TimeFreeze.swift:34-52 | The freeze is rebuilt iff all three keys are present and the rounded boot estimates agree. It then holds the three stored values, and other keys are ignored. |
| Freeze.ExtraKeysIgnored | Sources/TimeFreeze.swift:35-39 | Dictionaries that agree on the three keys reload alike. |
| Freeze.DictionaryRoundTrip | Sources/TimeFreeze.swift:41-63 | Reloading a freeze's dictionary on the same boot gives the freeze back. |
| Freeze.ReloadWithoutRebootAccepted | Sources/TimeFreeze.swift:41-51 | A freeze reloaded after wall time and uptime advanced by the same amount is accepted. |
| Freeze.DistantBootsRejected | Sources/TimeFreeze.swift:45 | Boot estimates more than one second apart are always rejected. |
| Clock.Timestamp | Sources/Clock.swift:25-27 | `timestamp` is nil iff no freeze is stored; otherwise it is the freeze's adjusted time. |
| Clock.Now | Sources/Clock.swift:30-32 | `now` is nil iff `timestamp` is, and otherwise is the date at that timestamp. |
| Clock.OnProgress | Sources/Clock.swift:49-59 | A nil offset changes nothing and calls nothing. A non-nil offset stores a fresh capture. `first` is called iff this is the first non-nil offset. |
| Clock.Sync | Sources/Clock.swift:45-61 | `first` is called at most once, and is called iff some offset arrives, with the first non-nil offset. The stored freeze is the capture of the last non-nil offset; with none, nothing changes. |
| Clock2.Now | Sources/Clock2.swift:80-86 | `now` is nil iff no offset is stored. Otherwise it is the offset plus the wall time plus the uptime elapsed between capture and read. |
| Clock2.Step | Sources/Clock2.swift:52-122 | `reset` stores nil and the setter stores its value. A progress event stores a non-nil offset, keeps the old one otherwise, and completes iff done == total, with that event's offset. |
| Clock2.LastStored | Sources/Clock2.swift:63-75 | The value of the last operation that writes one, or the starting value when none writes. |
| Clock2.OffsetIsLastStored | Sources/Clock2.swift:63-75 | After any operations, the getter returns the value last written by the setter, `reset` or `sync`. |
| Clock2.ResetClearsNow | Sources/Clock2.swift:52-57 | After `reset`, `now` is nil. |
| Clock2.CompletionsAreFinalReports | Sources/Clock2.swift:118-120 | The completion fires exactly for the events whose done equals total, with their offsets in order. |
| Address.Family | Sources/InternetAddress.swift:29-37 | IPv4 has `PF_INET` and IPv6 has `PF_INET6`. |
| Address.HashValue | Sources/InternetAddress.swift:39-41 | The hash is that of the host string, and 0 when there is no host. |
| Address.SameAddressIsEquivalence | Sources/InternetAddress.swift:89-91 | `==` is reflexive, symmetric and transitive. |
| Address.EqualAddressesHashEqual | Sources/InternetAddress.swift:39-41 | Equal addresses have equal hashes. |
| Address.FromStorage | Sources/InternetAddress.swift:43-60 | A null pointer gives nil. `AF_INET` gives the IPv4 view and `AF_INET6` the IPv6 view, each as if-and-only-if. Any other family gives nil. |
| Address.FromStorageFamily | Sources/InternetAddress.swift:29-60 | An address read from storage opens its socket with the family the storage records. |
| Address.AddressData | Sources/InternetAddress.swift:69-83 | The structure's bytes with the port at bytes 2-3, most significant byte first. Every other byte is unchanged, and the variant's size is kept. |
| Address.AddressDataCarriesPort | Sources/InternetAddress.swift:72-78 | The port bytes read big-endian give the port back. |
| Address.Ipv4PrivateOctets | Tests/KronosTests/InternetAddressTests.swift:14-47 | An IPv4 address is private iff it is 10/8, 172.16/12, 192.168/16, 224-239 (multicast) or 255.255.255.255. |
| Address.TestedPrivateIpv4 | Tests/KronosTests/InternetAddressTests.swift:15-28 | Every address shape the test lists as private is private. |
| Address.TestedPublicIpv4 | Tests/KronosTests/InternetAddressTests.swift:29-39 | Every address shape the test lists as public is not private. |
| Address.HexDigitsRoundTrip | Tests/KronosTests/InternetAddressTests.swift:88-90 | Reading back the unpadded hex digits of a number gives the number. |
| Address.HexValueAppend | Tests/KronosTests/InternetAddressTests.swift:88-91 | Digits run together read as the first part shifted past the second. |
| Address.MockGroupTextValue | Tests/KronosTests/InternetAddressTests.swift:85-96 | Reading back the two bytes' unpadded hex spellings, run together, gives `hi·256 + lo`, except that a low byte below 16 shifts the high byte by one digit only: `hi·16 + lo`. |
| Address.GroupsToBytesAt | Tests/KronosTests/InternetAddressTests.swift:92-95 | Group `k` of the parsed address is bytes `2k` and `2k + 1`, most significant first. |
| Address.MockIpv6Groups | Tests/KronosTests/InternetAddressTests.swift:85-96 | Each group of the address `mockIPv6` yields is the group built from the same two bytes. |
| Address.MockFirstGroup | Tests/KronosTests/InternetAddressTests.swift:49-72 | The first group built from a first byte 0xfd or 0xff is private. One built from 0xf0-0xfc, 0xfe, or 0x00-0xfc other than 0x0f is not, whatever the next byte. |
| Address.TestedIpv6 | Tests/KronosTests/InternetAddressTests.swift:49-96 | Over the addresses `mockIPv6` yields: first byte 0xfd or 0xff is private, and the tested other first bytes are not, whatever the other fifteen bytes. |
| Address.MockShiftsShortGroup | Tests/KronosTests/InternetAddressTests.swift:85-96 | From bytes 0xfd, 0x05 the mock builds an address beginning 0x0f, 0xd5, and that address is private. |
| Address.ZeroFLooksPrivate | Tests/KronosTests/InternetAddressTests.swift:62 | A first byte 0x0f followed by 0xd0 yields a private address, which is why the public case leaves out 0x0f. |
| Storage.PolicyFor | Sources/TimeStorage.swift:14-20 | nil gives `.standard`, and a group id gives `.appGroup` with that id. |
| Storage.MakeTimeStorage | Sources/TimeStorage.swift:53-62 | The standard policy uses the standard suite. A group uses its suite, falling back to the standard one when that suite cannot be created. |
| Storage.LoadFreeze | Sources/TimeStorage.swift:30-39 | Nothing stored under the key, or a value that is not a time dictionary, gives nil. Otherwise the result is the dictionary reloaded by `TimeFreeze(from:)`. |
| Storage.SetStableTime | Sources/TimeStorage.swift:41-47 | nil is ignored. A freeze is written as its dictionary under `KronosStableTime`, in the storage's suite only. |
| Storage.SetThenGet | Sources/TimeStorage.swift:30-47 | Setting a freeze and getting it on the same boot gives the freeze back. |
| Storage.SetNilKeepsStored | Sources/TimeStorage.swift:42-44 | Setting nil leaves what the getter returns unchanged. |
| Storage.SetWritesOnlyTheKey | Sources/TimeStorage.swift:26-46 | Every other key of every suite, and the key in every other suite, keep their values. |
| Defaults.MakeState | Sources/DefaultsController.swift:7-13 | nil gives `.standard`, and a group id gives `.appGroup` with that id. |
| Defaults.SameStateIsEquality | Sources/DefaultsController.swift:15-24 | The hand-written `==` holds iff the two states are equal. |
| Defaults.AssignState | Sources/DefaultsController.swift:31-43 | The state is always replaced. The backing suite switches, to the new state's suite, only when the new state differs from the old. |
| Defaults.UpdateAppGroupId | Sources/DefaultsController.swift:62-64 | The state becomes `makeState` of the id. |
| Defaults.SuiteFollowsState | Sources/DefaultsController.swift:28-64 | The suite in use is always the one of the current state, initially and after every update. |
| Defaults.SetStableTime | Sources/DefaultsController.swift:57-59 | nil removes the key. A freeze is written as its dictionary. Other suites are untouched. |
| Defaults.StoringNilForgets | Sources/DefaultsController.swift:46-59 | After storing nil, the getter returns nil. |
| Defaults.SetThenGet | Sources/DefaultsController.swift:46-59 | Setting a freeze and getting it on the same boot gives the freeze back, with an equal dictionary. |

## Left out

- Sockets, DNS resolution, timers, run loops and locks (`sendAsyncUDPQuery`, `addressDataFromIP`, `DNSResolver`, `NSTimer` and `UnfairLock`) are I/O and concurrency. A query is modelled only by its outcome: reply bytes or none. A guarded access in `Clock2` is one atomic step.
- `currentTime()` and `systemUptime()` are parameters. `Clock` reads the uptime once per call, so the capture and the read in its `now` share one reading. `Clock2.Now` takes both readings as separate parameters.
- NtpPacket.DateToWire: times are exact reals, so Double rounding is not modelled. The recorded request's last four bytes are `c6cc1c00`, a result of that rounding. `NtpPacket.ClientRequestBytes` states the exact-arithmetic bytes `c6cc1ca3` instead.
- The year-2036 rollover test exercises an encoder not in the sources shown. The shown `dateToNTPFormat` traps from 2085978496 on, and that is its precondition here.
- Bytes.DataFromHex: Swift's radix parser also accepts a sign inside a pair (`"+f"`). The model requires input without `+` or `-` instead of reproducing that quirk.
- The `description` strings of `LeapIndicator` and `ClockSource` are left out. Only the reference-clock id table matters to the packet.
- The host byte order is taken to be little-endian, as on every Apple platform, when interpreting the `bigEndian:` flag.
- `InternetAddress.host` (`inet_ntop`) and `String.hashValue` are function parameters. Equality and hashing are stated for any such functions.
- `NtpClient.Values`: Swift's `Dictionary` gives its values in an unspecified order. The model uses insertion order. `NtpClient.OffsetComesFromSomeServer` holds for any order of lists.
- `offsetFromResponses` takes the middle element of the best packets without sorting them and without discarding stale replies. The model follows this code, not a median.
- `isPrivate` is not among the sources. It is defined by the address blocks that the tests assert, and the tests' assertions are proved about it.
- Address.IsPrivateIpv6: the IPv6 test builds its addresses from unpadded hex groups (`String(byte, radix: 16)`). A low byte below 16 therefore moves the high byte one hex digit down: bytes 0xfd, 0x05 become the group `fd5`, and the address begins 0x0f, 0xd5. The classification is by the first 16-bit group, so that it agrees with every address the test builds. Private groups are 0xfd00-0xfdff, 0xff00-0xffff, 0x0fd0-0x0fdf and 0x0ff0-0x0fff. The two-digit groups 0xfd and 0xff are public, because the test requires bytes 0x00, 0xfd to give a public address. The real classifier may differ on addresses the test never builds.
- Address.AddressData: `in_port_t(port)` traps when the port is outside 0-65535. That trap domain is the precondition, not an error result.
- NtpClient.QueryPlan, NtpClient.Rounds and NtpClient.RoundsQueryEachAddress: `numberOfSamples` is a `nat`. Swift's `0 ..< numberOfSamples` traps on a negative count, and that trap is not modelled.
- The failure of `UserDefaults(suiteName:)` is the parameter `unavailable`: the set of group names whose suite cannot be created.
- `NTPClient.query(pool:numberOfSamples:)`, the API that `Clock2.sync` calls, is not in the client shown. Its callback is modelled from the arguments `Clock2` receives: an optional offset, a done count and a total.
- The ncurses demo, the command-line tool and the package manifest are not part of the client.
