/** A frozen synchronisation point (`TimeFreeze`): the clock offset learnt
    from NTP, pinned to the wall-clock time and the uptime at which it was
    learnt, so that "now" can be projected forward from the uptime alone,
    whatever happens to the wall clock in between.

    The operating-system clocks (`currentTime()` and `systemUptime()`) are
    parameters: `wallTime` is seconds since 1970 as the device believes it,
    `uptime` is seconds since boot. */
module Freeze {
  import opened Wrappers

  const UptimeKey: string := "Uptime"
  const TimestampKey: string := "Timestamp"
  const OffsetKey: string := "Offset"

  datatype TimeFreeze = TimeFreeze(uptime: real, timestamp: real, offset: real)

  /** `Date`: a point in time as seconds since 1970. */
  datatype Date = Date(sinceEpoch: real)

  /** `init(offset:)`: the offset together with the clocks read at capture. */
  function Capture(offset: real, wallTime: real, uptime: real): (f: TimeFreeze)
    ensures f.offset == offset && f.timestamp == wallTime && f.uptime == uptime
  {
    TimeFreeze(uptime, wallTime, offset)
  }

  /** `stableTimestamp`: the capture's wall time advanced by the uptime elapsed since. */
  function StableTimestamp(f: TimeFreeze, currentUptime: real): real {
    (currentUptime - f.uptime) + f.timestamp
  }

  /** `adjustedTimestamp`: the stable timestamp corrected by the offset. */
  function AdjustedTimestamp(f: TimeFreeze, currentUptime: real): real {
    f.offset + StableTimestamp(f, currentUptime)
  }

  /** `timeSinceLastNtpSync`. */
  function TimeSinceLastNtpSync(f: TimeFreeze, currentUptime: real): real {
    currentUptime - f.uptime
  }

  /** Read at the moment of capture, the adjusted time is the wall time
      corrected by the offset. */
  lemma AdjustedAtCapture(offset: real, wallTime: real, uptime: real)
    ensures AdjustedTimestamp(Capture(offset, wallTime, uptime), uptime) == offset + wallTime
    ensures TimeSinceLastNtpSync(Capture(offset, wallTime, uptime), uptime) == 0.0
  {
  }

  /** The projection runs on uptime alone: `d` more seconds of uptime add
      exactly `d` seconds to the adjusted time and to the time since the
      last synchronisation, whatever the wall clock now says. */
  lemma AdjustedFollowsUptime(f: TimeFreeze, currentUptime: real, d: real)
    ensures AdjustedTimestamp(f, currentUptime + d) == AdjustedTimestamp(f, currentUptime) + d
    ensures TimeSinceLastNtpSync(f, currentUptime + d) == TimeSinceLastNtpSync(f, currentUptime) + d
    ensures AdjustedTimestamp(f, currentUptime) == f.offset + f.timestamp + TimeSinceLastNtpSync(f, currentUptime)
  {
  }

  // ---------------------------------------------------------------------
  // `rint`: round to the nearest integer, ties to even.

  function Rint(x: real): (n: int)
    ensures -0.5 <= x - n as real <= 0.5
    ensures (x - n as real == 0.5 || x - n as real == -0.5) ==> n % 2 == 0
  {
    var f := x.Floor;
    var d := x - f as real;
    if d < 0.5 then f
    else if d > 0.5 then f + 1
    else if f % 2 == 0 then f else f + 1
  }

  /** An integer closer than one half to `x` is the one `Rint` picks. */
  lemma RintNearest(x: real, n: int)
    requires -0.5 < x - n as real < 0.5
    ensures Rint(x) == n
  {
  }

  /** Rounding agrees with the order of the reals. */
  lemma RintMonotone(x: real, y: real)
    requires x <= y
    ensures Rint(x) <= Rint(y)
  {
    var m, n := Rint(x), Rint(y);
    if n < m {
      assert n + 1 <= m;
      assert x == y - (y - x);
    }
  }

  // ---------------------------------------------------------------------
  // Dictionary form, and reloading it after a possible reboot.

  /** `toDictionary`. */
  function ToDictionary(f: TimeFreeze): (d: map<string, real>)
    ensures d.Keys == {UptimeKey, TimestampKey, OffsetKey}
    ensures d[UptimeKey] == f.uptime && d[TimestampKey] == f.timestamp && d[OffsetKey] == f.offset
  {
    map[UptimeKey := f.uptime, TimestampKey := f.timestamp, OffsetKey := f.offset]
  }

  /** The boot time as a freeze implies it, rounded to the second: uptime
      counts from boot, so uptime minus wall time is minus the boot time. */
  function BootEstimate(uptime: real, wallTime: real): int {
    Rint(uptime - wallTime)
  }

  /** `init?(from:)`: nothing when a key is missing, nothing when the boot
      estimate of the stored values differs from the current one (the
      device rebooted, so the stored uptime means nothing any more), and
      otherwise the three stored values. */
  function FromDictionary(d: map<string, real>, currentUptime: real, wallTime: real): (r: Option<TimeFreeze>)
    ensures r.Some? <==>
      && UptimeKey in d && TimestampKey in d && OffsetKey in d
      && BootEstimate(currentUptime, wallTime) == BootEstimate(d[UptimeKey], d[TimestampKey])
    ensures r.Some? ==> ToDictionary(r.value) == d - (d.Keys - {UptimeKey, TimestampKey, OffsetKey})
  {
    if !(UptimeKey in d && TimestampKey in d && OffsetKey in d) then None
    else if BootEstimate(currentUptime, wallTime) - BootEstimate(d[UptimeKey], d[TimestampKey]) != 0 then None
    else
      var f := TimeFreeze(d[UptimeKey], d[TimestampKey], d[OffsetKey]);
      assert ToDictionary(f) == d - (d.Keys - {UptimeKey, TimestampKey, OffsetKey});
      Some(f)
  }

  /** Only the three keys matter: dictionaries that agree on them reload alike. */
  lemma ExtraKeysIgnored(d: map<string, real>, e: map<string, real>, currentUptime: real, wallTime: real)
    requires forall k :: k in {UptimeKey, TimestampKey, OffsetKey} ==> (k in d <==> k in e)
    requires forall k :: k in {UptimeKey, TimestampKey, OffsetKey} && k in d ==> d[k] == e[k]
    ensures FromDictionary(d, currentUptime, wallTime) == FromDictionary(e, currentUptime, wallTime)
  {
    assert UptimeKey in {UptimeKey, TimestampKey, OffsetKey};
    assert TimestampKey in {UptimeKey, TimestampKey, OffsetKey};
    assert OffsetKey in {UptimeKey, TimestampKey, OffsetKey};
  }

  /** Storing and reloading on the same boot gives back the same freeze. */
  lemma DictionaryRoundTrip(f: TimeFreeze, currentUptime: real, wallTime: real)
    requires BootEstimate(currentUptime, wallTime) == BootEstimate(f.uptime, f.timestamp)
    ensures FromDictionary(ToDictionary(f), currentUptime, wallTime) == Some(f)
  {
  }

  /** A freeze reloaded while the wall clock and the uptime have advanced
      together (no reboot, no clock change) is kept. */
  lemma ReloadWithoutRebootAccepted(f: TimeFreeze, elapsed: real)
    ensures FromDictionary(ToDictionary(f), f.uptime + elapsed, f.timestamp + elapsed) == Some(f)
  {
    assert (f.uptime + elapsed) - (f.timestamp + elapsed) == f.uptime - f.timestamp;
  }

  /** Boot estimates more than a second apart always count as a reboot. */
  lemma {:induction false} DistantBootsRejected(d: map<string, real>, currentUptime: real, wallTime: real)
    requires UptimeKey in d && TimestampKey in d
    requires (currentUptime - wallTime) - (d[UptimeKey] - d[TimestampKey]) > 1.0
      || (d[UptimeKey] - d[TimestampKey]) - (currentUptime - wallTime) > 1.0
    ensures FromDictionary(d, currentUptime, wallTime).None?
  {
    var a, b := currentUptime - wallTime, d[UptimeKey] - d[TimestampKey];
    assert -0.5 <= a - Rint(a) as real <= 0.5;
    assert -0.5 <= b - Rint(b) as real <= 0.5;
  }
}
