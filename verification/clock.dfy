/** `Clock`: the process-wide synchronised clock. It keeps the latest
    `TimeFreeze`, answers "now" from it, and during `sync` replaces it with
    each offset the pool reports, calling `first` once, on the first one. */
module Clock {
  import opened Wrappers
  import opened Freeze

  datatype ClockState = ClockState(stableTime: Option<TimeFreeze>)

  /** `timestamp`: the adjusted time of the stored freeze, if any. */
  function Timestamp(c: ClockState, currentUptime: real): (t: Option<real>)
    ensures t.None? <==> c.stableTime.None?
    ensures t.Some? ==> t.value == AdjustedTimestamp(c.stableTime.value, currentUptime)
  {
    match c.stableTime
    case None => None
    case Some(f) => Some(AdjustedTimestamp(f, currentUptime))
  }

  /** `now`: the timestamp as a date. */
  function Now(c: ClockState, currentUptime: real): (d: Option<Date>)
    ensures d.None? <==> Timestamp(c, currentUptime).None?
    ensures d.Some? ==> d.value.sinceEpoch == Timestamp(c, currentUptime).value
  {
    match Timestamp(c, currentUptime)
    case None => None
    case Some(t) => Some(Date(t))
  }

  /** One report to the `progress` closure of `sync`, with the clocks as
      read while handling it. */
  datatype Progress = Progress(offset: Option<real>, wallTime: real, uptime: real)

  /** One call of `first`. */
  datatype FirstCall = FirstCall(date: Date, offset: real)

  /** The clock together with the `isFirstResult` flag of the running `sync`. */
  datatype SyncState = SyncState(clock: ClockState, isFirstResult: bool)

  /** The call `first` receives for an answered report: the captured
      offset's date, read at the moment of capture. */
  function FirstCallFor(e: Progress): FirstCall
    requires e.offset.Some?
  {
    FirstCall(Date(e.offset.value + e.wallTime), e.offset.value)
  }

  /** The `progress` closure of `sync`: a report without an offset changes
      nothing; one with an offset replaces the stored freeze with a fresh
      capture and, if it is the first, calls `first` with the resulting date. */
  function OnProgress(s: SyncState, e: Progress): (r: (SyncState, Option<FirstCall>))
    ensures e.offset.None? ==> r == (s, None)
    ensures e.offset.Some? ==> r.0.clock.stableTime == Some(Capture(e.offset.value, e.wallTime, e.uptime))
    ensures r.0.isFirstResult <==> s.isFirstResult && e.offset.None?
    ensures r.1.Some? <==> s.isFirstResult && e.offset.Some?
    ensures r.1.Some? ==> r.1.value == FirstCallFor(e)
  {
    match e.offset
    case None => (s, None)
    case Some(offset) =>
      var clock := ClockState(Some(Capture(offset, e.wallTime, e.uptime)));
      var now := Now(clock, e.uptime);
      AdjustedAtCapture(offset, e.wallTime, e.uptime);
      if s.isFirstResult && now.Some? then
        (SyncState(clock, false), Some(FirstCall(now.value, offset)))
      else
        (SyncState(clock, s.isFirstResult), None)
  }

  /** `sync` over the reports the pool delivers: the stored freeze ends as
      the capture of the last offset (or unchanged when none came), and
      `first` is called at most once, with the first offset. */
  method Sync(clock: ClockState, events: seq<Progress>) returns (after: ClockState, calls: seq<FirstCall>)
    ensures |calls| <= 1
    ensures |calls| == 0 <==> forall i :: 0 <= i < |events| ==> events[i].offset.None?
    ensures |calls| == 1 ==> exists k ::
      && 0 <= k < |events| && events[k].offset.Some?
      && (forall i :: 0 <= i < k ==> events[i].offset.None?)
      && calls[0] == FirstCallFor(events[k])
    ensures (forall i :: 0 <= i < |events| ==> events[i].offset.None?) ==> after == clock
    ensures forall k ::
      (0 <= k < |events| && events[k].offset.Some? && forall i :: k < i < |events| ==> events[i].offset.None?) ==>
      after.stableTime == Some(Capture(events[k].offset.value, events[k].wallTime, events[k].uptime))
  {
    var s := SyncState(clock, true);
    calls := [];
    ghost var first := -1;
    ghost var last := -1;
    var n := 0;
    while n < |events|
      invariant 0 <= n <= |events|
      invariant s.isFirstResult <==> forall i :: 0 <= i < n ==> events[i].offset.None?
      invariant |calls| == if s.isFirstResult then 0 else 1
      invariant s.isFirstResult <==> first == -1
      invariant !s.isFirstResult ==>
        && 0 <= first < n && events[first].offset.Some?
        && (forall i :: 0 <= i < first ==> events[i].offset.None?)
        && calls[0] == FirstCallFor(events[first])
      invariant s.isFirstResult <==> last == -1
      invariant s.isFirstResult ==> s.clock == clock
      invariant !s.isFirstResult ==>
        && 0 <= last < n && events[last].offset.Some?
        && (forall i :: last < i < n ==> events[i].offset.None?)
        && s.clock.stableTime == Some(Capture(events[last].offset.value, events[last].wallTime, events[last].uptime))
    {
      var r := OnProgress(s, events[n]);
      if events[n].offset.Some? {
        if s.isFirstResult {
          first := n;
        }
        last := n;
      }
      if r.1.Some? {
        calls := calls + [r.1.value];
      }
      s := r.0;
      n := n + 1;
    }
    after := s.clock;
    if !s.isFirstResult {
      assert calls[0] == FirstCallFor(events[first]);
    }
    forall k | 0 <= k < |events| && events[k].offset.Some? && (forall i :: k < i < |events| ==> events[i].offset.None?)
      ensures after.stableTime == Some(Capture(events[k].offset.value, events[k].wallTime, events[k].uptime))
    {
      assert !s.isFirstResult;
      assert !(k < last) && !(last < k);
    }
  }
}
