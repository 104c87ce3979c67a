/** `Clock2`: the lock-protected clock. It keeps only the latest offset;
    "now" is that offset applied to a fresh capture of the device clocks.
    Every lock-guarded access is one atomic step here. */
module Clock2 {
  import opened Wrappers
  import opened Freeze

  datatype Clock2State = Clock2State(latestOffset: Option<real>)

  /** The state before any synchronisation. */
  const Initial: Clock2State := Clock2State(None)

  /** `offset` (getter). */
  function GetOffset(s: Clock2State): Option<real> {
    s.latestOffset
  }

  /** `now`: nothing before an offset is known; otherwise the offset applied
      to a capture of the clocks, read back at `uptimeAtRead` (the uptime is
      read once by the capture and once more by `adjustedTimestamp`). */
  function Now(s: Clock2State, wallTime: real, uptimeAtCapture: real, uptimeAtRead: real): (d: Option<Date>)
    ensures d.None? <==> s.latestOffset.None?
    ensures d.Some? ==>
      d.value.sinceEpoch == s.latestOffset.value + wallTime + (uptimeAtRead - uptimeAtCapture)
  {
    match s.latestOffset
    case None => None
    case Some(offset) => Some(Date(AdjustedTimestamp(Capture(offset, wallTime, uptimeAtCapture), uptimeAtRead)))
  }

  /** What the clock can be asked to do: `reset`, the `offset` setter, and
      one report of the pool to the `sync` handler (offset so far, queries
      done, queries in total). */
  datatype Operation =
    | Reset
    | SetOffset(value: Option<real>)
    | Progress(offset: Option<real>, done: int, total: int)

  /** One operation: the new state, and the value `completion` is called
      with when the operation makes it fire. */
  function Step(s: Clock2State, op: Operation): (r: (Clock2State, Option<Option<real>>))
    ensures op.Reset? ==> r == (Clock2State(None), None)
    ensures op.SetOffset? ==> r == (Clock2State(op.value), None)
    ensures op.Progress? ==>
      && r.0.latestOffset == (if op.offset.Some? then op.offset else s.latestOffset)
      && (r.1.Some? <==> op.done == op.total)
      && (r.1.Some? ==> r.1.value == op.offset)
  {
    match op
    case Reset => (Clock2State(None), None)
    case SetOffset(value) => (Clock2State(value), None)
    case Progress(offset, done, total) =>
      var next := if offset.Some? then Clock2State(offset) else s;
      (next, if done == total then Some(offset) else None)
  }

  /** The state after a sequence of operations from `s`. */
  function Run(s: Clock2State, ops: seq<Operation>): Clock2State
    decreases |ops|
  {
    if |ops| == 0 then s else Step(Run(s, ops[..|ops| - 1]), ops[|ops| - 1]).0
  }

  /** The calls of `completion` during a sequence of operations. */
  function Completions(s: Clock2State, ops: seq<Operation>): seq<Option<real>>
    decreases |ops|
  {
    if |ops| == 0 then []
    else
      var r := Step(Run(s, ops[..|ops| - 1]), ops[|ops| - 1]);
      Completions(s, ops[..|ops| - 1]) + (if r.1.Some? then [r.1.value] else [])
  }

  /** Whether an operation writes the stored offset, and what it writes. */
  function Stores(op: Operation): Option<Option<real>> {
    match op
    case Reset => Some(None)
    case SetOffset(value) => Some(value)
    case Progress(offset, _, _) => if offset.Some? then Some(offset) else None
  }

  /** The value written by the last operation that writes one, or the
      starting value when none does. */
  function LastStored(start: Option<real>, ops: seq<Operation>): (v: Option<real>)
    ensures (forall i :: 0 <= i < |ops| ==> Stores(ops[i]).None?) ==> v == start
    ensures forall k ::
      (0 <= k < |ops| && Stores(ops[k]).Some? && forall i :: k < i < |ops| ==> Stores(ops[i]).None?) ==>
      v == Stores(ops[k]).value
    decreases |ops|
  {
    if |ops| == 0 then start
    else if Stores(ops[|ops| - 1]).Some? then Stores(ops[|ops| - 1]).value
    else
      var prefix := ops[..|ops| - 1];
      assert forall i :: 0 <= i < |prefix| ==> prefix[i] == ops[i];
      LastStored(start, prefix)
  }

  /** The getter returns the value of the last `reset`, setter call or
      answered report: unanswered reports never overwrite it. */
  lemma {:induction false} OffsetIsLastStored(s: Clock2State, ops: seq<Operation>)
    ensures GetOffset(Run(s, ops)) == LastStored(s.latestOffset, ops)
    decreases |ops|
  {
    if |ops| > 0 {
      OffsetIsLastStored(s, ops[..|ops| - 1]);
    }
  }

  /** After `reset`, `now` is nothing until an offset is stored again. */
  lemma ResetClearsNow(s: Clock2State, wallTime: real, uptimeAtCapture: real, uptimeAtRead: real)
    ensures Now(Step(s, Reset).0, wallTime, uptimeAtCapture, uptimeAtRead).None?
  {
  }

  /** `completion` fires once for each report with `done == total`, in
      order, with that report's offset, which may be nothing. */
  lemma {:induction false} CompletionsAreFinalReports(s: Clock2State, ops: seq<Operation>)
    ensures Completions(s, ops) == FinalReports(ops)
    decreases |ops|
  {
    if |ops| > 0 {
      CompletionsAreFinalReports(s, ops[..|ops| - 1]);
    }
  }

  /** The offsets of the reports with `done == total`, in order. */
  function FinalReports(ops: seq<Operation>): seq<Option<real>>
    decreases |ops|
  {
    if |ops| == 0 then []
    else
      var op := ops[|ops| - 1];
      FinalReports(ops[..|ops| - 1]) + (if op.Progress? && op.done == op.total then [op.offset] else [])
  }
}
