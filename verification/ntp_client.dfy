/** The NTP client session: which replies it accepts, how it folds the
    completed queries of a pool into per-server samples, and how it picks
    one clock offset from them.

    Sockets, name resolution, run-loop timers and the ordering of
    callbacks are not modelled: a query is the bytes of its reply (or
    nothing, when it timed out or failed), and the completions of a pool
    arrive as a sequence of events. */
module NtpClient {
  import opened Wrappers
  import opened Bytes
  import opened NtpProtocol
  import opened NtpPacket

  /** Seconds each query may take before its completion receives nothing. */
  const DefaultTimeout: real := 5.0
  /** Queries sent to each resolved address. */
  const DefaultSamples: nat := 4
  const DefaultVersion: int8 := 3
  const DefaultPort: nat := 123
  const DefaultPool: string := "time.apple.com"

  // ---------------------------------------------------------------------
  // Accepting a reply (`queryIP`).

  /** The packet `queryIP` hands to its completion: nothing when no reply
      arrived (`data` is `None`, also the timer's case), when the reply
      does not decode, or when it fails `isValidResponse(forVersion:)`. */
  function AcceptReply(data: Option<seq<uint8>>, destinationTime: real, version: int8): (r: Option<Packet>)
    ensures r.Some? <==>
      && data.Some? && |data.value| >= HeaderLength
      && (data.value[0] / 8) % 8 == version
      && (data.value[0] % 8 == 4 || data.value[0] % 8 == 2)
      && data.value[0] / 64 != 3
      && 1 <= data.value[1] <= 14
      && (destinationTime - WireTimestamp(data.value, 24))
         - (WireTimestamp(data.value, 40) - WireTimestamp(data.value, 32)) > 0.0
    ensures r.Some? ==> Success(r.value) == Decode(data.value, destinationTime)
    ensures r.Some? ==> IsValidResponseForVersion(r.value, version)
  {
    match data
    case None => None
    case Some(bytes) =>
      ValidReplyOnTheWire(bytes, destinationTime, version);
      match Decode(bytes, destinationTime)
      case Failure(_) => None
      case Success(p) => if IsValidResponseForVersion(p, version) then Some(p) else None
  }

  // ---------------------------------------------------------------------
  // Selecting the offset (`offsetFromResponses`).

  /** `x` is the packet `minElement` by delay returns from `ps`: it has the
      least delay, and every packet before it has a strictly larger one. */
  predicate IsFirstMinimum(ps: seq<Packet>, i: int) {
    && 0 <= i < |ps|
    && (forall j :: 0 <= j < |ps| ==> Delay(ps[i]) <= Delay(ps[j]))
    && (forall j :: 0 <= j < i ==> Delay(ps[i]) < Delay(ps[j]))
  }

  /** `minElement { $0.delay < $1.delay }`: scanning left to right, a packet
      replaces the current best only when its delay is strictly smaller. */
  function MinDelayIndex(ps: seq<Packet>): (i: nat)
    requires |ps| > 0
    ensures IsFirstMinimum(ps, i)
  {
    if |ps| == 1 then 0
    else
      var k := MinDelayIndex(ps[..|ps| - 1]);
      if Delay(ps[|ps| - 1]) < Delay(ps[k]) then |ps| - 1 else k
  }

  /** There is only one first minimum, so the scan finds the earliest of
      the packets tied for the least delay. */
  lemma FirstMinimumUnique(ps: seq<Packet>, i: int, j: int)
    requires IsFirstMinimum(ps, i) && IsFirstMinimum(ps, j)
    ensures i == j
  {
    assert Delay(ps[i]) == Delay(ps[j]);
  }

  /** The lists that have at least one packet, in their original order. */
  function Answered(responses: seq<seq<Packet>>): (r: seq<seq<Packet>>)
    ensures |r| <= |responses|
    ensures forall k :: 0 <= k < |r| ==> |r[k]| > 0
    ensures |r| == 0 <==> forall i :: 0 <= i < |responses| ==> |responses[i]| == 0
    ensures forall k :: 0 <= k < |r| ==> r[k] in responses
  {
    if |responses| == 0 then []
    else
      var rest := Answered(responses[1..]);
      assert forall i :: 1 <= i < |responses| ==> responses[i] == responses[1..][i - 1];
      if |responses[0]| == 0 then rest else [responses[0]] + rest
  }

  /** Dropping the empty lists of two runs of servers one after the other
      is dropping them from each run. */
  lemma {:induction false} AnsweredAppend(xs: seq<seq<Packet>>, ys: seq<seq<Packet>>)
    ensures Answered(xs + ys) == Answered(xs) + Answered(ys)
  {
    if |xs| == 0 {
      assert xs + ys == ys;
    } else {
      assert (xs + ys)[1..] == xs[1..] + ys;
      AnsweredAppend(xs[1..], ys);
    }
  }

  /** A server that answered keeps its place: its list comes right after
      those of the servers before it that answered. */
  lemma {:induction false} AnsweredKeepsOrder(responses: seq<seq<Packet>>, i: int)
    requires 0 <= i < |responses| && |responses[i]| > 0
    ensures |Answered(responses[..i])| < |Answered(responses)|
    ensures Answered(responses)[|Answered(responses[..i])|] == responses[i]
  {
    var single := [responses[i]];
    assert responses == responses[..i] + (single + responses[i + 1..]);
    AnsweredAppend(responses[..i], single + responses[i + 1..]);
    AnsweredAppend(single, responses[i + 1..]);
    assert Answered(single) == single by {
      assert single[1..] == [];
    }
  }

  /** The `flatMap` step: each server's minimum-delay packet, servers
      without packets dropped, order kept. */
  function BestResponses(responses: seq<seq<Packet>>): (best: seq<Packet>)
    ensures |best| == |Answered(responses)|
    ensures forall k :: 0 <= k < |best| ==>
      best[k] == Answered(responses)[k][MinDelayIndex(Answered(responses)[k])]
  {
    if |responses| == 0 then []
    else
      var rest := BestResponses(responses[1..]);
      if |responses[0]| == 0 then
        assert Answered(responses) == Answered(responses[1..]);
        rest
      else
        var i := MinDelayIndex(responses[0]);
        assert Answered(responses) == [responses[0]] + Answered(responses[1..]);
        [responses[0][i]] + rest
  }

  /** `offsetFromResponses`: nothing when no server has answered; otherwise
      the offset of the middle element (index `n / 2`) of the best packets,
      taken in the order of the servers, without sorting by offset. */
  function OffsetFromResponses(responses: seq<seq<Packet>>): (r: Option<real>)
    ensures r.None? <==> forall i :: 0 <= i < |responses| ==> |responses[i]| == 0
    ensures r.Some? ==>
      var answered := Answered(responses);
      var middle := answered[|answered| / 2];
      r.value == Offset(middle[MinDelayIndex(middle)])
  {
    var best := BestResponses(responses);
    if |best| > 0 then
      Some(Offset(best[|best| / 2]))
    else None
  }

  /** Whatever the order of the servers, the offset chosen is the offset of
      some server's minimum-delay packet. */
  lemma {:induction false} OffsetComesFromSomeServer(responses: seq<seq<Packet>>)
    requires OffsetFromResponses(responses).Some?
    ensures exists s, i ::
      && 0 <= s < |responses| && IsFirstMinimum(responses[s], i)
      && OffsetFromResponses(responses).value == Offset(responses[s][i])
  {
    var answered := Answered(responses);
    var middle := answered[|answered| / 2];
    var i := MinDelayIndex(middle);
    assert middle in responses;
    var s :| 0 <= s < |responses| && responses[s] == middle;
  }

  /** When every server has answered, none is dropped. */
  lemma {:induction false} AllAnswered(responses: seq<seq<Packet>>)
    requires forall i :: 0 <= i < |responses| ==> |responses[i]| > 0
    ensures Answered(responses) == responses
  {
    if |responses| > 0 {
      var rest := responses[1..];
      assert forall i :: 0 <= i < |rest| ==> rest[i] == responses[i + 1];
      AllAnswered(rest);
      assert |responses[0]| > 0;
      assert Answered(responses) == [responses[0]] + Answered(rest);
      assert responses == [responses[0]] + rest;
    }
  }

  /** A reply from `SampleReply` sent at 0 and received back at 0 whose
      server stamped `t` on both ends: zero delay, offset `t`. */
  function Stamped(t: real): Packet {
    SampleReply(3, 0.0, 0.0, t, t, 0.0)
  }

  /** With one packet per server, the middle server's packet is chosen. */
  lemma ThreeServersMiddle(p: Packet, q: Packet, r: Packet)
    ensures OffsetFromResponses([[p], [q], [r]]) == Some(Offset(q))
  {
    var responses := [[p], [q], [r]];
    assert |responses[0]| > 0 && |responses[1]| > 0 && |responses[2]| > 0;
    AllAnswered(responses);
    var answered := Answered(responses);
    assert |answered| / 2 == 1;
    assert answered[1] == [q];
    assert MinDelayIndex([q]) == 0;
    assert OffsetFromResponses(responses).Some?;
  }

  /** The selection is not a median: with three servers whose offsets are
      0, 10 and 1 in that order, the middle server's 10 is chosen, while
      the median offset is 1. */
  lemma MiddleIsNotMedian(p: Packet, q: Packet, r: Packet)
    requires p == Stamped(0.0) && q == Stamped(10.0) && r == Stamped(1.0)
    ensures Offset(p) == 0.0 && Offset(q) == 10.0 && Offset(r) == 1.0
    ensures OffsetFromResponses([[p], [q], [r]]) == Some(10.0)
  {
    StampedOffset(0.0);
    StampedOffset(10.0);
    StampedOffset(1.0);
    ThreeServersMiddle(p, q, r);
  }

  /** The server's stamp is the offset, and the exchange took no time. */
  lemma StampedOffset(t: real)
    ensures Delay(Stamped(t)) == 0.0 && Offset(Stamped(t)) == t
  {
  }

  // ---------------------------------------------------------------------
  // Aggregating a pool (`queryPool`).

  /** One completed query: the address asked and the packet accepted, if any. */
  datatype Completion = Completion(address: string, packet: Option<Packet>)

  /** The `servers` dictionary: packets by address, with `order` listing the
      addresses in the order they first answered, which stands for the
      dictionary's own iteration order. */
  datatype Samples = Samples(order: seq<string>, packets: map<string, seq<Packet>>)

  const NoSamples: Samples := Samples([], map[])

  /** The dictionary as the pool keeps it: each address listed once, listed
      exactly when it has an entry, and an entry only once a packet for it
      has arrived. */
  ghost predicate WellFormed(s: Samples) {
    && (forall i, j :: 0 <= i < j < |s.order| ==> s.order[i] != s.order[j])
    && (forall a :: a in s.packets <==> a in s.order)
    && (forall a :: a in s.packets ==> |s.packets[a]| > 0)
  }

  /** The packets stored for an address, none when it has no entry. */
  function Stored(s: Samples, address: string): seq<Packet> {
    if address in s.packets then s.packets[address] else []
  }

  /** The body of the completion handler: an accepted packet is appended to
      its address's list, creating the entry when there is none; a failed
      query changes nothing. */
  function Record(s: Samples, c: Completion): (r: Samples)
    ensures c.packet.None? ==> r == s
    ensures c.packet.Some? ==> Stored(r, c.address) == Stored(s, c.address) + [c.packet.value]
    ensures forall a :: a != c.address ==> Stored(r, a) == Stored(s, a)
    ensures forall a :: a in s.packets ==> a in r.packets
    ensures WellFormed(s) ==> WellFormed(r)
  {
    match c.packet
    case None => s
    case Some(p) =>
      if c.address in s.packets then
        Samples(s.order, s.packets[c.address := s.packets[c.address] + [p]])
      else
        Samples(s.order + [c.address], s.packets[c.address := [p]])
  }

  /** The dictionary after a sequence of completions. */
  function Fold(s: Samples, events: seq<Completion>): (r: Samples)
    ensures WellFormed(s) ==> WellFormed(r)
    decreases |events|
  {
    if |events| == 0 then s
    else Record(Fold(s, events[..|events| - 1]), events[|events| - 1])
  }

  /** `Array(servers.values)`. */
  function Values(s: Samples): (r: seq<seq<Packet>>)
    requires WellFormed(s)
    ensures |r| == |s.order|
    ensures forall i :: 0 <= i < |r| ==> r[i] == s.packets[s.order[i]]
  {
    seq(|s.order|, i requires 0 <= i < |s.order| => s.packets[s.order[i]])
  }

  /** The packets accepted from `address`, in the order they arrived. */
  function AcceptedFrom(events: seq<Completion>, address: string): seq<Packet>
    decreases |events|
  {
    if |events| == 0 then []
    else
      var e := events[|events| - 1];
      AcceptedFrom(events[..|events| - 1], address)
        + (if e.address == address && e.packet.Some? then [e.packet.value] else [])
  }

  /** No accepted packet is lost, duplicated or moved: each address ends
      with exactly the packets accepted from it, in arrival order. */
  lemma {:induction false} FoldKeepsEveryPacket(events: seq<Completion>, address: string)
    ensures Stored(Fold(NoSamples, events), address) == AcceptedFrom(events, address)
    decreases |events|
  {
    if |events| > 0 {
      FoldKeepsEveryPacket(events[..|events| - 1], address);
    }
  }

  /** One more completion folds into the dictionary built from the ones before it. */
  lemma FoldStep(events: seq<Completion>, n: nat)
    requires n < |events|
    ensures Fold(NoSamples, events[..n + 1]) == Record(Fold(NoSamples, events[..n]), events[n])
  {
    assert events[..n + 1][..n] == events[..n];
  }

  /** The offset reported to `progress` once the first `n` completions are in. */
  function ProgressAfter(events: seq<Completion>, n: nat): Option<real>
    requires n <= |events|
  {
    OffsetFromResponses(Values(Fold(NoSamples, events[..n])))
  }

  /** The report after completion `n` is computed from the dictionary as it
      stood before that completion, updated by it. */
  lemma ProgressStep(events: seq<Completion>, n: nat, servers: Samples)
    requires n < |events|
    requires servers == Fold(NoSamples, events[..n])
    ensures WellFormed(Record(servers, events[n]))
    ensures ProgressAfter(events, n + 1) == OffsetFromResponses(Values(Record(servers, events[n])))
  {
    FoldStep(events, n);
  }

  /** The reports for the first `n` completions, one per completion. */
  ghost predicate ReportsSoFar(events: seq<Completion>, reports: seq<Option<real>>, n: nat)
    requires n <= |events|
  {
    |reports| == n && forall k :: 0 <= k < n ==> reports[k] == ProgressAfter(events, k + 1)
  }

  /** Appending the report for completion `n` extends the reports so far. */
  lemma ReportsStep(events: seq<Completion>, reports: seq<Option<real>>, n: nat, report: Option<real>)
    requires n < |events| && ReportsSoFar(events, reports, n)
    requires report == ProgressAfter(events, n + 1)
    ensures ReportsSoFar(events, reports + [report], n + 1)
  {
    var extended := reports + [report];
    assert extended[..n] == reports;
    assert extended[n] == report;
    forall k | 0 <= k < n + 1
      ensures extended[k] == ProgressAfter(events, k + 1)
    {
      if k < n {
        assert extended[k] == extended[..n][k];
      }
    }
  }

  /** The completions of a pool in the order they arrive: the dictionary
      they build, and the value passed to `progress` after each one, failed
      queries included (the report is deferred past the early return). */
  method RunPool(events: seq<Completion>) returns (servers: Samples, reports: seq<Option<real>>)
    ensures servers == Fold(NoSamples, events) && WellFormed(servers)
    ensures |reports| == |events|
    ensures forall k :: 0 <= k < |events| ==> reports[k] == ProgressAfter(events, k + 1)
  {
    servers := NoSamples;
    reports := [];
    var n := 0;
    while n < |events|
      invariant 0 <= n <= |events|
      invariant servers == Fold(NoSamples, events[..n]) && WellFormed(servers)
      invariant ReportsSoFar(events, reports, n)
    {
      ProgressStep(events, n, servers);
      FoldStep(events, n);
      servers := Record(servers, events[n]);
      var report := OffsetFromResponses(Values(servers));
      ReportsStep(events, reports, n, report);
      reports := reports + [report];
      n := n + 1;
    }
    assert events[..n] == events;
  }

  /** Once some query has been accepted, every later report has an offset:
      the dictionary never loses an entry. */
  lemma ReportsOnceAnswered(events: seq<Completion>, k: int)
    requires 0 <= k < |events| && events[k].packet.Some?
    ensures forall n :: k < n <= |events| ==> ProgressAfter(events, n).Some?
  {
    forall n | k < n <= |events|
      ensures ProgressAfter(events, n).Some?
    {
      var a := events[k].address;
      var s := Fold(NoSamples, events[..n]);
      FoldKeepsEveryPacket(events[..n], a);
      AcceptedFromIncludes(events[..n], k);
      assert a in s.order;
      var i :| 0 <= i < |s.order| && s.order[i] == a;
      assert |Values(s)[i]| > 0;
    }
  }

  /** An accepted completion is among the packets accepted from its address. */
  lemma {:induction false} AcceptedFromIncludes(events: seq<Completion>, k: int)
    requires 0 <= k < |events| && events[k].packet.Some?
    ensures |AcceptedFrom(events, events[k].address)| > 0
    decreases |events|
  {
    if k < |events| - 1 {
      assert events[..|events| - 1][k] == events[k];
      AcceptedFromIncludes(events[..|events| - 1], k);
    }
  }

  /** The addresses `queryPool` queries, as `numberOfSamples` rounds over
      all resolved addresses. */
  function Rounds(addresses: seq<string>, samples: nat): seq<string> {
    if samples == 0 then [] else Rounds(addresses, samples - 1) + addresses
  }

  /** Every address is queried once per round: `numberOfSamples` times,
      times the number of times the resolver listed it. */
  lemma {:induction false} RoundsQueryEachAddress(addresses: seq<string>, samples: nat, a: string)
    ensures |Rounds(addresses, samples)| == samples * |addresses|
    ensures multiset(Rounds(addresses, samples))[a] == samples * multiset(addresses)[a]
  {
    if samples > 0 {
      RoundsQueryEachAddress(addresses, samples - 1, a);
      var before := Rounds(addresses, samples - 1);
      assert multiset(Rounds(addresses, samples)) == multiset(before) + multiset(addresses);
      NextRound(samples, |addresses|);
      NextRound(samples, multiset(addresses)[a]);
    }
  }

  lemma NextRound(samples: nat, count: nat)
    requires samples > 0
    ensures (samples - 1) * count + count == samples * count
  {
  }

  /** The nested loops of `queryPool`, issuing one query per address per round. */
  method QueryPlan(addresses: seq<string>, samples: nat) returns (plan: seq<string>)
    ensures plan == Rounds(addresses, samples)
  {
    plan := [];
    var round := 0;
    while round < samples
      invariant 0 <= round <= samples
      invariant plan == Rounds(addresses, round)
    {
      var j := 0;
      while j < |addresses|
        invariant 0 <= j <= |addresses|
        invariant plan == Rounds(addresses, round) + addresses[..j]
      {
        plan := plan + [addresses[j]];
        j := j + 1;
      }
      round := round + 1;
    }
  }
}
