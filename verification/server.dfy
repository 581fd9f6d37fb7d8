/** The duration-bounded receiver of server.c: the wait for the datagram
    that starts the clock, the non-blocking measurement loop that runs
    until the duration has elapsed or `recvfrom` fails, and the
    per-second buckets of running totals it keeps. */
module Server {
  import opened Ints
  import opened Optional
  import opened Wire
  import opened Loss
  import opened Receiver

  const UsPerSecond: nat := 1_000_000

  /** One pass of the measurement loop: the clock reading taken at the top
      of the loop (microseconds since the measurement started) and what
      `recvfrom` returned after it. */
  datatype Poll = Poll(elapsedUs: nat, result: RecvResult)

  /** A per-second record: the running totals and the mean jitter at the
      last datagram accounted during that second. */
  datatype Bucket = Bucket(timestamp: int, totalPayload: nat, totalTransmitted: nat, avgJitterUs: real)

  datatype ServerState = ServerState(
    phase: Phase,
    buffer: seq<uint8>,
    acct: Accounting,
    buckets: map<int, Bucket>)

  /** Number of per-second slots allocated for a run of `durationSec`. */
  function MaxSeconds(durationSec: int): int
  {
    durationSec + 2
  }

  function Snapshot(sec: int, a: Accounting): Bucket
  {
    Bucket(sec, a.totalPayload, a.totalTransmitted, a.jitter.mean)
  }

  /** A poll ends the measurement when the deadline has passed at the top
      of the loop, or when `recvfrom` failed with anything but "nothing
      ready". */
  predicate Ends(durationSec: int, p: Poll)
  {
    p.elapsedUs >= durationSec * UsPerSecond || p.result.Interrupted? || p.result.Failed?
  }

  /** The reason a poll that ends the measurement is recorded with: the
      deadline check comes before the receive. */
  function EndReason(durationSec: int, p: Poll): StopReason
  {
    if p.elapsedUs >= durationSec * UsPerSecond then DeadlineReached else ReceiveFailed
  }

  /** A second index below the duration: the loop only runs while the
      elapsed time is below it. */
  lemma SecondBelowDuration(elapsedUs: nat, durationSec: int)
    requires elapsedUs < durationSec * UsPerSecond
    ensures 0 <= elapsedUs / UsPerSecond < durationSec
  {
    var sec := elapsedUs / UsPerSecond;
    assert sec * UsPerSecond <= elapsedUs;
    assert (durationSec - sec) * UsPerSecond > 0;
  }

  /** One pass of the measurement loop.  A datagram is absorbed and the
      bucket of the current second is overwritten with the new totals; the
      `sec_index < max_seconds` guard never rejects a write, because the
      second index is below the duration. */
  function ServerStep(durationSec: int, s: ServerState, p: Poll): (r: ServerState)
    requires |s.buffer| >= SeqWidth
    ensures |r.buffer| == |s.buffer|
    ensures s.phase.Stopped? ==> r == s
    ensures s.phase.Measuring? && Ends(durationSec, p) ==>
              r == s.(phase := Stopped(EndReason(durationSec, p)))
    ensures s.phase.Measuring? && !Ends(durationSec, p) && p.result.WouldBlock? ==> r == s
    ensures s.phase.Measuring? && !Ends(durationSec, p) && p.result.Got? ==>
              var sec := p.elapsedUs / UsPerSecond;
              && r.phase == Measuring
              && (r.buffer, r.acct) == Absorb(s.buffer, s.acct, p.result.d)
              && r.buckets == s.buckets[sec := Snapshot(sec, r.acct)]
  {
    if s.phase.Stopped? then s
    else if p.elapsedUs >= durationSec * UsPerSecond then s.(phase := Stopped(DeadlineReached))
    else
      match p.result
      case WouldBlock => s
      case Interrupted => s.(phase := Stopped(ReceiveFailed))
      case Failed => s.(phase := Stopped(ReceiveFailed))
      case Got(d) =>
        var (b, a) := Absorb(s.buffer, s.acct, d);
        var sec := p.elapsedUs / UsPerSecond;
        SecondBelowDuration(p.elapsedUs, durationSec);
        var buckets := if sec < MaxSeconds(durationSec) then s.buckets[sec := Snapshot(sec, a)] else s.buckets;
        ServerState(Measuring, b, a, buckets)
  }

  /** The loop over a trace of polls, oldest first. */
  function ServerLoop(durationSec: int, s: ServerState, polls: seq<Poll>): (r: ServerState)
    requires |s.buffer| >= SeqWidth
    ensures |r.buffer| == |s.buffer|
  {
    if |polls| == 0 then s
    else ServerStep(durationSec, ServerLoop(durationSec, s, polls[..|polls| - 1]), polls[|polls| - 1])
  }

  /** The state right after the clock started: all counters zero, no
      bucket written, the buffer holding the datagram that started it. */
  function ServerStart(buffer: seq<uint8>): ServerState
  {
    ServerState(Measuring, buffer, Fresh, map[])
  }

  // ---------------------------------------------------------------------
  // Reference description of the loop

  /** Index of the first poll that ends the measurement, or |polls|. */
  function StopIndex(durationSec: int, polls: seq<Poll>): (k: nat)
    ensures k <= |polls|
    ensures forall i :: 0 <= i < k ==> !Ends(durationSec, polls[i])
    ensures k < |polls| ==> Ends(durationSec, polls[k])
  {
    if |polls| == 0 then 0
    else if Ends(durationSec, polls[0]) then 0
    else 1 + StopIndex(durationSec, polls[1..])
  }

  function Results(polls: seq<Poll>): seq<RecvResult>
  {
    seq(|polls|, i requires 0 <= i < |polls| => polls[i].result)
  }

  /** The datagrams the loop accounts: those received before the poll
      that ends it. */
  function Accepted(durationSec: int, polls: seq<Poll>): seq<Datagram>
  {
    Received(Results(polls[..StopIndex(durationSec, polls)]))
  }

  lemma StopIndexSnoc(durationSec: int, polls: seq<Poll>)
    requires |polls| > 0
    ensures var k := StopIndex(durationSec, polls[..|polls| - 1]);
            StopIndex(durationSec, polls) == if k < |polls| - 1 || Ends(durationSec, polls[|polls| - 1]) then k else |polls|
  {
    var prefix := polls[..|polls| - 1];
    var k := StopIndex(durationSec, prefix);
    assert forall i :: 0 <= i < |prefix| ==> prefix[i] == polls[i];
    if k < |prefix| {
      assert polls[k] == prefix[k];
    } else {
      forall i | 0 <= i < k
        ensures !Ends(durationSec, polls[i])
      {
        assert polls[i] == prefix[i];
      }
    }
  }

  lemma ResultsSnoc(polls: seq<Poll>)
    requires |polls| > 0
    ensures Received(Results(polls)) ==
              Received(Results(polls[..|polls| - 1])) +
              (if polls[|polls| - 1].result.Got? then [polls[|polls| - 1].result.d] else [])
  {
    assert Results(polls)[..|polls| - 1] == Results(polls[..|polls| - 1]);
  }

  /** The loop stops exactly at the first poll that ends it, for that
      poll's reason; until then it is measuring. */
  lemma {:induction false} ServerLoopStops(durationSec: int, buffer: seq<uint8>, polls: seq<Poll>)
    requires |buffer| >= SeqWidth
    ensures var r := ServerLoop(durationSec, ServerStart(buffer), polls);
            var k := StopIndex(durationSec, polls);
            && (r.phase.Measuring? <==> k == |polls|)
            && (k < |polls| ==> r.phase == Stopped(EndReason(durationSec, polls[k])))
  {
    if |polls| > 0 {
      var prefix := polls[..|polls| - 1];
      ServerLoopStops(durationSec, buffer, prefix);
      StopIndexSnoc(durationSec, polls);
      var k := StopIndex(durationSec, prefix);
      if k < |prefix| {
        assert polls[k] == prefix[k];
      }
    }
  }

  /** The loop accounts exactly the datagrams received before the first
      poll that ends it, passed through the same buffer. */
  lemma {:induction false} ServerLoopAccounts(durationSec: int, buffer: seq<uint8>, polls: seq<Poll>)
    requires |buffer| >= SeqWidth
    ensures var r := ServerLoop(durationSec, ServerStart(buffer), polls);
            var ing := Ingest(buffer, Accepted(durationSec, polls));
            && r.buffer == ing.0
            && r.acct == AccountAll(ing.1)
  {
    if |polls| > 0 {
      var prefix := polls[..|polls| - 1];
      var p := polls[|polls| - 1];
      ServerLoopAccounts(durationSec, buffer, prefix);
      ServerLoopStops(durationSec, buffer, prefix);
      StopIndexSnoc(durationSec, polls);
      var k := StopIndex(durationSec, prefix);
      var before := ServerLoop(durationSec, ServerStart(buffer), prefix);
      var after := ServerLoop(durationSec, ServerStart(buffer), polls);
      assert after == ServerStep(durationSec, before, p);
      if k < |prefix| {
        assert polls[..k] == prefix[..k];
        assert Accepted(durationSec, polls) == Accepted(durationSec, prefix);
        assert after == before;
      } else if Ends(durationSec, p) {
        assert polls[..k] == prefix;
        assert prefix[..k] == prefix;
        assert Accepted(durationSec, polls) == Accepted(durationSec, prefix);
        assert after.buffer == before.buffer && after.acct == before.acct;
      } else {
        assert prefix[..k] == prefix;
        AccountsOneMore(durationSec, buffer, polls);
      }
    }
  }

  /** Inductive step of ServerLoopAccounts when the last poll does not end
      the loop. */
  lemma AccountsOneMore(durationSec: int, buffer: seq<uint8>, polls: seq<Poll>)
    requires |buffer| >= SeqWidth && |polls| > 0
    requires StopIndex(durationSec, polls[..|polls| - 1]) == |polls| - 1
    requires !Ends(durationSec, polls[|polls| - 1])
    requires var r := ServerLoop(durationSec, ServerStart(buffer), polls[..|polls| - 1]);
             var ing := Ingest(buffer, Received(Results(polls[..|polls| - 1])));
             r.phase.Measuring? && r.buffer == ing.0 && r.acct == AccountAll(ing.1)
    ensures var r := ServerLoop(durationSec, ServerStart(buffer), polls);
            var ing := Ingest(buffer, Accepted(durationSec, polls));
            r.buffer == ing.0 && r.acct == AccountAll(ing.1)
  {
    var prefix := polls[..|polls| - 1];
    var p := polls[|polls| - 1];
    var before := ServerLoop(durationSec, ServerStart(buffer), prefix);
    var after := ServerLoop(durationSec, ServerStart(buffer), polls);
    assert after == ServerStep(durationSec, before, p);
    var ds := Received(Results(prefix));
    AcceptedOneMore(durationSec, polls);
    if p.result.Got? {
      var d := p.result.d;
      assert Accepted(durationSec, polls) == ds + [d];
      assert (after.buffer, after.acct) == Absorb(before.buffer, before.acct, d);
      AbsorbExtends(buffer, ds, d);
    } else {
      assert p.result.WouldBlock?;
      assert Accepted(durationSec, polls) == ds;
      assert after == before;
    }
  }

  /** A poll that does not end the loop, after polls that did not either,
      adds what it received to the accepted datagrams. */
  lemma AcceptedOneMore(durationSec: int, polls: seq<Poll>)
    requires |polls| > 0
    requires StopIndex(durationSec, polls[..|polls| - 1]) == |polls| - 1
    requires !Ends(durationSec, polls[|polls| - 1])
    ensures Accepted(durationSec, polls) ==
              Received(Results(polls[..|polls| - 1])) +
              (if polls[|polls| - 1].result.Got? then [polls[|polls| - 1].result.d] else [])
  {
    StopIndexSnoc(durationSec, polls);
    assert polls[..|polls|] == polls;
    ResultsSnoc(polls);
  }

  // ---------------------------------------------------------------------
  // Per-second buckets

  /** Every bucket belongs to a second below the duration (hence below
      `max_seconds`), carries its own index as timestamp and holds totals
      no larger than the current ones. */
  ghost predicate BucketsSound(durationSec: int, s: ServerState)
  {
    forall k :: k in s.buckets ==>
      && 0 <= k < durationSec
      && s.buckets[k].timestamp == k
      && s.buckets[k].totalPayload <= s.acct.totalPayload
      && s.buckets[k].totalTransmitted <= s.acct.totalTransmitted
  }

  lemma {:induction false} BucketsStaySound(durationSec: int, buffer: seq<uint8>, polls: seq<Poll>)
    requires |buffer| >= SeqWidth
    ensures BucketsSound(durationSec, ServerLoop(durationSec, ServerStart(buffer), polls))
    ensures forall k :: k in ServerLoop(durationSec, ServerStart(buffer), polls).buckets ==> k < MaxSeconds(durationSec)
  {
    if |polls| > 0 {
      BucketsStaySound(durationSec, buffer, polls[..|polls| - 1]);
      var p := polls[|polls| - 1];
      if p.elapsedUs < durationSec * UsPerSecond {
        SecondBelowDuration(p.elapsedUs, durationSec);
      }
    }
  }

  /** Clock readings at the top of the loop never go backwards. */
  ghost predicate ClockMonotone(polls: seq<Poll>)
  {
    forall i, j :: 0 <= i < j < |polls| ==> polls[i].elapsedUs <= polls[j].elapsedUs
  }

  /** Buckets of later seconds hold totals at least those of earlier ones. */
  ghost predicate BucketsOrdered(s: ServerState)
  {
    forall k1, k2 :: k1 in s.buckets && k2 in s.buckets && k1 <= k2 ==>
      && s.buckets[k1].totalPayload <= s.buckets[k2].totalPayload
      && s.buckets[k1].totalTransmitted <= s.buckets[k2].totalTransmitted
  }

  lemma DivMonotone(a: nat, b: nat)
    requires a <= b
    ensures a / UsPerSecond <= b / UsPerSecond
  {
  }

  /** With a clock that does not go backwards, a bucket written later (for
      a later second) holds totals at least those of every earlier one, and
      no bucket lies past the second of the latest clock reading. */
  lemma {:induction false} BucketsMonotone(durationSec: int, buffer: seq<uint8>, polls: seq<Poll>)
    requires |buffer| >= SeqWidth
    requires ClockMonotone(polls)
    ensures BucketsOrdered(ServerLoop(durationSec, ServerStart(buffer), polls))
    ensures |polls| > 0 ==> forall k :: k in ServerLoop(durationSec, ServerStart(buffer), polls).buckets ==>
              k <= polls[|polls| - 1].elapsedUs / UsPerSecond
  {
    if |polls| > 0 {
      var prefix := polls[..|polls| - 1];
      var p := polls[|polls| - 1];
      assert ClockMonotone(prefix);
      BucketsMonotone(durationSec, buffer, prefix);
      BucketsStaySound(durationSec, buffer, prefix);
      var s := ServerLoop(durationSec, ServerStart(buffer), prefix);
      if |prefix| > 0 {
        DivMonotone(prefix[|prefix| - 1].elapsedUs, p.elapsedUs);
      }
    }
  }

  // ---------------------------------------------------------------------
  // Waiting for the first datagram

  /** Index of the first datagram with at least one byte, or |waits|. */
  function FirstNonEmpty(waits: seq<RecvResult>): (k: nat)
    ensures k <= |waits|
    ensures forall i :: 0 <= i < k ==> !(waits[i].Got? && |waits[i].d.bytes| > 0)
    ensures k < |waits| ==> waits[k].Got? && |waits[k].d.bytes| > 0
  {
    if |waits| == 0 then 0
    else if waits[0].Got? && |waits[0].d.bytes| > 0 then 0
    else 1 + FirstNonEmpty(waits[1..])
  }

  /** The initial wait, poll by poll: it spins until `recvfrom` returns a
      positive count, ignoring errors and empty datagrams.  Returns the
      buffer and whether the wait is over. */
  function Await(buffer: seq<uint8>, waits: seq<RecvResult>): (r: (seq<uint8>, bool))
    requires |buffer| >= SeqWidth
    ensures |r.0| == |buffer|
  {
    if |waits| == 0 then (buffer, false)
    else
      var (b, done) := Await(buffer, waits[..|waits| - 1]);
      if done then (b, done)
      else match waits[|waits| - 1]
        case Got(d) =>
          var (b', n) := Deliver(b, d.bytes);
          (b', n > 0)
        case _ => (b, false)
  }

  /** The wait is over exactly when a non-empty datagram has arrived, and
      then the buffer holds that first datagram; empty datagrams and errors
      before it leave no trace. */
  lemma {:induction false} AwaitStopsAtFirstDatagram(buffer: seq<uint8>, waits: seq<RecvResult>)
    requires |buffer| >= SeqWidth
    ensures Await(buffer, waits).1 <==> FirstNonEmpty(waits) < |waits|
    ensures var k := FirstNonEmpty(waits);
            Await(buffer, waits).0 == if k < |waits| then Deliver(buffer, waits[k].d.bytes).0 else buffer
  {
    if |waits| > 0 {
      var prefix := waits[..|waits| - 1];
      AwaitStopsAtFirstDatagram(buffer, prefix);
      var k := FirstNonEmpty(prefix);
      assert forall i :: 0 <= i < |prefix| ==> prefix[i] == waits[i];
      if k < |prefix| {
        assert waits[k] == prefix[k];
      } else {
        forall i | 0 <= i < k
          ensures !(waits[i].Got? && |waits[i].d.bytes| > 0)
        {
          assert waits[i] == prefix[i];
        }
        var w := waits[|waits| - 1];
        if w.Got? {
          DeliverDecodes(buffer, w.d.bytes);
        }
      }
    }
  }

  /** The whole receiver: the initial wait, then the measurement loop from
      fresh counters.  None while the wait is not over; otherwise the
      counters are exactly those of the datagrams the loop accepts, received
      into the buffer the first non-empty datagram left behind, which is
      itself not counted. */
  function ServerRun(durationSec: int, buffer: seq<uint8>, waits: seq<RecvResult>, polls: seq<Poll>): (r: Option<ServerState>)
    requires |buffer| >= SeqWidth
    ensures r.Some? <==> FirstNonEmpty(waits) < |waits|
    ensures r.Some? ==> |r.value.buffer| == |buffer|
    ensures r.Some? ==>
              var first := Deliver(buffer, waits[FirstNonEmpty(waits)].d.bytes).0;
              var ing := Ingest(first, Accepted(durationSec, polls));
              && r.value.buffer == ing.0
              && r.value.acct == AccountAll(ing.1)
              && (r.value.phase.Measuring? <==> StopIndex(durationSec, polls) == |polls|)
  {
    AwaitStopsAtFirstDatagram(buffer, waits);
    var (b, started) := Await(buffer, waits);
    if started then
      ServerLoopAccounts(durationSec, b, polls);
      ServerLoopStops(durationSec, b, polls);
      Some(ServerLoop(durationSec, ServerStart(b), polls))
    else None
  }

  /** The datagram that starts the clock is not accounted: a sender that
      numbers its frames from 0 and loses nothing has its frame 0 consumed
      by the wait and frames 1..n accounted against an expectation of 0, so
      the receiver reports exactly one lost datagram. */
  lemma LosslessRunReportsOneLoss(
    durationSec: int, buffer: seq<uint8>, packetSize: nat, startedAt: int, polls: seq<Poll>)
    requires |buffer| >= SeqWidth && packetSize >= SeqWidth
    requires 0 < |polls| < TWO_32 - 1
    requires forall i :: 0 <= i < |polls| ==>
               polls[i].elapsedUs < durationSec * UsPerSecond && polls[i].result.Got? &&
               polls[i].result.d.bytes == DataFrame(packetSize, (i + 1) as uint32)
    ensures var r := ServerRun(durationSec, buffer, [Got(Datagram(DataFrame(packetSize, 0), startedAt))], polls);
            r.Some? && r.value.acct.loss.lost == 1
  {
    var waits := [Got(Datagram(DataFrame(packetSize, 0), startedAt))];
    DataFrameLayout(packetSize, 0);
    assert FirstNonEmpty(waits) == 0;
    var b := Deliver(buffer, waits[0].d.bytes).0;
    var ds := AllAccepted(durationSec, polls);
    var xs := Ingest(b, ds).1;
    FramesDecodeInOrder(b, packetSize, ds);
    AccountAllLoss(xs);
    LosslessAfterDiscardedFirst(SeqNos(xs));
  }

  /** When no poll ends the loop and each delivers a datagram, the loop
      accepts all of them. */
  lemma AllAccepted(durationSec: int, polls: seq<Poll>) returns (ds: seq<Datagram>)
    requires forall i :: 0 <= i < |polls| ==> !Ends(durationSec, polls[i]) && polls[i].result.Got?
    ensures ds == Accepted(durationSec, polls)
    ensures |ds| == |polls| && forall i :: 0 <= i < |polls| ==> ds[i] == polls[i].result.d
  {
    var k := StopIndex(durationSec, polls);
    assert polls[..k] == polls;
    ReceivedAllGot(polls);
    ds := Accepted(durationSec, polls);
  }

  /** Frames stamped 1, 2, ... through the buffer decode in that order. */
  lemma FramesDecodeInOrder(buffer: seq<uint8>, packetSize: nat, ds: seq<Datagram>)
    requires |buffer| >= SeqWidth && packetSize >= SeqWidth
    requires |ds| < TWO_32 - 1
    requires forall i :: 0 <= i < |ds| ==> ds[i].bytes == DataFrame(packetSize, (i + 1) as uint32)
    ensures forall i :: 0 <= i < |ds| ==> SeqNos(Ingest(buffer, ds).1)[i] as int == i + 1
  {
    var xs := Ingest(buffer, ds).1;
    forall i | 0 <= i < |ds|
      ensures SeqNos(xs)[i] as int == i + 1
    {
      DataFrameLayout(packetSize, (i + 1) as uint32);
    }
  }

  lemma {:induction false} ReceivedAllGot(polls: seq<Poll>)
    requires forall i :: 0 <= i < |polls| ==> polls[i].result.Got?
    ensures |Received(Results(polls))| == |polls|
    ensures forall i :: 0 <= i < |polls| ==> Received(Results(polls))[i] == polls[i].result.d
  {
    if |polls| > 0 {
      ReceivedAllGot(polls[..|polls| - 1]);
      ResultsSnoc(polls);
    }
  }
}
