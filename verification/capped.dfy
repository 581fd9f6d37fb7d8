/** The byte-capped receiver of test.c: one blocking `recvfrom` that
    starts the clock (an error there ends the program), then a loop with a
    one-second receive timeout that runs while the payload total is below
    99999 * 1024 bytes.  A timeout retries; EINTR or any other error ends
    the loop.  The per-datagram accounting is the shared one. */
module Capped {
  import opened Ints
  import opened Optional
  import opened Wire
  import opened Receiver

  const ByteCap: nat := 99999 * 1024

  datatype CappedState = CappedState(phase: Phase, buffer: seq<uint8>, acct: Accounting)

  /** The first, blocking receive: any datagram, even an empty one, starts
      the clock; an error ends the program (None). */
  function CappedStart(buffer: seq<uint8>, first: RecvResult): (r: Option<CappedState>)
    requires |buffer| >= SeqWidth
    ensures r.Some? <==> first.Got?
    ensures r.Some? ==> r.value.phase == Measuring && r.value.acct == Fresh && |r.value.buffer| == |buffer|
    ensures r.Some? && |first.d.bytes| >= SeqWidth ==> ReadBe32(r.value.buffer) == ReadBe32(first.d.bytes)
  {
    match first
    case Got(d) =>
      DeliverDecodes(buffer, d.bytes);
      Some(CappedState(Measuring, Deliver(buffer, d.bytes).0, Fresh))
    case _ => None
  }

  /** Whether a pass absorbs the datagram it receives: the loop is still
      running, the cap not yet reached and `recvfrom` returned data. */
  predicate Absorbs(s: CappedState, r: RecvResult)
  {
    s.phase.Measuring? && s.acct.totalPayload < ByteCap && r.Got?
  }

  /** One pass of the loop: the cap is checked before receiving.  The
      payload never decreases and grows, by at most one buffer, only while
      it is below the cap; the overhead grows by 42 bytes exactly when a
      datagram is absorbed; a measuring loop stops only for the cap once
      the payload has reached it, or for an error other than a timeout. */
  function CappedStep(s: CappedState, r: RecvResult): (t: CappedState)
    requires |s.buffer| >= SeqWidth
    ensures |t.buffer| == |s.buffer|
    ensures s.phase.Stopped? ==> t == s
    ensures s.acct.totalPayload <= t.acct.totalPayload <= s.acct.totalPayload + |s.buffer|
    ensures t.acct.totalPayload > s.acct.totalPayload ==> s.acct.totalPayload < ByteCap
    ensures t.acct.totalTransmitted - t.acct.totalPayload ==
              s.acct.totalTransmitted - s.acct.totalPayload + (if Absorbs(s, r) then TotalHeaderSize else 0)
    ensures s.phase.Measuring? ==>
              (t.phase.Measuring? <==> s.acct.totalPayload < ByteCap && (r.Got? || r.WouldBlock?))
    ensures s.phase.Measuring? && t.phase.Stopped? ==>
              || (t.phase.reason == ByteCapReached && s.acct.totalPayload >= ByteCap)
              || (t.phase.reason == ReceiveFailed && (r.Interrupted? || r.Failed?))
    ensures Absorbs(s, r) ==> (t.buffer, t.acct) == Absorb(s.buffer, s.acct, r.d)
    ensures !Absorbs(s, r) ==> t.buffer == s.buffer && t.acct == s.acct
  {
    if s.phase.Stopped? then s
    else if s.acct.totalPayload >= ByteCap then s.(phase := Stopped(ByteCapReached))
    else
      match r
      case WouldBlock => s
      case Interrupted => s.(phase := Stopped(ReceiveFailed))
      case Failed => s.(phase := Stopped(ReceiveFailed))
      case Got(d) =>
        var (b, a) := Absorb(s.buffer, s.acct, d);
        CappedState(Measuring, b, a)
  }

  /** The loop over a series of polls: a stopped loop stays as it is, and
      the payload never decreases. */
  function CappedLoop(s: CappedState, rs: seq<RecvResult>): (t: CappedState)
    requires |s.buffer| >= SeqWidth
    ensures |t.buffer| == |s.buffer|
    ensures s.phase.Stopped? ==> t == s
    ensures s.acct.totalPayload <= t.acct.totalPayload
  {
    if |rs| == 0 then s
    else CappedStep(CappedLoop(s, rs[..|rs| - 1]), rs[|rs| - 1])
  }

  // ---------------------------------------------------------------------
  // Reference description of the loop

  /** Payload bytes counted for a series of datagrams received into a
      buffer of `size` bytes: each is truncated to the buffer. */
  function Payload(size: nat, ds: seq<Datagram>): nat
  {
    if |ds| == 0 then 0 else Payload(size, ds[..|ds| - 1]) + Min(|ds[|ds| - 1].bytes|, size)
  }

  /** Poll `i` ends the loop when the datagrams received before it already
      reach the cap, or when it is an error. */
  predicate CappedEnds(size: nat, rs: seq<RecvResult>, i: nat)
    requires i < |rs|
  {
    Payload(size, Received(rs[..i])) >= ByteCap || rs[i].Interrupted? || rs[i].Failed?
  }

  /** The first poll at or after `i` that ends the loop, or |rs|. */
  function StopFrom(size: nat, rs: seq<RecvResult>, i: nat): (k: nat)
    requires i <= |rs|
    ensures i <= k <= |rs|
    ensures forall j :: i <= j < k ==> !CappedEnds(size, rs, j)
    ensures k < |rs| ==> CappedEnds(size, rs, k)
    decreases |rs| - i
  {
    if i == |rs| then i
    else if CappedEnds(size, rs, i) then i
    else StopFrom(size, rs, i + 1)
  }

  function CappedStopIndex(size: nat, rs: seq<RecvResult>): (k: nat)
    ensures k <= |rs|
    ensures forall j :: 0 <= j < k ==> !CappedEnds(size, rs, j)
    ensures k < |rs| ==> CappedEnds(size, rs, k)
  {
    StopFrom(size, rs, 0)
  }

  function CappedReason(size: nat, rs: seq<RecvResult>, i: nat): StopReason
    requires i < |rs|
  {
    if Payload(size, Received(rs[..i])) >= ByteCap then ByteCapReached else ReceiveFailed
  }

  lemma {:induction false} PayloadOfIngest(buffer: seq<uint8>, ds: seq<Datagram>)
    requires |buffer| >= SeqWidth
    ensures PayloadSum(Ingest(buffer, ds).1) == Payload(|buffer|, ds)
  {
    if |ds| > 0 {
      PayloadOfIngest(buffer, ds[..|ds| - 1]);
      assert Ingest(buffer, ds).1[..|ds| - 1] == Ingest(buffer, ds[..|ds| - 1]).1;
    }
  }

  /** Ending is decided by what came before and the poll itself, so a
      longer trace agrees on every earlier index. */
  lemma CappedEndsPrefix(size: nat, rs: seq<RecvResult>)
    requires |rs| > 0
    ensures forall j :: 0 <= j < |rs| - 1 ==> (CappedEnds(size, rs, j) <==> CappedEnds(size, rs[..|rs| - 1], j))
  {
    var prefix := rs[..|rs| - 1];
    forall j | 0 <= j < |rs| - 1
      ensures CappedEnds(size, rs, j) <==> CappedEnds(size, prefix, j)
    {
      assert rs[..j] == prefix[..j];
      assert rs[j] == prefix[j];
    }
  }

  lemma CappedStopIndexSnoc(size: nat, rs: seq<RecvResult>)
    requires |rs| > 0
    ensures var k := CappedStopIndex(size, rs[..|rs| - 1]);
            CappedStopIndex(size, rs) == if k < |rs| - 1 || CappedEnds(size, rs, |rs| - 1) then k else |rs|
  {
    CappedEndsPrefix(size, rs);
    var k := CappedStopIndex(size, rs[..|rs| - 1]);
    if k < |rs| - 1 {
      assert CappedEnds(size, rs, k);
    }
  }

  /** The loop stops exactly at the first poll that ends it: for the cap
      when the payload received before it reaches 99999 * 1024 bytes,
      otherwise for the receive error; until then it is measuring. */
  lemma {:induction false} CappedLoopStops(s: CappedState, rs: seq<RecvResult>)
    requires |s.buffer| >= SeqWidth && s.phase == Measuring && s.acct == Fresh
    ensures var t := CappedLoop(s, rs);
            var k := CappedStopIndex(|s.buffer|, rs);
            && (t.phase.Measuring? <==> k == |rs|)
            && (k < |rs| ==> t.phase == Stopped(CappedReason(|s.buffer|, rs, k)))
  {
    if |rs| > 0 {
      var prefix := rs[..|rs| - 1];
      CappedLoopStops(s, prefix);
      CappedLoopAccounts(s, prefix);
      CappedStopIndexSnoc(|s.buffer|, rs);
      var k := CappedStopIndex(|s.buffer|, prefix);
      var before := CappedLoop(s, prefix);
      if k < |prefix| {
        assert rs[..k] == prefix[..k];
      } else {
        assert prefix[..k] == prefix;
        assert rs[..k] == prefix;
        AccountAllBytes(Ingest(s.buffer, Received(prefix)).1);
        PayloadOfIngest(s.buffer, Received(prefix));
        assert before.acct.totalPayload == Payload(|s.buffer|, Received(prefix));
      }
    }
  }

  /** The loop accounts exactly the datagrams received before the first
      poll that ends it, passed through the same buffer. */
  lemma {:induction false} CappedLoopAccounts(s: CappedState, rs: seq<RecvResult>)
    requires |s.buffer| >= SeqWidth && s.phase == Measuring && s.acct == Fresh
    ensures var t := CappedLoop(s, rs);
            var ing := Ingest(s.buffer, Received(rs[..CappedStopIndex(|s.buffer|, rs)]));
            t.buffer == ing.0 && t.acct == AccountAll(ing.1)
  {
    if |rs| > 0 {
      var prefix := rs[..|rs| - 1];
      var r := rs[|rs| - 1];
      CappedLoopAccounts(s, prefix);
      CappedLoopStops(s, prefix);
      CappedStopIndexSnoc(|s.buffer|, rs);
      var k := CappedStopIndex(|s.buffer|, prefix);
      var before := CappedLoop(s, prefix);
      var after := CappedLoop(s, rs);
      assert after == CappedStep(before, r);
      if k < |prefix| {
        assert rs[..k] == prefix[..k];
        assert after == before;
      } else if CappedEnds(|s.buffer|, rs, |prefix|) {
        assert prefix[..k] == prefix;
        assert rs[..k] == prefix;
        AccountAllBytes(Ingest(s.buffer, Received(prefix)).1);
        PayloadOfIngest(s.buffer, Received(prefix));
        assert after.buffer == before.buffer && after.acct == before.acct;
      } else {
        assert prefix[..k] == prefix;
        assert rs[..|rs|] == rs;
        CappedAccountsOneMore(s, rs);
      }
    }
  }

  /** A poll that does not end the loop, after polls that did not either,
      extends the accepted datagrams by what it received. */
  lemma CappedAccountsOneMore(s: CappedState, rs: seq<RecvResult>)
    requires |s.buffer| >= SeqWidth && |rs| > 0
    requires CappedStopIndex(|s.buffer|, rs[..|rs| - 1]) == |rs| - 1
    requires !CappedEnds(|s.buffer|, rs, |rs| - 1)
    requires var t := CappedLoop(s, rs[..|rs| - 1]);
             var ing := Ingest(s.buffer, Received(rs[..|rs| - 1]));
             t.phase == Measuring && t.buffer == ing.0 && t.acct == AccountAll(ing.1)
    ensures var t := CappedLoop(s, rs);
            var ing := Ingest(s.buffer, Received(rs));
            t.buffer == ing.0 && t.acct == AccountAll(ing.1)
  {
    var prefix := rs[..|rs| - 1];
    var r := rs[|rs| - 1];
    var before := CappedLoop(s, prefix);
    var after := CappedLoop(s, rs);
    assert after == CappedStep(before, r);
    var ds := Received(prefix);
    AccountAllBytes(Ingest(s.buffer, ds).1);
    PayloadOfIngest(s.buffer, ds);
    if r.Got? {
      assert Received(rs) == ds + [r.d];
      assert (after.buffer, after.acct) == Absorb(before.buffer, before.acct, r.d);
      AbsorbExtends(s.buffer, ds, r.d);
    } else {
      assert r.WouldBlock?;
      assert Received(rs) == ds;
      assert after == before;
    }
  }

  /** The payload total overshoots the cap by less than one buffer: the
      last datagram is accepted while the total is still below it. */
  lemma {:induction false} CappedPayloadBound(s: CappedState, rs: seq<RecvResult>)
    requires |s.buffer| >= SeqWidth && s.acct.totalPayload < ByteCap + |s.buffer|
    ensures CappedLoop(s, rs).acct.totalPayload < ByteCap + |s.buffer|
  {
    if |rs| > 0 {
      CappedPayloadBound(s, rs[..|rs| - 1]);
    }
  }

  /** The whole byte-capped receiver: None when the first receive fails. */
  function CappedRun(buffer: seq<uint8>, first: RecvResult, rs: seq<RecvResult>): (r: Option<CappedState>)
    requires |buffer| >= SeqWidth
    ensures r.Some? <==> first.Got?
    ensures r.Some? ==> r.value.acct.totalPayload < ByteCap + |buffer|
    ensures r.Some? ==>
              r.value.acct.totalTransmitted ==
              r.value.acct.totalPayload + TotalHeaderSize * |Received(rs[..CappedStopIndex(|buffer|, rs)])|
  {
    match CappedStart(buffer, first)
    case None => None
    case Some(s) =>
      CappedPayloadBound(s, rs);
      CappedLoopAccounts(s, rs);
      AccountAllBytes(Ingest(s.buffer, Received(rs[..CappedStopIndex(|buffer|, rs)])).1);
      Some(CappedLoop(s, rs))
  }
}
