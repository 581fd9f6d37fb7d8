/** The paced sender of client.c: a busy loop over clock readings that
    sends one frame whenever the clock has reached the next due time, until
    the duration has elapsed or a send fails.  Due times follow an absolute
    schedule: after `n` frames the next is due at `n * time_per_packet`. */
module Pacing {
  import opened Ints
  import opened Wire

  /** The sender's parameters: payload bytes per frame, target bandwidth in
      bits per second and duration in seconds. */
  datatype SenderConfig = SenderConfig(packetSize: nat, bandwidthBps: nat, durationSec: real)

  /** The frame must hold the 4-byte sequence number, and the bandwidth is
      a divisor. */
  predicate ValidConfig(c: SenderConfig)
  {
    c.packetSize >= SeqWidth && c.bandwidthBps > 0
  }

  /** Bytes a frame occupies on the wire, headers included. */
  function FrameSize(c: SenderConfig): nat
  {
    c.packetSize + TotalHeaderSize
  }

  /** Bits a frame occupies on the wire. */
  function FrameBits(c: SenderConfig): nat
  {
    FrameSize(c) * 8
  }

  /** Seconds between frames at the target bandwidth. */
  function TimePerPacket(c: SenderConfig): real
    requires c.bandwidthBps > 0
  {
    FrameBits(c) as real / c.bandwidthBps as real
  }

  /** One pass of the loop: the clock reading (seconds since start) and
      whether a `sendto` issued in this pass would succeed. */
  datatype Tick = Tick(elapsed: real, sendOk: bool)

  /** A frame handed to the network and the clock reading it went out at. */
  datatype Sent = Sent(frame: seq<uint8>, at: real)

  datatype SenderPhase = Sending | Finished | SendFailed

  datatype SenderState = SenderState(
    phase: SenderPhase,
    nextSeq: uint32,
    packetsSent: nat,
    totalBitsSent: nat,
    nextSendTime: real,
    frame: seq<uint8>,
    wire: seq<Sent>)

  /** Before the loop: the frame buffer holds the fill pattern and the
      first frame is due at time 0. */
  function SenderStart(c: SenderConfig): SenderState
  {
    SenderState(Sending, 0, 0, 0, 0.0, FillPattern(c.packetSize), [])
  }

  /** One pass of the loop.  The sequence number is stamped and incremented
      before the send, so a failed send has consumed it too. */
  function SenderStep(c: SenderConfig, s: SenderState, t: Tick): (r: SenderState)
    requires ValidConfig(c) && |s.frame| == c.packetSize
    ensures |r.frame| == c.packetSize
    ensures s.phase != Sending ==> r == s
    ensures r.packetsSent == s.packetsSent || r.packetsSent == s.packetsSent + 1
    ensures s.wire <= r.wire
  {
    if s.phase != Sending then s
    else if t.elapsed >= c.durationSec then s.(phase := Finished)
    else if t.elapsed >= s.nextSendTime then
      var frame := Stamp(s.frame, s.nextSeq);
      var nextSeq := Wrap32(s.nextSeq as int + 1);
      if !t.sendOk then s.(phase := SendFailed, nextSeq := nextSeq, frame := frame)
      else
        var n := s.packetsSent + 1;
        SenderState(Sending, nextSeq, n, s.totalBitsSent + FrameBits(c),
                    n as real * TimePerPacket(c), frame, s.wire + [Sent(frame, t.elapsed)])
    else s
  }

  /** The loop over a trace of clock readings, oldest first. */
  function SenderLoop(c: SenderConfig, ticks: seq<Tick>): (s: SenderState)
    requires ValidConfig(c)
    ensures |s.frame| == c.packetSize
  {
    if |ticks| == 0 then SenderStart(c)
    else SenderStep(c, SenderLoop(c, ticks[..|ticks| - 1]), ticks[|ticks| - 1])
  }

  /** The clock reading at which frame `k` falls due. */
  function DueTime(c: SenderConfig, k: nat): real
    requires c.bandwidthBps > 0
  {
    k as real * TimePerPacket(c)
  }

  /** The counters: the bit counter is `packets_sent` frames of
      `FrameSize * 8` bits, the next due time is absolute, and every sent
      frame is on the wire. */
  ghost predicate CountersAgree(c: SenderConfig, s: SenderState)
    requires ValidConfig(c)
  {
    && s.totalBitsSent == s.packetsSent * FrameBits(c)
    && s.nextSendTime == DueTime(c, s.packetsSent)
    && |s.wire| == s.packetsSent
  }

  /** Frame k on the wire is the fill pattern stamped with k (mod 2^32),
      and went out no earlier than its due time and before the duration
      ended. */
  ghost predicate WireOrdered(c: SenderConfig, s: SenderState)
    requires ValidConfig(c)
  {
    forall k :: 0 <= k < |s.wire| ==>
      && s.wire[k].frame == DataFrame(c.packetSize, Wrap32(k))
      && s.wire[k].at >= DueTime(c, k)
      && s.wire[k].at < c.durationSec
  }

  /** Frames stamped so far: every successful send plus a failed one. */
  function Attempts(s: SenderState): nat
  {
    s.packetsSent + if s.phase == SendFailed then 1 else 0
  }

  /** `seq` counts the stamped frames, and the frame buffer holds the last
      stamped frame (the fill pattern before the first). */
  ghost predicate StampsAgree(c: SenderConfig, s: SenderState)
    requires ValidConfig(c)
  {
    && |s.frame| == c.packetSize
    && s.nextSeq == Wrap32(Attempts(s))
    && s.frame == (if Attempts(s) == 0 then FillPattern(c.packetSize)
                   else DataFrame(c.packetSize, Wrap32(Attempts(s) - 1)))
  }

  ghost predicate SenderInvariant(c: SenderConfig, s: SenderState)
    requires ValidConfig(c)
  {
    CountersAgree(c, s) && WireOrdered(c, s) && StampsAgree(c, s)
  }

  lemma StampNext(c: SenderConfig, s: SenderState)
    requires ValidConfig(c) && StampsAgree(c, s)
    ensures Stamp(s.frame, s.nextSeq) == DataFrame(c.packetSize, Wrap32(Attempts(s)))
    ensures Wrap32(s.nextSeq as int + 1) == Wrap32(Attempts(s) + 1)
  {
    if Attempts(s) > 0 {
      RestampForgetsOldStamp(FillPattern(c.packetSize), Wrap32(Attempts(s) - 1), s.nextSeq);
    }
    Wrap32Absorbs(Attempts(s), 1);
  }

  lemma MulSucc(n: nat, f: nat)
    ensures (n + 1) * f == n * f + f
  {
  }

  /** A successful send keeps the invariant. */
  lemma SendKeepsInvariant(c: SenderConfig, s: SenderState, t: Tick)
    requires ValidConfig(c) && SenderInvariant(c, s) && s.phase == Sending
    requires s.nextSendTime <= t.elapsed < c.durationSec && t.sendOk
    ensures SenderInvariant(c, SenderStep(c, s, t))
  {
    SendAdvancesCounters(c, s, t);
    SendStampsFrame(c, s, t);
    SendExtendsWire(c, s, t);
  }

  lemma SendAdvancesCounters(c: SenderConfig, s: SenderState, t: Tick)
    requires ValidConfig(c) && |s.frame| == c.packetSize && CountersAgree(c, s) && s.phase == Sending
    requires s.nextSendTime <= t.elapsed < c.durationSec && t.sendOk
    ensures CountersAgree(c, SenderStep(c, s, t))
  {
    var r := SenderStep(c, s, t);
    var n := s.packetsSent;
    assert r.packetsSent == n + 1 && r.totalBitsSent == s.totalBitsSent + FrameBits(c);
    assert r.nextSendTime == DueTime(c, n + 1) && |r.wire| == n + 1;
    MulSucc(n, FrameBits(c));
  }

  lemma SendStampsFrame(c: SenderConfig, s: SenderState, t: Tick)
    requires ValidConfig(c) && SenderInvariant(c, s) && s.phase == Sending
    requires s.nextSendTime <= t.elapsed < c.durationSec && t.sendOk
    ensures StampsAgree(c, SenderStep(c, s, t))
  {
    StampNext(c, s);
  }

  lemma SendExtendsWire(c: SenderConfig, s: SenderState, t: Tick)
    requires ValidConfig(c) && SenderInvariant(c, s) && s.phase == Sending
    requires s.nextSendTime <= t.elapsed < c.durationSec && t.sendOk
    ensures WireOrdered(c, SenderStep(c, s, t))
  {
    StampNext(c, s);
    var r := SenderStep(c, s, t);
    var n := s.packetsSent;
    assert r.wire == s.wire + [Sent(DataFrame(c.packetSize, Wrap32(n)), t.elapsed)];
    forall k | 0 <= k < |r.wire|
      ensures r.wire[k].frame == DataFrame(c.packetSize, Wrap32(k))
      ensures r.wire[k].at >= DueTime(c, k)
      ensures r.wire[k].at < c.durationSec
    {
      if k < |s.wire| {
        assert r.wire[k] == s.wire[k];
      }
    }
  }

  /** A failed send keeps the invariant: it has consumed a sequence number
      and stamped the frame buffer, but nothing went on the wire. */
  lemma FailureKeepsInvariant(c: SenderConfig, s: SenderState, t: Tick)
    requires ValidConfig(c) && SenderInvariant(c, s) && s.phase == Sending
    requires s.nextSendTime <= t.elapsed < c.durationSec && !t.sendOk
    ensures SenderInvariant(c, SenderStep(c, s, t))
  {
    StampNext(c, s);
  }

  lemma SenderStepKeepsInvariant(c: SenderConfig, s: SenderState, t: Tick)
    requires ValidConfig(c) && SenderInvariant(c, s)
    ensures SenderInvariant(c, SenderStep(c, s, t))
  {
    if s.phase == Sending && t.elapsed < c.durationSec && t.elapsed >= s.nextSendTime {
      if t.sendOk {
        SendKeepsInvariant(c, s, t);
      } else {
        FailureKeepsInvariant(c, s, t);
      }
    }
  }

  /** The invariant holds after any trace. */
  lemma {:induction false} SenderLoopInvariant(c: SenderConfig, ticks: seq<Tick>)
    requires ValidConfig(c)
    ensures SenderInvariant(c, SenderLoop(c, ticks))
  {
    if |ticks| > 0 {
      SenderLoopInvariant(c, ticks[..|ticks| - 1]);
      SenderStepKeepsInvariant(c, SenderLoop(c, ticks[..|ticks| - 1]), ticks[|ticks| - 1]);
    }
  }

  /** A frame due before the deadline: its bits fit in the bandwidth
      budget of the duration. */
  lemma DueBeforeDeadline(c: SenderConfig, k: nat)
    requires ValidConfig(c) && DueTime(c, k) < c.durationSec
    ensures (k * FrameBits(c)) as real < c.bandwidthBps as real * c.durationSec
  {
    var f := FrameBits(c) as real;
    var bw := c.bandwidthBps as real;
    var q := k as real * f;
    assert DueTime(c, k) == k as real * (f / bw);
    assert k as real * (f / bw) == q / bw;
    assert q == (q / bw) * bw;
    assert (k * FrameBits(c)) as real == q;
  }

  /** The sender never runs ahead of its target rate by more than one
      frame: every frame but the last went out before the duration ended at
      the paced rate, so the bits sent stay below
      `bandwidth * duration + FrameSize * 8`. */
  lemma SentBitsBound(c: SenderConfig, ticks: seq<Tick>)
    requires ValidConfig(c)
    ensures var s := SenderLoop(c, ticks);
            s.packetsSent > 0 ==>
              s.totalBitsSent as real < c.bandwidthBps as real * c.durationSec + FrameBits(c) as real
  {
    SenderLoopInvariant(c, ticks);
    var s := SenderLoop(c, ticks);
    if s.packetsSent > 0 {
      var k := s.packetsSent - 1;
      assert s.wire[k].at >= DueTime(c, k) && s.wire[k].at < c.durationSec;
      DueBeforeDeadline(c, k);
      MulSucc(k, FrameBits(c));
    }
  }

  /** When the loop has ended, `seq` tells how it ended: equal to the
      number of frames sent after the deadline, one more after a failed
      send. */
  lemma SeqAtExit(c: SenderConfig, ticks: seq<Tick>)
    requires ValidConfig(c)
    ensures var s := SenderLoop(c, ticks);
            && (s.phase == Finished ==> s.nextSeq == Wrap32(s.packetsSent))
            && (s.phase == SendFailed ==> s.nextSeq == Wrap32(s.packetsSent + 1))
  {
    SenderLoopInvariant(c, ticks);
  }

  /** A frame goes out whenever the clock is past the due time within the
      duration, and the send succeeds. */
  lemma SendsWhenDue(c: SenderConfig, s: SenderState, t: Tick)
    requires ValidConfig(c) && SenderInvariant(c, s) && s.phase == Sending
    requires s.nextSendTime <= t.elapsed < c.durationSec && t.sendOk
    ensures SenderStep(c, s, t).packetsSent == s.packetsSent + 1
    ensures SenderStep(c, s, t).wire == s.wire + [Sent(DataFrame(c.packetSize, Wrap32(s.packetsSent)), t.elapsed)]
  {
    StampNext(c, s);
  }

  /** Before the due time, a pass sends nothing and changes nothing. */
  lemma WaitsUntilDue(c: SenderConfig, s: SenderState, t: Tick)
    requires ValidConfig(c) && |s.frame| == c.packetSize && s.phase == Sending
    requires t.elapsed < s.nextSendTime && t.elapsed < c.durationSec
    ensures SenderStep(c, s, t) == s
  {
  }
}
