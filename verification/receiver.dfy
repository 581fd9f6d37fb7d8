/** The receivers' per-datagram bookkeeping, shared by the
    duration-bounded receiver (server.c) and the byte-capped one (test.c):
    copying the datagram into the receive buffer, decoding its sequence
    number, loss tracking, byte counters and the jitter estimator. */
module Receiver {
  import opened Ints
  import opened Wire
  import opened Loss
  import opened Jitter

  /** A datagram as the socket delivers it, stamped with the clock reading
      taken right after it was received (microseconds since the measurement
      clock started). */
  datatype Datagram = Datagram(bytes: seq<uint8>, arrivalUs: int)

  /** Outcome of one `recvfrom` call. */
  datatype RecvResult =
    | Got(d: Datagram)
    | WouldBlock      // EAGAIN / EWOULDBLOCK: nothing ready (or timeout)
    | Interrupted     // EINTR
    | Failed          // any other error

  /** Why a measurement loop ended. */
  datatype StopReason =
    | DeadlineReached   // the duration elapsed
    | ByteCapReached    // the payload cap of the byte-capped receiver
    | ReceiveFailed     // recvfrom failed with anything but "nothing ready"

  datatype Phase = Measuring | Stopped(reason: StopReason)

  /** The datagrams among a series of `recvfrom` outcomes, in order. */
  function Received(rs: seq<RecvResult>): (ds: seq<Datagram>)
    ensures |ds| <= |rs|
  {
    if |rs| == 0 then []
    else
      var prefix := Received(rs[..|rs| - 1]);
      match rs[|rs| - 1]
      case Got(d) => prefix + [d]
      case _ => prefix
  }

  // ---------------------------------------------------------------------
  // Receive buffer

  /** `recvfrom` into the receive buffer: at most |buffer| bytes are copied
      (a longer datagram is truncated) and the rest of the buffer keeps what
      earlier datagrams left there.  Returns the new buffer and the byte
      count `n`. */
  function Deliver(buffer: seq<uint8>, bytes: seq<uint8>): (r: (seq<uint8>, nat))
    ensures |r.0| == |buffer|
    ensures r.1 == Min(|bytes|, |buffer|)
    ensures r.0[..r.1] == bytes[..r.1]
    ensures r.0[r.1..] == buffer[r.1..]
  {
    var n := Min(|bytes|, |buffer|);
    (bytes[..n] + buffer[n..], n)
  }

  /** A datagram of at least four bytes is decoded to its own sequence
      number; a shorter one leaves stale bytes of an earlier datagram in the
      sequence number field. */
  lemma DeliverDecodes(buffer: seq<uint8>, bytes: seq<uint8>)
    requires |buffer| >= SeqWidth
    ensures |bytes| >= SeqWidth ==> ReadBe32(Deliver(buffer, bytes).0) == ReadBe32(bytes)
    ensures |bytes| == 0 ==> Deliver(buffer, bytes).0 == buffer
  {
    var (b, n) := Deliver(buffer, bytes);
    if |bytes| >= SeqWidth {
      assert b[..n][..4] == b[..4] && bytes[..n][..4] == bytes[..4];
    }
  }

  /** A data frame of any size >= 4 is decoded to the number it was
      stamped with. */
  lemma DeliverDataFrame(buffer: seq<uint8>, packetSize: nat, s: uint32)
    requires |buffer| >= SeqWidth && packetSize >= SeqWidth
    ensures ReadBe32(Deliver(buffer, DataFrame(packetSize, s)).0) == s
  {
    DataFrameLayout(packetSize, s);
    DeliverDecodes(buffer, DataFrame(packetSize, s));
  }

  // ---------------------------------------------------------------------
  // Accounting of one datagram

  /** What the accounting sees of a datagram once it is in the buffer. */
  datatype Arrival = Arrival(seqNo: uint32, length: nat, arrivalUs: int)

  /** Counters of a measurement.  `prevArrivalUs` is `prev_packet_time`;
      the measurement starts at time 0. */
  datatype Accounting = Accounting(
    loss: LossCounter,
    totalPayload: nat,
    totalTransmitted: nat,
    jitter: JitterStats,
    prevArrivalUs: int)

  const Fresh := Accounting(NoLoss, 0, 0, NoJitter, 0)

  /** Account one datagram: its inter-arrival gap feeds the jitter
      estimator, its sequence number the loss counter, and its length the
      payload and on-the-wire byte counters.  Whatever the branch taken by
      the loss counter, the loss moves by `seq - expected` modulo 2^32; the
      per-frame overhead grows by exactly 42 bytes; a jitter sample is taken
      exactly when the previous gap was positive. */
  function Account(a: Accounting, x: Arrival): (r: Accounting)
    ensures r.totalPayload == a.totalPayload + x.length
    ensures r.totalTransmitted - r.totalPayload == a.totalTransmitted - a.totalPayload + TotalHeaderSize
    ensures r.loss.expected == Wrap32(x.seqNo as int + 1)
    ensures r.loss.lost == Wrap32(a.loss.lost as int + x.seqNo as int - a.loss.expected as int)
    ensures r.jitter.samples == a.jitter.samples + (if a.jitter.prevGapUs > 0 then 1 else 0)
    ensures r.jitter.prevGapUs == x.arrivalUs - a.prevArrivalUs
    ensures r.prevArrivalUs == x.arrivalUs
  {
    Wrap32Absorbs(x.seqNo as int - a.loss.expected as int, a.loss.lost as int);
    Accounting(
      Track(a.loss, x.seqNo),
      a.totalPayload + x.length,
      a.totalTransmitted + x.length + TotalHeaderSize,
      Observe(a.jitter, x.arrivalUs - a.prevArrivalUs),
      x.arrivalUs)
  }

  /** The counters after a stream of arrivals, oldest first. */
  function AccountAll(xs: seq<Arrival>): Accounting
  {
    if |xs| == 0 then Fresh
    else Account(AccountAll(xs[..|xs| - 1]), xs[|xs| - 1])
  }

  function SeqNos(xs: seq<Arrival>): seq<uint32>
  {
    seq(|xs|, i requires 0 <= i < |xs| => xs[i].seqNo)
  }

  /** Inter-arrival gaps; the first is measured from the clock start. */
  function Gaps(xs: seq<Arrival>): seq<int>
  {
    seq(|xs|, i requires 0 <= i < |xs| => xs[i].arrivalUs - (if i == 0 then 0 else xs[i - 1].arrivalUs))
  }

  function PayloadSum(xs: seq<Arrival>): nat
  {
    if |xs| == 0 then 0 else PayloadSum(xs[..|xs| - 1]) + xs[|xs| - 1].length
  }

  /** The counters after k datagrams, component by component: the loss
      counter has seen the k sequence numbers, the jitter estimator the k
      gaps, the payload counter the sum of the lengths, and the
      transmitted counter that sum plus 42 bytes per datagram. */
  lemma AccountAllDecomposes(xs: seq<Arrival>)
    ensures AccountAll(xs).loss == TrackAll(SeqNos(xs))
    ensures AccountAll(xs).jitter == ObserveAll(Gaps(xs))
    ensures AccountAll(xs).totalPayload == PayloadSum(xs)
    ensures AccountAll(xs).totalTransmitted == PayloadSum(xs) + TotalHeaderSize * |xs|
    ensures AccountAll(xs).prevArrivalUs == if |xs| == 0 then 0 else xs[|xs| - 1].arrivalUs
  {
    AccountAllBytes(xs);
    AccountAllLoss(xs);
    AccountAllJitter(xs);
  }

  lemma {:induction false} AccountAllBytes(xs: seq<Arrival>)
    ensures AccountAll(xs).totalPayload == PayloadSum(xs)
    ensures AccountAll(xs).totalTransmitted == PayloadSum(xs) + TotalHeaderSize * |xs|
  {
    if |xs| > 0 {
      AccountAllBytes(xs[..|xs| - 1]);
    }
  }

  lemma {:induction false} AccountAllLoss(xs: seq<Arrival>)
    ensures AccountAll(xs).loss == TrackAll(SeqNos(xs))
  {
    if |xs| > 0 {
      AccountAllLoss(xs[..|xs| - 1]);
      SeqNosSnoc(xs);
    }
  }

  lemma {:induction false} AccountAllJitter(xs: seq<Arrival>)
    ensures AccountAll(xs).jitter == ObserveAll(Gaps(xs))
    ensures AccountAll(xs).prevArrivalUs == if |xs| == 0 then 0 else xs[|xs| - 1].arrivalUs
  {
    if |xs| > 0 {
      AccountAllJitter(xs[..|xs| - 1]);
      GapsSnoc(xs);
      if |xs| > 1 {
        assert xs[..|xs| - 1][|xs| - 2] == xs[|xs| - 2];
      }
    }
  }

  lemma SeqNosSnoc(xs: seq<Arrival>)
    requires |xs| > 0
    ensures TrackAll(SeqNos(xs)) == Track(TrackAll(SeqNos(xs[..|xs| - 1])), xs[|xs| - 1].seqNo)
  {
    assert SeqNos(xs)[..|xs| - 1] == SeqNos(xs[..|xs| - 1]);
  }

  lemma GapsSnoc(xs: seq<Arrival>)
    requires |xs| > 0
    ensures var n := |xs|;
      ObserveAll(Gaps(xs)) == Observe(ObserveAll(Gaps(xs[..n - 1])),
                                      xs[n - 1].arrivalUs - (if n == 1 then 0 else xs[n - 2].arrivalUs))
  {
    assert Gaps(xs)[..|xs| - 1] == Gaps(xs[..|xs| - 1]);
  }

  /** Payload never exceeds `cap` bytes per datagram when no arrival is
      longer than `cap`. */
  lemma {:induction false} PayloadBound(xs: seq<Arrival>, cap: nat)
    requires forall i :: 0 <= i < |xs| ==> xs[i].length <= cap
    ensures PayloadSum(xs) <= cap * |xs|
  {
    if |xs| > 0 {
      PayloadBound(xs[..|xs| - 1], cap);
    }
  }

  /** Through a buffer of `|buffer|` bytes, each datagram adds at most
      that many payload bytes, and the transmitted total adds 42 per
      datagram on top of the payload. */
  lemma IngestedBytes(buffer: seq<uint8>, ds: seq<Datagram>)
    requires |buffer| >= SeqWidth
    ensures AccountAll(Ingest(buffer, ds).1).totalPayload <= |buffer| * |ds|
    ensures AccountAll(Ingest(buffer, ds).1).totalTransmitted ==
              AccountAll(Ingest(buffer, ds).1).totalPayload + TotalHeaderSize * |ds|
  {
    var xs := Ingest(buffer, ds).1;
    AccountAllBytes(xs);
    PayloadBound(xs, |buffer|);
  }

  /** Loss statistics of a measurement stated on the arrivals alone: the
      receiver expects one past the last sequence number, and the counter is
      that expectation minus the number of datagrams, modulo 2^32. */
  lemma MeasurementLoss(xs: seq<Arrival>)
    ensures |xs| > 0 ==> AccountAll(xs).loss.expected == Wrap32(xs[|xs| - 1].seqNo as int + 1)
    ensures AccountAll(xs).loss.lost == Wrap32(AccountAll(xs).loss.expected as int - |xs|)
  {
    AccountAllLoss(xs);
    var seqs := SeqNos(xs);
    TrackAllClosedForm(seqs);
    if |xs| > 0 {
      assert seqs[|seqs| - 1] == xs[|xs| - 1].seqNo;
    }
  }

  /** Jitter statistics of a measurement stated on the arrivals alone: the
      estimator summarises the reference samples of the inter-arrival gaps,
      and its variance is never negative. */
  lemma MeasurementJitter(xs: seq<Arrival>)
    ensures Summarises(AccountAll(xs).jitter, Samples(Gaps(xs)))
    ensures AccountAll(xs).jitter.variance >= 0.0
  {
    AccountAllJitter(xs);
    ObserveAllMatchesSamples(Gaps(xs));
    EstimatesNonNegative(Gaps(xs));
  }

  // ---------------------------------------------------------------------
  // Datagrams through the buffer

  /** Deliver a stream of datagrams into the buffer one after the other:
      the final buffer and the arrival each datagram is accounted as. */
  function Ingest(buffer: seq<uint8>, ds: seq<Datagram>): (r: (seq<uint8>, seq<Arrival>))
    requires |buffer| >= SeqWidth
    ensures |r.0| == |buffer| && |r.1| == |ds|
    ensures forall i :: 0 <= i < |ds| ==>
              r.1[i].arrivalUs == ds[i].arrivalUs && r.1[i].length == Min(|ds[i].bytes|, |buffer|)
    ensures forall i :: 0 <= i < |ds| && |ds[i].bytes| >= SeqWidth ==>
              r.1[i].seqNo == ReadBe32(ds[i].bytes)
  {
    if |ds| == 0 then (buffer, [])
    else
      var (b, xs) := Ingest(buffer, ds[..|ds| - 1]);
      var d := ds[|ds| - 1];
      var (b', n) := Deliver(b, d.bytes);
      DeliverDecodes(b, d.bytes);
      (b', xs + [Arrival(ReadBe32(b'), n, d.arrivalUs)])
  }

  /** The buffer and counters after absorbing one more datagram. */
  function Absorb(buffer: seq<uint8>, a: Accounting, d: Datagram): (r: (seq<uint8>, Accounting))
    requires |buffer| >= SeqWidth
    ensures |r.0| == |buffer|
  {
    var (b, n) := Deliver(buffer, d.bytes);
    (b, Account(a, Arrival(ReadBe32(b), n, d.arrivalUs)))
  }

  /** Absorbing one more datagram extends the ingested stream by it. */
  lemma AbsorbExtends(buffer: seq<uint8>, ds: seq<Datagram>, d: Datagram)
    requires |buffer| >= SeqWidth
    ensures var (b, a) := Absorb(Ingest(buffer, ds).0, AccountAll(Ingest(buffer, ds).1), d);
            b == Ingest(buffer, ds + [d]).0 && a == AccountAll(Ingest(buffer, ds + [d]).1)
  {
    assert (ds + [d])[..|ds|] == ds;
    var xs := Ingest(buffer, ds + [d]).1;
    assert xs[..|xs| - 1] == Ingest(buffer, ds).1;
  }
}
