/** Sequence-gap loss accounting of the receivers.  Both the expected
    sequence number and the loss counter live in 32 bits: the gap
    `seq - expected_seq` is an unsigned 32-bit difference, and adding it to
    the `int` loss counter goes through the same unsigned conversion, so the
    counter behaves as a 32-bit register (its signed reading is a matter of
    reporting). */
module Loss {
  import opened Ints

  datatype LossCounter = LossCounter(expected: uint32, lost: uint32)

  const NoLoss := LossCounter(0, 0)

  /** One received sequence number, branch for branch as the receivers do
      it: a match advances the expectation by one; any mismatch adds the
      unsigned 32-bit gap to the loss counter and expects `s + 1` next. */
  function Track(c: LossCounter, s: uint32): (r: LossCounter)
    ensures r.expected == Wrap32(s as int + 1)
    ensures s == c.expected ==> r.lost == c.lost
    ensures s as int > c.expected as int ==>
              r.lost == Wrap32(c.lost as int + (s as int - c.expected as int))
    ensures s as int < c.expected as int ==>
              r.lost == Wrap32(c.lost as int - (c.expected as int - s as int))
  {
    if s != c.expected then
      var gap := Wrap32(s as int - c.expected as int);
      Wrap32Absorbs(s as int - c.expected as int, c.lost as int);
      LossCounter(Wrap32(s as int + 1), Wrap32(c.lost as int + gap as int))
    else
      LossCounter(Wrap32(c.expected as int + 1), c.lost)
  }

  /** The counter after a whole stream of sequence numbers, oldest first. */
  function TrackAll(seqs: seq<uint32>): LossCounter
  {
    if |seqs| == 0 then NoLoss
    else Track(TrackAll(seqs[..|seqs| - 1]), seqs[|seqs| - 1])
  }

  /** Appending a number tracks it after the stream so far. */
  lemma TrackAllSnoc(seqs: seq<uint32>, s: uint32)
    ensures TrackAll(seqs + [s]) == Track(TrackAll(seqs), s)
  {
    assert (seqs + [s])[..|seqs|] == seqs;
  }

  /** Closed form of the loss counter: whatever the arrival order, the
      counter equals the next expected number minus the number of datagrams
      seen, modulo 2^32, and the next expected number is one past the last
      datagram's. */
  lemma {:induction false} TrackAllClosedForm(seqs: seq<uint32>)
    ensures TrackAll(seqs).lost == Wrap32(TrackAll(seqs).expected as int - |seqs|)
    ensures |seqs| > 0 ==> TrackAll(seqs).expected == Wrap32(seqs[|seqs| - 1] as int + 1)
    ensures |seqs| > 0 ==> TrackAll(seqs).lost == Wrap32(seqs[|seqs| - 1] as int + 1 - |seqs|)
  {
    if |seqs| > 0 {
      var prefix := seqs[..|seqs| - 1];
      var s := seqs[|seqs| - 1];
      var c := TrackAll(prefix);
      TrackAllClosedForm(prefix);
      TrackKeepsClosedForm(c, s, |prefix|);
    }
  }

  /** One step keeps the closed form: if the counter is the expectation
      minus n, after one more number it is the new expectation minus n + 1. */
  lemma TrackKeepsClosedForm(c: LossCounter, s: uint32, n: nat)
    requires c.lost == Wrap32(c.expected as int - n)
    ensures Track(c, s).lost == Wrap32(s as int - n)
    ensures Track(c, s).lost == Wrap32(Track(c, s).expected as int - (n + 1))
  {
    var r := Track(c, s);
    Wrap32Absorbs(s as int + 1, -(n + 1));
    if s != c.expected {
      assert r.lost == Wrap32(c.lost as int + (s as int - c.expected as int));
      Wrap32Absorbs(c.expected as int - n, s as int - c.expected as int);
    } else {
      assert r.lost == c.lost;
    }
  }

  /** Sequence numbers strictly increasing as integers (no wrap in the
      stream). */
  ghost predicate Increasing(seqs: seq<uint32>)
  {
    forall i, j :: 0 <= i < j < |seqs| ==> seqs[i] < seqs[j]
  }

  lemma {:induction false} IncreasingBounded(seqs: seq<uint32>)
    requires Increasing(seqs)
    ensures forall i :: 0 <= i < |seqs| ==> i <= seqs[i] as int
  {
    if |seqs| > 0 {
      IncreasingBounded(seqs[..|seqs| - 1]);
      var n := |seqs| - 1;
      if n > 0 {
        assert seqs[n - 1] < seqs[n];
        assert seqs[..n][n - 1] == seqs[n - 1];
      }
      forall i | 0 <= i < |seqs|
        ensures i <= seqs[i] as int
      {
        if i < n {
          assert seqs[..n][i] == seqs[i];
        }
      }
    }
  }

  /** For a stream that only moves forward from 0, the loss counter is
      exactly the number of sequence numbers in `0..last` that never
      arrived. */
  lemma CountsMissingNumbers(seqs: seq<uint32>)
    requires |seqs| > 0 && Increasing(seqs)
    ensures TrackAll(seqs).lost as int == seqs[|seqs| - 1] as int + 1 - |seqs|
  {
    TrackAllClosedForm(seqs);
    LastAtLeastIndex(seqs);
    Wrap32Small(seqs[|seqs| - 1] as int + 1 - |seqs|);
  }

  lemma LastAtLeastIndex(seqs: seq<uint32>)
    requires |seqs| > 0 && Increasing(seqs)
    ensures |seqs| - 1 <= seqs[|seqs| - 1] as int
  {
    IncreasingBounded(seqs);
  }

  /** The stream 0,1,2,5,6: numbers 3 and 4 are missing, so the counter
      reads 2 and the receiver expects 7 next. */
  lemma GapExample()
    ensures TrackAll([0, 1, 2, 5, 6]) == LossCounter(7, 2)
  {
    var seqs: seq<uint32> := [0, 1, 2, 5, 6];
    TrackAllClosedForm(seqs[..3]);
    TrackAllSnoc(seqs[..3], 5);
    TrackAllSnoc(seqs[..4], 6);
    assert seqs[..3] + [5] == seqs[..4] && seqs[..4] + [6] == seqs;
    Wrap32Small(2);
  }

  /** A duplicate (0,1,1,2) takes the mismatch branch with a negative gap:
      the counter wraps to 2^32 - 1, i.e. it reads -1 once reinterpreted as
      the source's signed `int`. */
  lemma DuplicateExample()
    ensures TrackAll([0, 1, 1, 2]) == LossCounter(3, 0xFFFF_FFFF)
  {
    var seqs: seq<uint32> := [0, 1, 1, 2];
    TrackAllClosedForm(seqs[..2]);
    TrackAllSnoc(seqs[..2], 1);
    TrackAllSnoc(seqs[..3], 2);
    assert seqs[..2] + [1] == seqs[..3] && seqs[..3] + [2] == seqs;
    assert Wrap32(-1) == 0xFFFF_FFFF;
  }

  /** The stream 1,2,...,n (the first datagram of a sender that numbers from
      0 has been consumed before counting started) always reads one loss. */
  lemma LosslessAfterDiscardedFirst(seqs: seq<uint32>)
    requires |seqs| > 0
    requires forall i :: 0 <= i < |seqs| ==> seqs[i] as int == i + 1
    ensures TrackAll(seqs).lost == 1
  {
    TrackAllClosedForm(seqs);
  }
}
