/** `calculate_total_payload_bytes` of server.c: the payload a sender can
    move in whole packets at a given bandwidth over a given duration.  The
    computation runs in `uint64_t`: the bit total is the truncated product,
    and the signed packet size is converted to `uint64_t` before it divides
    and multiplies. */
module Budget {
  import opened Ints

  /** `(uint64_t)(bandwidth_bps * duration_sec)`: the product truncated
      toward zero, defined only when it fits. */
  function TotalBits(bandwidthBps: nat, durationSec: real): nat
    requires 0.0 <= bandwidthBps as real * durationSec < TWO_64 as real
  {
    (bandwidthBps as real * durationSec).Floor
  }

  /** The payload budget: whole packets only, so a multiple of the packet
      size within one packet of the byte total.  A negative packet size
      becomes a divisor above 2^63, which leaves no whole packet. */
  function TotalPayloadBudget(packetSize: int, bandwidthBps: nat, durationSec: real): (r: nat)
    requires packetSize != 0 && Int32Min <= packetSize <= Int32Max
    requires bandwidthBps < TWO_64
    requires 0.0 <= bandwidthBps as real * durationSec < TWO_64 as real
    ensures packetSize > 0 ==> r % packetSize == 0
    ensures packetSize > 0 ==> r <= TotalBits(bandwidthBps, durationSec) / 8 < r + packetSize
    ensures packetSize < 0 ==> r == 0
  {
    var totalBytes := TotalBits(bandwidthBps, durationSec) / 8;
    var size := ToUint64(packetSize);
    var packets := totalBytes / size;
    WholeUnits(totalBytes, size);
    (packets * size) % TWO_64
  }

  /** The budget is the largest whole-packet payload within the byte
      total: no larger multiple of the packet size fits. */
  lemma BudgetIsLargestMultiple(packetSize: int, bandwidthBps: nat, durationSec: real, m: nat)
    requires packetSize > 0 && packetSize <= Int32Max
    requires bandwidthBps < TWO_64
    requires 0.0 <= bandwidthBps as real * durationSec < TWO_64 as real
    requires m % packetSize == 0 && m <= TotalBits(bandwidthBps, durationSec) / 8
    ensures m <= TotalPayloadBudget(packetSize, bandwidthBps, durationSec)
  {
    LargestMultiple(TotalBits(bandwidthBps, durationSec) / 8, packetSize,
                    TotalPayloadBudget(packetSize, bandwidthBps, durationSec), m);
  }

  /** Among multiples of `size` up to `total`, the one within a unit of
      `total` is the largest. */
  lemma LargestMultiple(total: nat, size: nat, r: nat, m: nat)
    requires size > 0 && r % size == 0 && r <= total < r + size
    requires m % size == 0 && m <= total
    ensures m <= r
  {
    var a, b := m / size, r / size;
    assert m == a * size + m % size;
    assert r == b * size + r % size;
    assert (b + 1) * size == r + size;
    if a > b {
      MulMonotone(b + 1, a, size);
    }
    MulMonotone(a, b, size);
  }

  lemma MulMonotone(x: nat, y: nat, k: nat)
    requires x <= y
    ensures x * k <= y * k
  {
  }

  /** With the defaults (1024-byte packets, 1 Mbit/s, 10 s) the budget is
      1220 packets of 1024 bytes out of 1 250 000 bytes. */
  lemma DefaultBudget()
    ensures TotalPayloadBudget(1024, 1_000_000, 10.0) == 1_249_280
  {
    assert TotalBits(1_000_000, 10.0) == 10_000_000;
  }

  /** Whole units of `size` in `total`: a multiple of `size` within one
      unit of `total`, and none when `size` exceeds `total`. */
  lemma WholeUnits(total: nat, size: nat)
    requires size > 0
    ensures (total / size) * size <= total < (total / size) * size + size
    ensures ((total / size) * size) % size == 0
    ensures size > total ==> total / size == 0
  {
    var q := total / size;
    assert total == q * size + total % size;
    assert (q * size) % size == 0 by {
      MultipleMod(q, size);
    }
  }

  lemma MultipleMod(q: nat, size: nat)
    requires size > 0
    ensures (q * size) % size == 0
  {
    var d := (q * size) / size;
    var r := (q * size) % size;
    assert q * size == d * size + r;
    assert (q - d) * size == q * size - d * size;
    OnlyZeroBelow(q - d, size);
  }

  /** The only multiple of `size` in [0, size) is 0. */
  lemma OnlyZeroBelow(x: int, size: nat)
    requires size > 0 && 0 <= x * size < size
    ensures x == 0
  {
  }
}
