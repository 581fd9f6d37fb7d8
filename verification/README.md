# UDP bandwidth tester: a Dafny model of its measurement core

The tool measures a UDP path. A client announces itself on a TCP
control connection. It then sends frames of `packet_size` bytes, each
stamped with a 4-byte big-endian sequence number over a filler pattern.
The frames are paced so that `packet_size + 42` bytes per frame (the
Ethernet, IP and UDP headers) reach the target bandwidth. The server
waits for the first datagram to start its clock and then receives until
the duration has elapsed. While it receives, it keeps:

- a sequence-gap loss counter;
- payload and on-the-wire byte totals;
- an online jitter estimator (running mean and running variance of
  |gap - previous gap|);
- per-second buckets of the running totals.

A second copy of the tool (`test.c`) has an unpaced sender and a receiver
that stops at a payload cap instead of a deadline.

The receivers and the paced sender are modelled functionally: each loop
is a pure step function folded over an input trace of clock readings,
`recvfrom` outcomes and `sendto` outcomes. The unpaced sender is modelled
as imperative methods whose `while` loops carry invariants. Each
receiver loop is paired with a reference description (the first poll
that ends the loop, the datagrams it accepts, the jitter samples of a gap
sequence), and lemmas over all inputs connect the loop to that
description. The senders are paired with invariants instead:
the paced sender with counter, schedule and stamp identities that every
pass keeps, and the unpaced sender with loop invariants on its methods.

| module | file | models |
|---|---|---|
| `Ints` | ints.dfy | unsigned C integer widths, explicit 16/32-bit wrap-around |
| `Optional` | optional.dfy | values that may be absent |
| `Wire` | wire.dfy | the 42-byte overhead; `htons`/`htonl` codecs; the stamped data frame; the control header |
| `Loss` | loss.dfy | `expected_seq` / `lost_packets` arithmetic |
| `Jitter` | jitter.dfy | the jitter estimator and the reference sample statistics it must equal |
| `Receiver` | receiver.dfy | the per-datagram accounting shared by both receivers, and the receive buffer |
| `Server` | server.dfy | the duration-bounded `udp_receiver`: its initial wait, loop and buckets |
| `Capped` | capped.dfy | the byte-capped `udp_receiver` of `test.c` |
| `Pacing` | pacing.dfy | the paced `udp_sender` |
| `Unpaced` | unpaced.dfy | the unpaced `udp_sender` of `test.c`, as imperative methods with loop invariants |
| `Budget` | budget.dfy | `calculate_total_payload_bytes` |
| `Dispatch` | dispatch.dfy | mode and default resolution in `main` |

Machine integers:

- `uint32_t` arithmetic is a `uint32` newtype with explicit reduction
  modulo 2^32 (`Wrap32`).
- `lost_packets` is a C `int`, but the 32-bit unsigned gap added to it
  converts the sum to unsigned. It is modelled as its 32-bit pattern, so a
  value of 2^32 - 1 prints as -1.

Clocks:

- Receiver clock readings are whole microseconds since the measurement
  started. `server.c:178` computes inter-arrival gaps from `timeval`s, so
  the gaps are integers and the jitter sums are exact integers. The mean
  and variance are exact reals.
- The sender's clock readings and schedule are `real` seconds.

## Model

| member | source | states |
|---|---|---|
| Wire.Be32RoundTrip | server.c:197 | `ntohl` of the four bytes `htonl` wrote gives the sequence number back |
| Wire.ReadBe32Inverse | server.c:197 | every 4-byte string is the encoding of the number it decodes to, so decoding loses nothing |
| Wire.Be16RoundTrip | server.c:56 | `ntohs` inverts `htons` on every 16-bit value |
| Wire.Stamp | client.c:109 | stamping keeps the frame's length, makes the first four bytes decode to the stamp, and keeps every later byte |
| Wire.DataFrameLayout | test.c:55-65 | a data frame is `packet_size` bytes, starts with its sequence number, and holds `i % 256` at every byte `i >= 4` |
| Wire.RestampForgetsOldStamp | test.c:63-65 | restamping the reused frame buffer gives the same bytes as stamping the pristine pattern, so no earlier stamp survives |
| Wire.HeaderRoundTrip | requirements.h:41-45 | decoding an encoded header (type u16, length u16, timestamp u32, big-endian) gives the header back |
| Wire.HeaderBytesRoundTrip | requirements.h:41-45 | encoding a decoded 8-byte header gives the bytes back |
| Wire.Strlen | client.c:28 | the message length is the index of the first NUL byte, or the whole message when it has none: every earlier byte is non-zero |
| Wire.ControlHandshake | client.c:26-31 | the server decodes type 1, length `strlen % 2^16` (bytes before the first NUL) and time `now % 2^32`, and reads a body exactly when that length is non-zero |
| Wire.GreetingHandshake | server.c:56-59 | for the greeting "Hello, Server!" the server goes on to read a 14-byte body |
| Loss.Track | server.c:197-203 | a match keeps `lost` and expects the next number; a higher number adds the gap; a lower one subtracts the distance modulo 2^32; `expected` becomes `seq + 1` in every case |
| Loss.TrackAllClosedForm | test.c:196-202 | for any arrival order, `expected` is one past the last number and `lost == expected - count (mod 2^32)` |
| Loss.CountsMissingNumbers | server.c:197-203 | for a strictly increasing stream, `lost` is exactly how many numbers in `0..last` never arrived |
| Loss.GapExample | server.c:198-200 | stream 0,1,2,5,6 gives `lost` 2 and `expected` 7 |
| Loss.DuplicateExample | test.c:197-199 | the duplicate in 0,1,1,2 wraps `lost` to 2^32 - 1 (-1 as `int`) |
| Loss.LosslessAfterDiscardedFirst | test.c:141-150 | a stream 1..n, i.e. a lossless sender whose frame 0 started the clock, reads exactly one loss |
| Jitter.Observe | server.c:180-194 | a sample, the absolute difference of the gap and the previous one, is taken iff the previous gap is positive; the mean is refreshed with each sample; the variance stays unchanged while there are at most 1 sample; the previous gap is always replaced |
| Jitter.RunningFormulaIsVariance | server.c:188-190 | `(Σx² - (Σx)²/n)/(n-1)` equals the Bessel-corrected variance `(nΣx² - (Σx)²)/(n(n-1))` |
| Jitter.ObserveAllMatchesSamples | test.c:179-192 | after any gap stream, the accumulators are the sum and sum of squares of the reference samples; the mean and variance are theirs (variance 0 below two samples); the last gap is remembered |
| Jitter.VarianceNumeratorNonNegative | server.c:188-190 | `n·Σx² - (Σx)² >= 0` for every sample sequence |
| Jitter.EstimatesNonNegative | test.c:186-188 | the mean and the argument of `sqrt` are never negative, whatever the gaps |
| Jitter.SampleCountBound | server.c:178-184 | the first gap never yields a sample, so there are fewer samples than gaps |
| Jitter.SteadyGaps | server.c:180-186 | three equal positive gaps give two zero samples: mean 0, variance 0 |
| Jitter.AlternatingGaps | server.c:180-191 | gaps a, b, a give mean `abs(b - a)` and variance 0 |
| Receiver.Deliver | server.c:165-166 | `recvfrom` copies `min(len, payload_size)` bytes, reports that count, and leaves the rest of the buffer as it was |
| Receiver.DeliverDecodes | server.c:197 | a datagram of at least 4 bytes decodes to its own sequence number; an empty one leaves the buffer unchanged |
| Receiver.DeliverDataFrame | test.c:196 | every data frame decodes to the number it was stamped with |
| Receiver.Account | server.c:177-206 | one datagram adds its length to the payload and widens the transmitted-minus-payload difference by exactly 42; the loss counter moves by the single wrapped amount `seq - expected` (match, gap or reordering alike) and then expects `seq + 1`; a jitter sample is taken iff the previous gap was positive, and the new gap is the arrival minus the previous arrival |
| Receiver.AccountAllDecomposes | server.c:205-206 | after k datagrams: loss is the fold over the k numbers, jitter the fold over the k gaps, payload the sum of lengths, transmitted `payload + 42·k` |
| Receiver.IngestedBytes | test.c:204-205 | through a `payload_size` buffer each datagram adds at most `payload_size` payload bytes, and transmitted is `payload + 42·k` |
| Receiver.MeasurementLoss | test.c:196-202 | stated on the arrivals alone: `expected` is one past the last number, and `lost` is `expected - k (mod 2^32)` |
| Receiver.MeasurementJitter | test.c:175-192 | the estimator summarises the reference samples of the inter-arrival gaps (the first gap measured from the clock start), and its variance is non-negative |
| Receiver.AbsorbExtends | server.c:165-206 | absorbing one more datagram equals ingesting the extended stream from the start |
| Server.SecondBelowDuration | server.c:209-210 | while the loop runs, the second index lies in `[0, duration)` |
| Server.ServerStep | server.c:157-219 | the deadline is checked first; would-block changes nothing; an error stops the loop; a datagram is absorbed and overwrites its second's bucket with the new totals (last writer wins; the guard never rejects) |
| Server.StopIndex | server.c:162-175 | the least index of a poll that passes the deadline or reports an error |
| Server.ServerLoopStops | server.c:157-175 | the loop is still measuring iff no poll ended it; otherwise it stopped at the first such poll, for the deadline or for the error |
| Server.ServerLoopAccounts | server.c:157-206 | buffer and counters are exactly those of ingesting the datagrams received before the first ending poll |
| Server.BucketsStaySound | server.c:209-214 | every bucket lies in `[0, duration) ⊂ [0, max_seconds)`, carries its own index as timestamp, and holds totals no larger than the current ones |
| Server.BucketsMonotone | server.c:209-214 | with a clock that never goes back, a later second's bucket holds totals at least those of an earlier one, and no bucket lies past the latest reading's second |
| Server.FirstNonEmpty | server.c:147-151 | the least index of a datagram with a positive byte count |
| Server.AwaitStopsAtFirstDatagram | server.c:147-151 | the initial wait ends iff a non-empty datagram arrives; the buffer then holds that first one; errors and empty datagrams before it leave no trace |
| Server.ServerRun | server.c:147-206 | the receiver runs iff some wait returns a non-empty datagram; that datagram only starts the clock, and the counters are exactly those of ingesting the datagrams the loop accepts into the buffer it left; the run is still measuring iff no poll ended it |
| Server.LosslessRunReportsOneLoss | server.c:147-154 | frame 0 only starts the clock; with frames 1..n then accounted against `expected_seq == 0`, a lossless run reports exactly one lost datagram |
| Capped.CappedStart | test.c:141-151 | the first receive starts the clock iff it returns a datagram (even an empty one), from fresh counters |
| Capped.CappedStep | test.c:155-206 | the payload never shrinks, grows by at most one buffer and only while below the cap; transmitted minus payload grows by 42 exactly when a datagram is absorbed; a measuring loop keeps measuring iff it is below the cap and the receive gave data or timed out, and otherwise stops for the cap (payload at or above it) or for the failed receive |
| Capped.CappedLoop | test.c:155-206 | a stopped loop stays as it is, and the payload total never decreases over any series of polls |
| Capped.CappedStopIndex | test.c:155-166 | the least index where the payload received before it reaches 99999·1024 bytes or the receive fails |
| Capped.CappedLoopStops | test.c:155-166 | the loop is measuring iff nothing ended it; otherwise it stopped at the first ending poll, for the cap or for the error |
| Capped.CappedLoopAccounts | test.c:155-206 | buffer and counters are those of ingesting exactly the datagrams received before the first ending poll |
| Capped.CappedPayloadBound | test.c:155-204 | the payload total overshoots the cap by less than one buffer |
| Capped.CappedRun | test.c:141-206 | the run exists iff the first receive succeeds; its payload is below cap + `payload_size`; transmitted is payload + 42 per accepted datagram |
| Pacing.SenderStep | client.c:96-122 | a stopped sender stays put; at most one frame goes out per pass; the wire only grows |
| Pacing.SenderLoopInvariant | client.c:107-122 | after any trace: bits = frames·(size+42)·8; next due time = frames·time_per_packet; frame k on the wire is the pattern stamped k, sent no earlier than k·time_per_packet and before the deadline; `seq` counts stamped frames |
| Pacing.SenderStepKeepsInvariant | client.c:118-122 | every pass, whether it sends, fails, waits or finishes, keeps those counter, schedule and stamp identities |
| Pacing.SendsWhenDue | client.c:107-119 | a due pass within the duration whose send succeeds appends frame `packets_sent` stamped with that number |
| Pacing.WaitsUntilDue | client.c:107 | a pass before the due time changes nothing |
| Pacing.DueBeforeDeadline | client.c:102-107 | a frame due before the deadline fits in `bandwidth·duration` bits |
| Pacing.SentBitsBound | client.c:102-122 | bits sent stay below `bandwidth·duration + frame bits` |
| Pacing.SeqAtExit | client.c:109-118 | at exit, `seq == packets_sent` after the deadline, or `packets_sent + 1` after a failed send |
| Unpaced.FillFrame | test.c:55-57 | the buffer has `packet_size` bytes with byte i = i % 256 |
| Unpaced.UnpacedSend | test.c:62-81 | the count is the number of successful sends, at most `num_packets`; frame i is the pattern stamped i; a short count means the send at that index failed |
| Budget.TotalPayloadBudget | server.c:277-285 | for a positive packet size: a multiple of it, at most `⌊bw·dur⌋/8` and within one packet of it; a negative size (a huge `uint64_t` divisor) gives 0 |
| Budget.BudgetIsLargestMultiple | server.c:280-284 | no larger multiple of the packet size fits in the byte total |
| Budget.DefaultBudget | server.c:277-285 | 1024-byte packets at 1 Mbit/s for 10 s give 1 249 280 bytes |
| Dispatch.Resolve | main.c:71-105 | the program fails exactly when it is neither server nor (client with an address) |
| Dispatch.ModeSelection | main.c:71-94 | no flag fails; the server flag wins; the peer's `measure_delay` picks the echo server over the receiver; a client without an address fails; the client's `measure_delay` picks the delay probe over the paced sender |
| Dispatch.Defaults | main.c:85-105 | zero packet size, bandwidth and duration become 1024, 1 000 000 and 10, for the receiver from the peer's config and for the client from its options |
| Dispatch.PortResolution | main.c:80-103 | a given port serves both channels; otherwise control uses 8080 and data `PORT_UDP` |
| Dispatch.SenderConfigOf | main.c:103-104 | the paced sender gets the resolved packet size and duration, and the `int` bandwidth converted to `uint64_t`: the value in `[0, 2^64)` congruent to it |
| Dispatch.DefaultsSuitSender | main.c:103-104 | for every `int` bandwidth and a default or >= 4-byte packet size, the sender accepts the configuration; its rate is 1 000 000 for 0, the option itself when positive and `2^64 + b` when negative |

### Behaviour of the code worth knowing

- **Gap loss.** For the stream 0,1,2,5,6 the code counts the gap
  `5 - 3 = 2`, so two datagrams are reported lost (`Loss.GapExample`).
- **Duplicates and reordering.** For `seq < expected_seq` the code takes
  the same mismatch branch and adds the wrapped negative gap, so a
  duplicate lowers the counter by one modulo 2^32
  (`Loss.DuplicateExample`).
- **Lossless run.** The datagram that starts the clock is not accounted,
  so a lossless sender numbering from 0 is reported one short
  (`Server.LosslessRunReportsOneLoss`).
- **Undersized datagrams.** They are accounted: their length counts, and
  the sequence field is read from whatever the buffer holds
  (`Receiver.Deliver`, `Receiver.DeliverDecodes`).
- **Initial wait in `server.c`.** It spins on a non-blocking socket,
  ignoring errors and empty datagrams. In `test.c`, any datagram, even an
  empty one, starts the clock, and an error ends the program.

## Left out

- Sockets (`socket`, `bind`, `fcntl`, `setsockopt`, `connect`, `send`,
  `recv`): they become input traces of outcomes. A setup failure exits
  before any loop and is not modelled.
- `gettimeofday` and `usleep`: clock readings are inputs. The `usleep(10)`
  back-off is a no-op pass.
- Clock direction: datagram arrival times (`Datagram.arrivalUs`) are any
  integers, so a clock stepping back gives a negative gap, which takes no
  jitter sample. The deadline and bucket clock (`Server.Poll.elapsedUs`)
  is `nat` microseconds since the start, so a reading before the start is
  not modelled. `Server.BucketsMonotone` assumes that clock never goes
  back.
- Floating point: gaps, jitter, mean and variance are exact
  integers/reals. `sqrt` is not modelled; the variance is its argument.
  Goodput, throughput, loss percentage, overhead, packet rate, the 3-sigma
  bound, the per-bucket Mbps values and the sender's final statistics are
  reporting only.
- `Budget.TotalBits`: `calculate_total_payload_bytes` forms
  `bandwidth_bps * duration_sec` in `double`, which rounds a `uint64_t`
  bandwidth above 2^53 and rounds the product. The model takes the exact
  real product before truncating it.
- `Pacing.SenderLoopInvariant`: `time_per_packet` and the schedule
  `packets_sent * time_per_packet` are `double`s in `udp_sender`. The model
  uses exact reals, so rounding in the comparison with the clock is not
  modelled.
- Output: `output.json`, every `printf`/`perror`, `print_config`, and the
  sender's progress line every 1000 packets.
- 64-bit counters: payload, transmitted, bit and packet counters are
  unbounded. The sender's bit counter `total_bits_sent` wraps after 2^61
  bytes have been sent; the byte counters wrap after 2^64 bytes.
- `Jitter.Observe`: `jitter_samples` is a C `int`, modelled as `nat`.
  Overflowing it needs more than 2^31 - 1 samples, which is undefined
  behaviour in C.
- `Receiver.Ingest`, `Receiver.Absorb` and `Receiver.DeliverDecodes`
  require a buffer of at least 4 bytes, and so do the receivers built on
  them. With a smaller `payload_size`, reading the sequence number reads
  past the allocation, which C leaves undefined.
- `Pacing.ValidConfig`: the sender requires `packet_size >= 4`, because
  stamping a smaller buffer writes past it. It also requires a positive
  bandwidth: with 0 the C double division gives infinity, which `real`
  does not have.
- `Dispatch.SenderConfigOf`: requires a non-negative packet size. For a
  negative `-l`, `malloc(packet_size)` in `udp_sender` gets the size
  converted to a huge `size_t`, fails, and the sender exits before its
  loop (client.c:75-80), which is not modelled.
- `Dispatch.DefaultsSuitSender`: requires a given packet size to be 0 or
  at least 4. Sizes 1 to 3 pass `malloc`, but `udp_sender` then stamps the
  4-byte sequence number past the `packet_size`-byte buffer. It also requires the bandwidth option
  within `int`, as `atoi` returns it.
- `Unpaced.UnpacedSend`: requires `packet_size >= 4`, because stamping a
  smaller buffer writes past it, and `num_packets` within `int`.
- `Budget.TotalPayloadBudget`: requires `bandwidth·duration` to lie in
  `[0, 2^64)`, because converting an out-of-range double to `uint64_t` is
  undefined in C. Packet size 0, a division by zero, is excluded.
- Control exchange (`start_tcp_server`, `start_tcp_client`): only the
  header codec and the body-length decision are modelled.
  - The client sends the 14-byte greeting.
  - The server reads it into a freshly allocated `Config`, whose fields
    are then not defined by the program.
  - The fields `main` consults are therefore the input
    `Dispatch.PeerConfig`.
- `PORT_UDP`: its definition is not part of this model. It is the
  parameter `udpPortDefault` of `Dispatch.Resolve`.
- The echo server `udp_server`, the delay probe `udp_client_duration` and
  its median: only their selection by `main` is modelled. The probe's body
  is not part of this model.
- `getopt` option parsing, `sleep(wait_time)`, the `main` of `test.c`,
  and plot.py.
