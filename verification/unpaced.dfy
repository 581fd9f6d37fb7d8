/** The unpaced sender of test.c: fill a frame with the byte pattern, then
    send `num_packets` frames back to back, each stamped with its index,
    stopping at the first failed send.  It reports the number of frames
    that went out. */
module Unpaced {
  import opened Ints
  import opened Wire

  /** The byte-by-byte fill loop of the frame buffer: byte `i` holds
      `i % 256`, which is the fill pattern every data frame is built on. */
  method FillFrame(packetSize: nat) returns (packet: seq<uint8>)
    ensures |packet| == packetSize
    ensures forall i :: 0 <= i < packetSize ==> packet[i] as int == i % 256
    ensures packet == FillPattern(packetSize)
  {
    packet := [];
    var i := 0;
    while i < packetSize
      invariant 0 <= i <= packetSize
      invariant |packet| == i
      invariant forall k :: 0 <= k < i ==> packet[k] as int == k % 256
    {
      packet := packet + [(i % TWO_8) as uint8];
      i := i + 1;
    }
  }

  /** Sends frames `0 .. numPackets - 1` while `sendOk` allows.  Returns
      the count printed at the end and the frames that went out: every
      frame sent is the fill pattern stamped with its index, the count is
      the number of successful sends, and a count short of `numPackets`
      means the send of that index failed. */
  method UnpacedSend(packetSize: nat, numPackets: int, sendOk: nat -> bool)
    returns (count: nat, wire: seq<seq<uint8>>)
    requires packetSize >= SeqWidth
    requires numPackets <= Int32Max
    ensures count == |wire|
    ensures count <= if numPackets < 0 then 0 else numPackets
    ensures forall i :: 0 <= i < count ==> sendOk(i)
    ensures forall i :: 0 <= i < count ==> wire[i] == DataFrame(packetSize, i as uint32)
    ensures forall i :: 0 <= i < count ==> |wire[i]| == packetSize && ReadBe32(wire[i]) as int == i
    ensures count < numPackets ==> !sendOk(count)
  {
    var packet := FillFrame(packetSize);
    var i := 0;
    wire := [];
    while i < numPackets
      invariant 0 <= i <= Int32Max
      invariant if numPackets < 0 then i == 0 else i <= numPackets
      invariant |wire| == i
      invariant forall k :: 0 <= k < i ==> sendOk(k)
      invariant forall k :: 0 <= k < i ==> wire[k] == DataFrame(packetSize, k as uint32)
      invariant packet == if i == 0 then FillPattern(packetSize) else DataFrame(packetSize, (i - 1) as uint32)
    {
      if i > 0 {
        RestampForgetsOldStamp(FillPattern(packetSize), (i - 1) as uint32, i as uint32);
      }
      packet := Stamp(packet, i as uint32);
      if !sendOk(i) {
        break;
      }
      wire := wire + [packet];
      i := i + 1;
    }
    count := i;
    forall k | 0 <= k < count
      ensures |wire[k]| == packetSize && ReadBe32(wire[k]) as int == k
    {
      DataFrameLayout(packetSize, k as uint32);
    }
  }
}
