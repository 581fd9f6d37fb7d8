/** Mode and default resolution of `main` (main.c): from the parsed
    command-line options to what the program runs.  A zero option means
    "not given" and is replaced by its default.  The server learns the
    receiver's parameters from the configuration it reads on the control
    connection. */
module Dispatch {
  import opened Ints
  import opened Optional
  import Pacing

  /** Control-channel port used when no port is given (`PORT`). */
  const ControlPortDefault: int := 8080
  const PacketSizeDefault: int := 1024
  const BandwidthDefault: int := 1_000_000
  const DurationDefault: int := 10

  /** The parsed options (`-s -c -a -p -l -b -t -d`). */
  datatype Options = Options(
    isServer: bool,
    isClient: bool,
    address: Option<string>,
    port: int,
    udpPacketSize: int,
    bandwidth: int,
    duration: int,
    measureDelay: bool)

  /** The fields of the configuration the server reads from its peer that
      decide what it runs. */
  datatype PeerConfig = PeerConfig(udpPacketSize: int, duration: int, measureDelay: bool)

  datatype Failure = NoMode | NoAddress

  /** What the program runs.  Both server actions follow the control
      exchange on `controlPort`; both client actions follow the greeting
      sent to `address` on `controlPort`. */
  datatype Action =
    | Fail(failure: Failure)
    | EchoServer(controlPort: int, udpPort: int)
    | Receive(controlPort: int, udpPort: int, payloadSize: int, durationSec: int)
    | DelayProbe(controlPort: int, address: string, udpPort: int, durationSec: int)
    | PacedSend(controlPort: int, address: string, udpPort: int, packetSize: int, bandwidthBps: int, durationSec: int)

  /** `x ? x : d` */
  function OrDefault(x: int, d: int): (r: int)
    ensures x != 0 ==> r == x
    ensures x == 0 ==> r == d
  {
    if x != 0 then x else d
  }

  /** The dispatch of `main`.  `udpPortDefault` stands for `PORT_UDP`,
      whose value is not part of this model. */
  function Resolve(o: Options, peer: PeerConfig, udpPortDefault: int): (a: Action)
    ensures a.Fail? <==> !o.isServer && (!o.isClient || o.address.None?)
  {
    if !o.isServer && !o.isClient then Fail(NoMode)
    else if o.isServer then
      var control := OrDefault(o.port, ControlPortDefault);
      var udp := OrDefault(o.port, udpPortDefault);
      if peer.measureDelay then EchoServer(control, udp)
      else Receive(control, udp, OrDefault(peer.udpPacketSize, PacketSizeDefault), OrDefault(peer.duration, DurationDefault))
    else if o.address.None? then Fail(NoAddress)
    else
      var control := OrDefault(o.port, ControlPortDefault);
      var udp := OrDefault(o.port, udpPortDefault);
      if o.measureDelay then DelayProbe(control, o.address.value, udp, OrDefault(o.duration, DurationDefault))
      else PacedSend(control, o.address.value, udp,
                     OrDefault(o.udpPacketSize, PacketSizeDefault),
                     OrDefault(o.bandwidth, BandwidthDefault),
                     OrDefault(o.duration, DurationDefault))
  }

  /** Which branch runs: neither flag fails; the server flag wins over the
      client flag and then the peer's `measure_delay` picks the echo server
      over the receiver; a client without an address fails; otherwise the
      client's own `measure_delay` picks the delay probe over the paced
      sender. */
  lemma ModeSelection(o: Options, peer: PeerConfig, udpPortDefault: int)
    ensures var a := Resolve(o, peer, udpPortDefault);
            && (a == Fail(NoMode) <==> !o.isServer && !o.isClient)
            && (o.isServer ==> (a.EchoServer? <==> peer.measureDelay) && (a.Receive? <==> !peer.measureDelay))
            && (a == Fail(NoAddress) <==> !o.isServer && o.isClient && o.address.None?)
            && (a.DelayProbe? <==> !o.isServer && o.isClient && o.address.Some? && o.measureDelay)
            && (a.PacedSend? <==> !o.isServer && o.isClient && o.address.Some? && !o.measureDelay)
  {
  }

  /** Zero options are defaulted: the receiver gets 1024-byte payloads and
      10 s unless the peer's configuration says otherwise; the paced sender
      gets 1024-byte packets, 1 Mbit/s and 10 s unless given.  No resolved
      size, rate or duration is zero. */
  lemma Defaults(o: Options, peer: PeerConfig, udpPortDefault: int)
    ensures var a := Resolve(o, peer, udpPortDefault);
            && (a.Receive? ==>
                  && a.payloadSize == (if peer.udpPacketSize == 0 then 1024 else peer.udpPacketSize)
                  && a.durationSec == (if peer.duration == 0 then 10 else peer.duration))
            && (a.PacedSend? ==>
                  && a.packetSize == (if o.udpPacketSize == 0 then 1024 else o.udpPacketSize)
                  && a.bandwidthBps == (if o.bandwidth == 0 then 1_000_000 else o.bandwidth)
                  && a.durationSec == (if o.duration == 0 then 10 else o.duration))
            && (a.DelayProbe? ==> a.durationSec == (if o.duration == 0 then 10 else o.duration))
            && (a.Receive? ==> a.payloadSize != 0 && a.durationSec != 0)
            && (a.PacedSend? ==> a.packetSize != 0 && a.bandwidthBps != 0 && a.durationSec != 0)
  {
  }

  /** A given port is used for both channels; otherwise the control channel
      uses 8080 and the data channel `PORT_UDP`. */
  lemma PortResolution(o: Options, peer: PeerConfig, udpPortDefault: int)
    ensures var a := Resolve(o, peer, udpPortDefault);
            !a.Fail? ==>
              && a.controlPort == (if o.port != 0 then o.port else 8080)
              && a.udpPort == (if o.port != 0 then o.port else udpPortDefault)
  {
  }

  /** The paced sender's parameters as `udp_sender` receives them: the
      `int` bandwidth option is passed to a `uint64_t` parameter, so a
      negative one arrives as 2^64 plus it. */
  function SenderConfigOf(a: Action): (c: Pacing.SenderConfig)
    requires a.PacedSend? && a.packetSize >= 0 && Int32Min <= a.bandwidthBps <= Int32Max
    ensures c.packetSize == a.packetSize && c.durationSec == a.durationSec as real
    ensures c.bandwidthBps < TWO_64 && (c.bandwidthBps - a.bandwidthBps) % TWO_64 == 0
  {
    Pacing.SenderConfig(a.packetSize, ToUint64(a.bandwidthBps), a.durationSec as real)
  }

  /** Options that leave the packet size at its default or give at least
      four bytes resolve to a configuration the paced sender accepts, for
      every `int` bandwidth: zero becomes 1 Mbit/s, a positive one is taken
      as is and a negative one wraps to a rate above 2^64 - 2^31. */
  lemma DefaultsSuitSender(o: Options, peer: PeerConfig, udpPortDefault: int)
    requires o.udpPacketSize == 0 || o.udpPacketSize >= 4
    requires Int32Min <= o.bandwidth <= Int32Max
    ensures var a := Resolve(o, peer, udpPortDefault);
            a.PacedSend? ==>
              && a.packetSize >= 4 && Int32Min <= a.bandwidthBps <= Int32Max
              && Pacing.ValidConfig(SenderConfigOf(a))
              && SenderConfigOf(a).bandwidthBps ==
                   if o.bandwidth == 0 then 1_000_000
                   else if o.bandwidth > 0 then o.bandwidth
                   else TWO_64 + o.bandwidth
  {
  }
}
