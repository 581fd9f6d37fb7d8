/** Wire formats: the per-frame overhead constant, the big-endian
    (network byte order) integer codecs, the data frame stamped with a
    sequence number, and the control-channel header. */
module Wire {
  import opened Ints
  import opened Optional

  /** Simulated link/network/transport overhead charged to every frame. */
  const EthernetHeaderSize: nat := 14
  const IpHeaderSize: nat := 20
  const UdpHeaderSize: nat := 8
  const TotalHeaderSize: nat := EthernetHeaderSize + IpHeaderSize + UdpHeaderSize

  /** Width of the sequence number at the start of every data frame. */
  const SeqWidth: nat := 4

  // ---------------------------------------------------------------------
  // Network byte order

  function Be16(x: uint16): (b: seq<uint8>)
    ensures |b| == 2
  {
    [(x as int / TWO_8) as uint8, (x as int % TWO_8) as uint8]
  }

  function ReadBe16(b: seq<uint8>): uint16
    requires |b| >= 2
  {
    (b[0] as int * TWO_8 + b[1] as int) as uint16
  }

  function Be32(x: uint32): (b: seq<uint8>)
    ensures |b| == 4
  {
    var v := x as int;
    [ (v / 0x100_0000) as uint8,
      (v / 0x1_0000 % TWO_8) as uint8,
      (v / TWO_8 % TWO_8) as uint8,
      (v % TWO_8) as uint8 ]
  }

  /** `ntohl` of the first four bytes of `b`. */
  function ReadBe32(b: seq<uint8>): uint32
    requires |b| >= 4
  {
    (b[0] as int * 0x100_0000 + b[1] as int * 0x1_0000 + b[2] as int * TWO_8 + b[3] as int) as uint32
  }

  lemma Be16RoundTrip(x: uint16)
    ensures ReadBe16(Be16(x)) == x
  {
  }

  lemma ReadBe16Inverse(b: seq<uint8>)
    requires |b| == 2
    ensures Be16(ReadBe16(b)) == b
  {
  }

  /** Decoding the four bytes `htonl` wrote gives the number back. */
  lemma Be32RoundTrip(x: uint32)
    ensures ReadBe32(Be32(x)) == x
  {
    var v := x as int;
    var b := Be32(x);
    assert v / 0x1_0000 == (v / 0x100_0000) * TWO_8 + v / 0x1_0000 % TWO_8;
    assert v / TWO_8 == (v / 0x1_0000) * TWO_8 + v / TWO_8 % TWO_8;
    assert v == (v / TWO_8) * TWO_8 + v % TWO_8;
  }

  /** Every four-byte string is the encoding of the number it decodes to. */
  lemma ReadBe32Inverse(b: seq<uint8>)
    requires |b| == 4
    ensures Be32(ReadBe32(b)) == b
  {
    var v := ReadBe32(b) as int;
    var hi := b[0] as int * TWO_8 + b[1] as int;
    var mid := hi * TWO_8 + b[2] as int;
    assert v == mid * TWO_8 + b[3] as int;
    assert v % TWO_8 == b[3] as int && v / TWO_8 == mid;
    assert mid % TWO_8 == b[2] as int && mid / TWO_8 == hi;
    assert hi % TWO_8 == b[1] as int && hi / TWO_8 == b[0] as int;
    assert v / 0x1_0000 == mid / TWO_8;
    assert v / 0x100_0000 == hi / TWO_8;
  }

  // ---------------------------------------------------------------------
  // Data frames

  /** The filler the senders write once into the frame buffer: byte `i`
      holds `i % 256`. */
  function FillPattern(size: nat): seq<uint8>
  {
    seq(size, i => (i % TWO_8) as uint8)
  }

  /** Overwrite the first four bytes of a frame with a sequence number in
      network byte order; the rest of the frame is kept. */
  function Stamp(frame: seq<uint8>, s: uint32): (f: seq<uint8>)
    requires |frame| >= SeqWidth
    ensures |f| == |frame|
    ensures ReadBe32(f) == s
    ensures f[SeqWidth..] == frame[SeqWidth..]
  {
    Be32RoundTrip(s);
    Be32(s) + frame[SeqWidth..]
  }

  /** The datagram a sender hands to the network for sequence number `s`. */
  function DataFrame(packetSize: nat, s: uint32): seq<uint8>
    requires packetSize >= SeqWidth
  {
    Stamp(FillPattern(packetSize), s)
  }

  /** A data frame is `packetSize` bytes long, starts with its sequence
      number and carries the fill pattern everywhere after it. */
  lemma DataFrameLayout(packetSize: nat, s: uint32)
    requires packetSize >= SeqWidth
    ensures |DataFrame(packetSize, s)| == packetSize
    ensures ReadBe32(DataFrame(packetSize, s)) == s
    ensures forall i :: SeqWidth <= i < packetSize ==> DataFrame(packetSize, s)[i] as int == i % 256
  {
    var f := DataFrame(packetSize, s);
    forall i | SeqWidth <= i < packetSize
      ensures f[i] as int == i % 256
    {
      assert f[i] == f[SeqWidth..][i - SeqWidth] == FillPattern(packetSize)[SeqWidth..][i - SeqWidth];
    }
  }

  /** Stamping replaces the previous stamp completely: restamping a frame
      gives the same bytes as stamping the original. */
  lemma RestampForgetsOldStamp(frame: seq<uint8>, s: uint32, t: uint32)
    requires |frame| >= SeqWidth
    ensures Stamp(Stamp(frame, s), t) == Stamp(frame, t)
  {
  }

  // ---------------------------------------------------------------------
  // Control channel header

  datatype Header = Header(msgType: uint16, msgLength: uint16, timestamp: uint32)

  const HeaderSize: nat := 8

  /** Fields in declaration order, each in network byte order. */
  function EncodeHeader(h: Header): (b: seq<uint8>)
    ensures |b| == HeaderSize
  {
    Be16(h.msgType) + Be16(h.msgLength) + Be32(h.timestamp)
  }

  function DecodeHeader(b: seq<uint8>): Header
    requires |b| == HeaderSize
  {
    Header(ReadBe16(b[0..2]), ReadBe16(b[2..4]), ReadBe32(b[4..8]))
  }

  lemma HeaderRoundTrip(h: Header)
    ensures DecodeHeader(EncodeHeader(h)) == h
  {
    var b := EncodeHeader(h);
    assert b[0..2] == Be16(h.msgType);
    assert b[2..4] == Be16(h.msgLength);
    assert b[4..8] == Be32(h.timestamp);
    Be16RoundTrip(h.msgType);
    Be16RoundTrip(h.msgLength);
    Be32RoundTrip(h.timestamp);
  }

  lemma HeaderBytesRoundTrip(b: seq<uint8>)
    requires |b| == HeaderSize
    ensures EncodeHeader(DecodeHeader(b)) == b
  {
    ReadBe16Inverse(b[0..2]);
    ReadBe16Inverse(b[2..4]);
    ReadBe32Inverse(b[4..8]);
    assert b == b[0..2] + b[2..4] + b[4..8];
  }

  /** The bytes of an ASCII text, one byte per character. */
  function Ascii(s: string): (b: seq<uint8>)
    requires forall i :: 0 <= i < |s| ==> s[i] < 128 as char
    ensures |b| == |s|
    ensures forall i :: 0 <= i < |s| ==> b[i] as int == s[i] as int
  {
    seq(|s|, i requires 0 <= i < |s| => s[i] as int as uint8)
  }

  /** `strlen`: the number of bytes before the first NUL byte, or all of
      them when there is none. */
  function Strlen(m: seq<uint8>): (n: nat)
    ensures n <= |m|
    ensures forall i :: 0 <= i < n ==> m[i] != 0
    ensures n < |m| ==> m[n] == 0
  {
    if |m| == 0 || m[0] == 0 then 0 else 1 + Strlen(m[1..])
  }

  /** The greeting the client sends as the control message body. */
  const Greeting: seq<uint8> := Ascii("Hello, Server!")

  const MsgTypeGreeting: uint16 := 1

  /** The header the client builds for a C string `message` at wall-clock
      time `now` (seconds): type 1, the message's `strlen` and the time,
      each converted to the field's unsigned width. */
  function ClientHeader(message: seq<uint8>, now: int): Header
  {
    Header(MsgTypeGreeting, Wrap16(Strlen(message)), Wrap32(now))
  }

  /** What the server does after reading a header: the length of the body
      it goes on to read, or None when the announced length is zero. */
  function BodyToRead(b: seq<uint8>): (r: Option<nat>)
    requires |b| == HeaderSize
    ensures r.Some? ==> r.value > 0
  {
    var len := DecodeHeader(b).msgLength as int;
    if len > 0 then Some(len) else None
  }

  /** The handshake as the two ends implement it: the server recovers the
      client's type, length and time, and reads a body exactly when the
      message's `strlen`, taken modulo 2^16, is non-zero. */
  lemma ControlHandshake(message: seq<uint8>, now: int)
    ensures DecodeHeader(EncodeHeader(ClientHeader(message, now))).msgType == 1
    ensures DecodeHeader(EncodeHeader(ClientHeader(message, now))).msgLength as int == Strlen(message) % 0x1_0000
    ensures DecodeHeader(EncodeHeader(ClientHeader(message, now))).timestamp as int == now % 0x1_0000_0000
    ensures BodyToRead(EncodeHeader(ClientHeader(message, now))).Some?
            <==> Strlen(message) % 0x1_0000 > 0
    ensures BodyToRead(EncodeHeader(ClientHeader(message, now))).Some? ==>
              BodyToRead(EncodeHeader(ClientHeader(message, now))).value == Strlen(message) % 0x1_0000
  {
    HeaderRoundTrip(ClientHeader(message, now));
  }

  /** For the fixed greeting the server reads a 14-byte body. */
  lemma GreetingHandshake(now: int)
    ensures BodyToRead(EncodeHeader(ClientHeader(Greeting, now))) == Some(14)
  {
    HeaderRoundTrip(ClientHeader(Greeting, now));
    GreetingLength();
  }

  /** The greeting has no NUL byte, so `strlen` counts all 14 bytes. */
  lemma GreetingLength()
    ensures Strlen(Greeting) == 14
  {
    var text := "Hello, Server!";
    assert forall i :: 0 <= i < |text| ==> text[i] != '\0';
    assert forall i :: 0 <= i < |Greeting| ==> Greeting[i] != 0;
  }
}
