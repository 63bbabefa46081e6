/** The four-byte command packets the host sends to the sensor module, and
    the one query reply the host reads back. */
module Command {
  import opened Wire
  import opened Results

  /** First byte of every command packet. */
  const Header: uint8 := 0xA5

  /** The two bytes that vary between commands. */
  datatype Packet = Packet(opcode: uint8, payload: uint8)

  /** The commands the host program writes (or keeps commented out). */
  datatype Command =
    | QueryEmissivity
    | SetBaud460800
    | SetRate8Hz
    | StartStreaming
    | StopStreaming

  /** The opcode and payload of each command; the command can be read back
      from them. */
  function PacketOf(c: Command): (p: Packet)
    ensures CommandOf(p) == Some(c)
  {
    match c
    case QueryEmissivity => Packet(0x55, 0x01)
    case SetBaud460800 => Packet(0x15, 0x03)
    case SetRate8Hz => Packet(0x25, 0x04)
    case StartStreaming => Packet(0x35, 0x02)
    case StopStreaming => Packet(0x35, 0x01)
  }

  /** Which command, if any, an opcode and payload stand for. */
  function CommandOf(p: Packet): Option<Command>
  {
    match p
    case Packet(0x55, 0x01) => Some(QueryEmissivity)
    case Packet(0x15, 0x03) => Some(SetBaud460800)
    case Packet(0x25, 0x04) => Some(SetRate8Hz)
    case Packet(0x35, 0x02) => Some(StartStreaming)
    case Packet(0x35, 0x01) => Some(StopStreaming)
    case _ => None
  }

  /** The last byte of a packet: the byte that makes the four bytes sum to
      a multiple of 256 once it is subtracted. */
  function Checksum(opcode: uint8, payload: uint8): (c: uint8)
    ensures (Header + opcode + payload - c) % 0x100 == 0
  {
    (Header + opcode + payload) % 0x100
  }

  /** A four-byte sequence with the header in front and the checksum of the
      first three bytes at the end. */
  predicate WellFormed(b: seq<uint8>)
  {
    |b| == 4 && b[0] == Header && b[3] == Checksum(b[1], b[2])
  }

  /** The bytes written to the serial link for one packet. */
  function Encode(p: Packet): (b: seq<uint8>)
    ensures WellFormed(b)
    ensures b[1] == p.opcode && b[2] == p.payload
  {
    [Header, p.opcode, p.payload, Checksum(p.opcode, p.payload)]
  }

  /** Recovers the packet from four bytes read back from the link; `None`
      when the bytes are not a well-formed packet. */
  function Parse(b: seq<uint8>): (r: Option<Packet>)
    ensures r.Some? <==> WellFormed(b)
  {
    if WellFormed(b) then Some(Packet(b[1], b[2])) else None
  }

  /** Parsing the bytes of any packet gives that packet back. */
  lemma ParseEncode(p: Packet)
    ensures Parse(Encode(p)) == Some(p)
  {
  }

  /** A sequence that parses is exactly the encoding of what it parses to,
      so well-formed packets and their encodings are in one-to-one
      correspondence. */
  lemma EncodeParse(b: seq<uint8>)
    requires Parse(b).Some?
    ensures Encode(Parse(b).value) == b
  {
    assert b == [b[0], b[1], b[2], b[3]];
  }

  /** The emissivity query is written as A5 55 01 FB. */
  lemma QueryEmissivityLiteral()
    ensures Encode(PacketOf(QueryEmissivity)) == [0xA5, 0x55, 0x01, 0xFB]
  {
  }

  /** The (disabled) switch to 460800 baud is written as A5 15 03 BD. */
  lemma SetBaudLiteral()
    ensures Encode(PacketOf(SetBaud460800)) == [0xA5, 0x15, 0x03, 0xBD]
  {
  }

  /** The start-up commands are written as A5 25 04 CE (8 Hz frame rate)
      and A5 35 02 DC (start streaming). */
  lemma StartupLiterals()
    ensures Encode(PacketOf(SetRate8Hz)) == [0xA5, 0x25, 0x04, 0xCE]
    ensures Encode(PacketOf(StartStreaming)) == [0xA5, 0x35, 0x02, 0xDC]
  {
  }

  /** The stop command is written as A5 35 01 DB. */
  lemma StopStreamingLiteral()
    ensures Encode(PacketOf(StopStreaming)) == [0xA5, 0x35, 0x01, 0xDB]
  {
  }

  /** The commands are told apart by their packets: distinct commands never
      share wire bytes. */
  lemma PacketsDistinct(c: Command, d: Command)
    requires c != d
    ensures Encode(PacketOf(c)) != Encode(PacketOf(d))
  {
    ParseEncode(PacketOf(c));
    ParseEncode(PacketOf(d));
  }

  /** Why a reply could not be interpreted. */
  datatype ReplyError = ShortReply

  /** The emissivity carried by the reply to `QueryEmissivity`: its third
      byte, in hundredths. A reply too short to have a third byte has no
      emissivity. */
  function Emissivity(reply: seq<uint8>): (r: Result<real, ReplyError>)
    ensures r.Success? <==> |reply| >= 3
    ensures r.Success? ==> 0.0 <= r.value <= 2.55
    ensures r.Success? ==> r.value * 100.0 == reply[2] as real
  {
    if |reply| < 3 then Failure(ShortReply) else Success(reply[2] as real / 100.0)
  }
}
