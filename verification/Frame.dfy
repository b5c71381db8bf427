/** Frames and their wire form (silkroad-network/src/frame.rs). */
module Frames {
  import opened Wrappers
  import opened Words
  import opened Security

  const MASSIVE_PACKET_OPCODE := 0x600D
  /** The length field keeps 15 bits for the size; the top bit says encrypted. */
  const ENCRYPTED_FLAG := 0x8000

  datatype SilkroadFrame =
    | Packet(count: byte, crc: byte, opcode: u16, encrypted: bool, data: Bytes)
    | MassiveHeader(count: byte, crc: byte, containedOpcode: u16, containedCount: u16)
    | MassiveContainer(count: byte, crc: byte, inner: Bytes)

  /** The security of a connection as one call sees it. */
  datatype Link = NoSecurity | Secured(cipher: BlockCipher, state: SecurityState)

  /** `OutOfBounds`: an index past the end of a massive frame that is too short. */
  datatype FrameError = Incomplete | MissingSecurity | SecurityFailure(error: SecurityError) | OutOfBounds

  datatype Parsed = Parsed(size: nat, frame: SilkroadFrame)

  function U16Le(v: u16): Bytes {
    [v % 0x100, v / 0x100]
  }

  function ReadU16(low: byte, high: byte): u16 {
    low + 0x100 * high
  }

  // ---------------------------------------------------------------- Sizes

  function ContentSize(frame: SilkroadFrame): nat {
    match frame
    case Packet(_, _, _, _, data) => |data|
    case MassiveHeader(_, _, _, _) => 6
    case MassiveContainer(_, _, inner) => 1 + |inner|
  }

  function PacketSize(frame: SilkroadFrame): nat {
    6 + if frame.Packet? && frame.encrypted then FindEncryptedLength(|frame.data| + 4) - 4 else ContentSize(frame)
  }

  // ---------------------------------------------------------------- Writing

  function Opcode(frame: SilkroadFrame): u16 {
    if frame.Packet? then frame.opcode else MASSIVE_PACKET_OPCODE
  }

  /** Everything behind the length field, before encryption. */
  function Payload(frame: SilkroadFrame): Bytes {
    U16Le(Opcode(frame)) + [frame.count, frame.crc] +
    match frame
    case Packet(_, _, _, _, data) => data
    case MassiveHeader(_, _, opcode, count) => [1] + U16Le(count) + U16Le(opcode) + [0]
    case MassiveContainer(_, _, inner) => [0] + inner
  }

  /** `content_size() as u16`, with the top bit set for encrypted frames. */
  function LengthField(frame: SilkroadFrame): u16 {
    if frame.Packet? && frame.encrypted then ContentSize(frame) % ENCRYPTED_FLAG + ENCRYPTED_FLAG
    else ContentSize(frame) % 0x1_0000
  }

  function Wire(frame: SilkroadFrame, link: Link): Result<Bytes, FrameError> {
    if frame.Packet? && frame.encrypted then
      if link.NoSecurity? then Err(MissingSecurity)
      else
        var body := EncryptBytes(link.cipher, link.state, Payload(frame));
        if body.Err? then Err(SecurityFailure(body.error)) else Ok(U16Le(LengthField(frame)) + body.value)
    else Ok(U16Le(LengthField(frame)) + Payload(frame))
  }

  /** `serialize`, filling the buffer from the front. */
  method Serialize(frame: SilkroadFrame, link: Link) returns (r: Result<Bytes, FrameError>)
    ensures r == Wire(frame, link)
  {
    match frame {
      case Packet(count, crc, opcode, encrypted, data) =>
        var content := PutPacket(frame);
        if encrypted {
          if link.NoSecurity? {
            return Err(MissingSecurity);
          }
          var body := EncryptBytes(link.cipher, link.state, content);
          if body.Err? {
            return Err(SecurityFailure(body.error));
          }
          return Ok(U16Le(|data| % ENCRYPTED_FLAG + ENCRYPTED_FLAG) + body.value);
        }
        return Ok(U16Le(|data| % 0x1_0000) + content);
      case MassiveHeader(_, _, _, _) =>
        var content := PutHeader(frame);
        return Ok(U16Le(6) + content);
      case MassiveContainer(_, _, inner) =>
        var content := PutContainer(frame);
        return Ok(U16Le((1 + |inner|) % 0x1_0000) + content);
    }
  }

  method PutPacket(frame: SilkroadFrame) returns (output: Bytes)
    requires frame.Packet?
    ensures output == Payload(frame)
  {
    output := U16Le(frame.opcode);
    output := output + [frame.count];
    output := output + [frame.crc];
    output := output + frame.data;
  }

  method PutHeader(frame: SilkroadFrame) returns (output: Bytes)
    requires frame.MassiveHeader?
    ensures output == Payload(frame)
  {
    output := U16Le(MASSIVE_PACKET_OPCODE);
    output := output + [frame.count];
    output := output + [frame.crc];
    output := output + [1];
    output := output + U16Le(frame.containedCount);
    output := output + U16Le(frame.containedOpcode);
    output := output + [0];
  }

  method PutContainer(frame: SilkroadFrame) returns (output: Bytes)
    requires frame.MassiveContainer?
    ensures output == Payload(frame)
  {
    output := U16Le(MASSIVE_PACKET_OPCODE);
    output := output + [frame.count];
    output := output + [frame.crc];
    output := output + [0];
    output := output + frame.inner;
  }

  // ---------------------------------------------------------------- Reading

  /** The bytes behind the length field that belong to the frame. */
  function TotalSize(length: u16): (r: nat)
    ensures r >= 4
  {
    if length >= ENCRYPTED_FLAG then FindEncryptedLength(length - ENCRYPTED_FLAG + 4) else length + 4
  }

  function ParsePlain(plain: Bytes, encrypted: bool): Result<SilkroadFrame, FrameError>
    requires |plain| >= 4
  {
    var opcode, count, crc := ReadU16(plain[0], plain[1]), plain[2], plain[3];
    if opcode != MASSIVE_PACKET_OPCODE then Ok(Packet(count, crc, opcode, encrypted, plain[4..]))
    else if |plain| < 5 then Err(OutOfBounds)
    else if plain[4] == 1 then
      if |plain| < 9 then Err(OutOfBounds)
      else Ok(MassiveHeader(count, crc, ReadU16(plain[7], plain[8]), ReadU16(plain[5], plain[6])))
    else Ok(MassiveContainer(count, crc, plain[5..]))
  }

  function Parse(data: Bytes, link: Link): (r: Result<Parsed, FrameError>)
    ensures r.Ok? ==> 6 <= r.value.size <= |data|
  {
    if |data| < 4 then Err(Incomplete)
    else
      var length := ReadU16(data[0], data[1]);
      var encrypted, total := length >= ENCRYPTED_FLAG, TotalSize(length);
      if |data| - 2 < total then Err(Incomplete)
      else
        var frame := ParseBody(data[2..total + 2], encrypted, link);
        if frame.Err? then Err(frame.error) else Ok(Parsed(total + 2, frame.value))
  }

  /** What is behind the length field, once it is all there. */
  function ParseBody(body: Bytes, encrypted: bool, link: Link): Result<SilkroadFrame, FrameError>
    requires |body| >= 4
  {
    if encrypted && link.NoSecurity? then Err(MissingSecurity)
    else
      var plain := if encrypted then DecryptBytes(link.cipher, link.state, body) else Ok(body);
      if plain.Err? then Err(SecurityFailure(plain.error)) else ParsePlain(plain.value, encrypted)
  }

  // ---------------------------------------------------------------- One frame there and back

  /** What the other side sees: encrypted data keeps its padding. */
  function Received(frame: SilkroadFrame): SilkroadFrame {
    if frame.Packet? && frame.encrypted then frame.(data := Padded(Payload(frame))[4..]) else frame
  }

  lemma ReceivedData(frame: SilkroadFrame)
    requires frame.Packet? && frame.encrypted
    ensures frame.data <= Received(frame).data && |Received(frame).data| < |frame.data| + 8
    ensures forall i :: |frame.data| <= i < |Received(frame).data| ==> Received(frame).data[i] == 0
  {
    assert Padded(Payload(frame))[4..] == frame.data + Zeros(FindEncryptedLength(|frame.data| + 4) - |frame.data| - 4);
  }

  ghost predicate LinkWorks(link: Link) {
    link.Secured? ==> Invertible(link.cipher)
  }

  /** The frame fits the 15 bit length and is not mistaken for a massive frame. */
  predicate Framable(frame: SilkroadFrame) {
    ContentSize(frame) < ENCRYPTED_FLAG && (frame.Packet? ==> frame.opcode != MASSIVE_PACKET_OPCODE)
  }

  lemma WireSize(frame: SilkroadFrame, link: Link)
    requires Wire(frame, link).Ok?
    ensures |Wire(frame, link).value| == PacketSize(frame)
    ensures Wire(frame, link).value[..2] == U16Le(LengthField(frame))
  {
  }

  lemma PlainRoundTrip(frame: SilkroadFrame)
    requires frame.Packet? ==> frame.opcode != MASSIVE_PACKET_OPCODE
    ensures frame.Packet? ==> ParsePlain(Payload(frame), frame.encrypted) == Ok(frame)
    ensures !frame.Packet? ==> ParsePlain(Payload(frame), false) == Ok(frame)
  {
    var plain := Payload(frame);
    match frame {
      case Packet(_, _, _, _, data) => assert plain[4..] == data;
      case MassiveHeader(_, _, _, _) =>
      case MassiveContainer(_, _, inner) => assert plain[5..] == inner;
    }
  }

  lemma PaddedRoundTrip(frame: SilkroadFrame)
    requires frame.Packet? && frame.encrypted && frame.opcode != MASSIVE_PACKET_OPCODE
    ensures |Padded(Payload(frame))| >= 4
    ensures ParsePlain(Padded(Payload(frame)), true) == Ok(Received(frame))
  {
    var plain := Padded(Payload(frame));
    assert plain[..4] == Payload(frame)[..4];
    assert plain[0] == Payload(frame)[0] && plain[1] == Payload(frame)[1];
    assert plain[2] == Payload(frame)[2] && plain[3] == Payload(frame)[3];
  }

  lemma LengthRoundTrip(v: u16)
    ensures ReadU16(U16Le(v)[0], U16Le(v)[1]) == v
  {
  }

  lemma FieldTellsSize(frame: SilkroadFrame)
    requires ContentSize(frame) < ENCRYPTED_FLAG
    ensures TotalSize(LengthField(frame)) + 2 == PacketSize(frame)
  {
    var size := ContentSize(frame);
    assert size % ENCRYPTED_FLAG == size && size % 0x1_0000 == size;
  }

  lemma WireBody(frame: SilkroadFrame, link: Link)
    requires Wire(frame, link).Ok?
    ensures var wire := Wire(frame, link).value;
      && |wire| == PacketSize(frame) >= 6
      && ReadU16(wire[0], wire[1]) == LengthField(frame)
      && wire[2..] == if frame.Packet? && frame.encrypted
           then EncryptBytes(link.cipher, link.state, Payload(frame)).value else Payload(frame)
  {
    WireSize(frame, link);
    LengthRoundTrip(LengthField(frame));
  }

  /** The length field of a wire form leads back to its own end. */
  lemma FieldDelimits(frame: SilkroadFrame, link: Link, rest: Bytes)
    requires Wire(frame, link).Ok? && ContentSize(frame) < ENCRYPTED_FLAG
    ensures var wire := Wire(frame, link).value; var data := wire + rest;
      && |data| >= |wire| == PacketSize(frame) >= 6
      && ReadU16(data[0], data[1]) == LengthField(frame)
      && TotalSize(LengthField(frame)) + 2 == |wire|
      && data[2..|wire|] == wire[2..]
      && wire[2..] == if frame.Packet? && frame.encrypted
           then EncryptBytes(link.cipher, link.state, Payload(frame)).value else Payload(frame)
  {
    WireBody(frame, link);
    FieldTellsSize(frame);
    PrefixSlice(Wire(frame, link).value, rest);
  }

  lemma PrefixSlice(wire: Bytes, rest: Bytes)
    requires |wire| >= 2
    ensures (wire + rest)[2..|wire|] == wire[2..] && (wire + rest)[0] == wire[0] && (wire + rest)[1] == wire[1]
  {
  }

  /** Parsing the wire form of a framable frame, whatever follows it, gives the frame and its size. */
  lemma FrameRoundTrip(frame: SilkroadFrame, link: Link, rest: Bytes)
    requires LinkWorks(link) && Wire(frame, link).Ok? && Framable(frame)
    ensures Parse(Wire(frame, link).value + rest, link) == Ok(Parsed(PacketSize(frame), Received(frame)))
  {
    FieldDelimits(frame, link, rest);
    if frame.Packet? && frame.encrypted {
      EncryptionRoundTrip(link.cipher, link.state, Payload(frame));
      PaddedRoundTrip(frame);
    } else {
      PlainRoundTrip(frame);
    }
  }

  /** The size that `parse` consumes is told by the length field alone; it is the size of the frame
      exactly when the content fits 15 bits. */
  lemma OversizedIsMisread(frame: SilkroadFrame, link: Link, rest: Bytes)
    requires Wire(frame, link).Ok? && ContentSize(frame) >= ENCRYPTED_FLAG
    ensures var r := Parse(Wire(frame, link).value + rest, link); r.Ok? ==> r.value.size < PacketSize(frame)
  {
    var wire := Wire(frame, link).value;
    var data := wire + rest;
    WireSize(frame, link);
    assert data[0] == wire[..2][0] && data[1] == wire[..2][1];
    FieldFallsShort(frame);
    if Parse(data, link).Ok? {
      SizeConsumed(data, link);
    }
  }

  lemma SizeConsumed(data: Bytes, link: Link)
    requires Parse(data, link).Ok?
    ensures Parse(data, link).value.size == TotalSize(ReadU16(data[0], data[1])) + 2
  {
  }

  lemma FieldFallsShort(frame: SilkroadFrame)
    requires ContentSize(frame) >= ENCRYPTED_FLAG
    ensures TotalSize(LengthField(frame)) + 2 < PacketSize(frame)
  {
  }

  /** The size consumed fixes the length of what a packet or a container holds. */
  lemma ParsedLength(data: Bytes, link: Link)
    requires Parse(data, link).Ok?
    ensures var r := Parse(data, link).value;
      && (r.frame.Packet? ==> r.size == |r.frame.data| + 6)
      && (r.frame.MassiveContainer? ==> r.size == |r.frame.inner| + 7)
  {
  }

  /** A frame survives serialising and parsing exactly when it is framable. */
  lemma FrameRoundTripExact(frame: SilkroadFrame, link: Link, rest: Bytes)
    requires LinkWorks(link) && Wire(frame, link).Ok?
    ensures Parse(Wire(frame, link).value + rest, link) == Ok(Parsed(PacketSize(frame), Received(frame)))
      <==> Framable(frame)
  {
    if Framable(frame) {
      FrameRoundTrip(frame, link, rest);
    } else if ContentSize(frame) >= ENCRYPTED_FLAG {
      OversizedIsMisread(frame, link, rest);
    } else {
      MassiveOpcodeIsNoPacket(Wire(frame, link).value + rest, link, frame.opcode);
    }
  }

  lemma MassiveOpcodeIsNoPacket(data: Bytes, link: Link, opcode: u16)
    ensures Parse(data, link).Ok? && Parse(data, link).value.frame.Packet? ==>
      Parse(data, link).value.frame.opcode != MASSIVE_PACKET_OPCODE
  {
  }

  /** Every strict prefix of a frame is incomplete. */
  lemma PrefixIsIncomplete(frame: SilkroadFrame, link: Link, k: nat)
    requires Wire(frame, link).Ok? && ContentSize(frame) < ENCRYPTED_FLAG && k < PacketSize(frame)
    ensures |Wire(frame, link).value| == PacketSize(frame)
    ensures Parse(Wire(frame, link).value[..k], link) == Err(Incomplete)
  {
    var wire := Wire(frame, link).value;
    FieldDelimits(frame, link, []);
    assert wire + [] == wire;
    if k >= 4 {
      assert wire[..k][0] == wire[0] && wire[..k][1] == wire[1];
      TooShort(wire[..k], link, LengthField(frame));
    }
  }

  lemma TooShort(data: Bytes, link: Link, length: u16)
    requires |data| >= 4 && ReadU16(data[0], data[1]) == length && |data| < TotalSize(length) + 2
    ensures Parse(data, link) == Err(Incomplete)
  {
  }

  /** Any answer other than Incomplete is about a prefix only: more bytes do not change it. */
  lemma AnswerIsFinal(data: Bytes, more: Bytes, link: Link)
    requires Parse(data, link) != Err(Incomplete)
    ensures Parse(data + more, link) == Parse(data, link)
  {
    var all := data + more;
    assert all[0] == data[0] && all[1] == data[1];
    var total := TotalSize(ReadU16(data[0], data[1]));
    assert all[2..total + 2] == data[2..total + 2];
  }

  // ---------------------------------------------------------------- The wire form, byte by byte

  /** A plain packet: size, opcode, count and checksum, the numbers with their low byte first, then the data. */
  lemma PacketBytes(frame: SilkroadFrame, link: Link)
    requires frame.Packet? && !frame.encrypted && |frame.data| < 0x1_0000
    ensures Wire(frame, link) == Ok(
      [|frame.data| % 0x100, |frame.data| / 0x100, frame.opcode % 0x100, frame.opcode / 0x100, frame.count, frame.crc]
      + frame.data)
  {
    assert |frame.data| % 0x1_0000 == |frame.data|;
    assert Wire(frame, link).value ==
      [|frame.data| % 0x100, |frame.data| / 0x100, frame.opcode % 0x100, frame.opcode / 0x100, frame.count, frame.crc]
      + frame.data;
  }

  /** A header: always the same size, the opcode 0x600D, count and checksum, a one, how many containers follow,
      their opcode, a zero. */
  lemma HeaderBytes(frame: SilkroadFrame, link: Link)
    requires frame.MassiveHeader?
    ensures Wire(frame, link) == Ok(
      [6, 0, 0x0D, 0x60, frame.count, frame.crc, 1, frame.containedCount % 0x100, frame.containedCount / 0x100,
       frame.containedOpcode % 0x100, frame.containedOpcode / 0x100, 0])
  {
    assert Payload(frame) ==
      [0x0D, 0x60, frame.count, frame.crc, 1, frame.containedCount % 0x100, frame.containedCount / 0x100,
       frame.containedOpcode % 0x100, frame.containedOpcode / 0x100, 0];
    assert LengthField(frame) == 6 && U16Le(6) == [6, 0];
    assert Wire(frame, link).value == [6, 0] + Payload(frame);
    assert [6, 0] + Payload(frame) ==
      [6, 0, 0x0D, 0x60, frame.count, frame.crc, 1, frame.containedCount % 0x100, frame.containedCount / 0x100,
       frame.containedOpcode % 0x100, frame.containedOpcode / 0x100, 0];
  }

  /** A container: one more than the size of what it holds, the opcode 0x600D, count and checksum, a zero and what
      it holds. */
  lemma ContainerBytes(frame: SilkroadFrame, link: Link)
    requires frame.MassiveContainer? && |frame.inner| < 0xFFFF
    ensures Wire(frame, link) == Ok(
      [(1 + |frame.inner|) % 0x100, (1 + |frame.inner|) / 0x100, 0x0D, 0x60, frame.count, frame.crc, 0] + frame.inner)
  {
    assert (1 + |frame.inner|) % 0x1_0000 == 1 + |frame.inner|;
    assert Wire(frame, link).value ==
      [(1 + |frame.inner|) % 0x100, (1 + |frame.inner|) / 0x100, 0x0D, 0x60, frame.count, frame.crc, 0] + frame.inner;
  }

  /** An encrypted packet: the size of its data with the top bit set, then the encrypted form of opcode, count,
      checksum and data. Without security, or before it is established, it cannot be written. */
  lemma EncryptedPacketBytes(frame: SilkroadFrame, link: Link)
    requires frame.Packet? && frame.encrypted && |frame.data| < 0x8000
    ensures Wire(frame, link) ==
      if link.NoSecurity? then Err(MissingSecurity)
      else if !link.state.Established? then Err(SecurityFailure(SecurityUninitialized))
      else Ok([|frame.data| % 0x100, |frame.data| / 0x100 + 0x80] + EncryptBytes(link.cipher, link.state,
             [frame.opcode % 0x100, frame.opcode / 0x100, frame.count, frame.crc] + frame.data).value)
  {
    var size := |frame.data|;
    assert size % 0x8000 == size;
    assert (size + 0x8000) % 0x100 == size % 0x100 && (size + 0x8000) / 0x100 == size / 0x100 + 0x80;
    assert Payload(frame) == [frame.opcode % 0x100, frame.opcode / 0x100, frame.count, frame.crc] + frame.data;
  }

  /** A complete frame with the top bit of the size set needs security to be read, and an established one. */
  lemma EncryptedNeedsSecurity(data: Bytes, link: Link)
    requires |data| >= 4 && data[1] >= 0x80
    requires |data| >= FindEncryptedLength(data[0] as int + 0x100 * (data[1] as int - 0x80) + 4) + 2
    ensures link.NoSecurity? ==> Parse(data, link) == Err(MissingSecurity)
    ensures link.Secured? && !link.state.Established? ==> Parse(data, link) == Err(SecurityFailure(SecurityUninitialized))
  {
    var length := ReadU16(data[0], data[1]);
    assert TotalSize(length) == FindEncryptedLength(length - ENCRYPTED_FLAG + 4);
  }
}
