/** The incremental decoder (silkroad-network/src/codec.rs) and the frames of a packet
    (`create_for`, silkroad-network/src/frame.rs). */
module Codec {
  import opened Wrappers
  import opened Words
  import opened Frames

  // ---------------------------------------------------------------- Draining a buffer

  /** What decoding a buffer to its end gives: the frames, the bytes kept for later and the error
      that ended the stream, if one did. */
  datatype Drained = Drained(frames: seq<SilkroadFrame>, rest: Bytes, failed: Option<FrameError>)

  function After(frame: SilkroadFrame, later: Drained): Drained {
    later.(frames := [frame] + later.frames)
  }

  /** A parser of the first frame of a buffer: it consumes some of the bytes, and its answer does not
      depend on what follows unless it asks for more. */
  ghost predicate Streams(parse: Bytes -> Result<Parsed, FrameError>) {
    && (forall data: Bytes :: parse(data).Ok? ==> 0 < parse(data).value.size <= |data|)
    && (forall data: Bytes, more: Bytes {:trigger parse(data + more)} ::
          parse(data) != Err(Incomplete) ==> parse(data + more) == parse(data))
  }

  type Parser = parse: Bytes -> Result<Parsed, FrameError> | Streams(parse) witness (_ => Err(Incomplete))

  function LinkParser(link: Link): Parser {
    var parse := (data: Bytes) => Parse(data, link);
    assert Streams(parse) by {
      forall data: Bytes, more: Bytes | Parse(data, link) != Err(Incomplete)
        ensures Parse(data + more, link) == Parse(data, link)
      {
        AnswerIsFinal(data, more, link);
      }
    }
    parse
  }

  function Drain(buffer: Bytes, parse: Parser): Drained
    decreases |buffer|
  {
    match parse(buffer)
    case Ok(parsed) => After(parsed.frame, Drain(buffer[parsed.size..], parse))
    case Err(error) => Drained([], buffer, if error.Incomplete? then None else Some(error))
  }

  /** One more chunk arrives; after an error nothing is read any more. */
  function Feed(parse: Parser, seen: Drained, chunk: Bytes): Drained {
    if seen.failed.Some? then seen
    else
      var more := Drain(seen.rest + chunk, parse);
      more.(frames := seen.frames + more.frames)
  }

  function FeedAll(parse: Parser, seen: Drained, chunks: seq<Bytes>): Drained
    decreases chunks
  {
    if chunks == [] then seen else FeedAll(parse, Feed(parse, seen, chunks[0]), chunks[1..])
  }

  const NOTHING := Drained([], [], None)

  class ByteBuffer {
    var bytes: Bytes

    constructor ()
      ensures bytes == []
    {
      bytes := [];
    }

    method Append(chunk: Bytes)
      modifies this
      ensures bytes == old(bytes) + chunk
    {
      bytes := bytes + chunk;
    }
  }

  class FrameDecoder {
    const link: Link

    constructor (link: Link)
      ensures this.link == link
    {
      this.link := link;
    }

    /** `decode`: takes the first frame off the buffer, or leaves the buffer alone. */
    method Decode(src: ByteBuffer) returns (r: Result<Option<SilkroadFrame>, FrameError>)
      modifies src
      ensures match Parse(old(src.bytes), link)
        case Ok(parsed) => r == Ok(Some(parsed.frame)) && src.bytes == old(src.bytes)[parsed.size..]
        case Err(error) => src.bytes == old(src.bytes) && r == if error.Incomplete? then Ok(None) else Err(error)
    {
      var parsed := Parse(src.bytes, link);
      match parsed {
        case Ok(p) =>
          src.bytes := src.bytes[p.size..];
          return Ok(Some(p.frame));
        case Err(error) =>
          if error.Incomplete? {
            return Ok(None);
          }
          return Err(error);
      }
    }

    /** Decodes a buffer until it holds no whole frame, the way a framed reader calls the decoder. */
    method DecodeAll(src: ByteBuffer) returns (frames: seq<SilkroadFrame>, failed: Option<FrameError>)
      modifies src
      ensures Drained(frames, src.bytes, failed) == Drain(old(src.bytes), LinkParser(link))
    {
      frames := [];
      while true
        invariant var now := Drain(src.bytes, LinkParser(link));
          Drain(old(src.bytes), LinkParser(link)) == now.(frames := frames + now.frames)
        decreases |src.bytes|
      {
        ghost var before := Drain(src.bytes, LinkParser(link));
        var next := Decode(src);
        match next {
          case Ok(Some(frame)) =>
            assert frames + before.frames == (frames + [frame]) + Drain(src.bytes, LinkParser(link)).frames;
            frames := frames + [frame];
          case Ok(None) =>
            return frames, None;
          case Err(error) =>
            return frames, Some(error);
        }
      }
    }
  }

  // ---------------------------------------------------------------- Chunks do not matter

  /** The same progress; after an error the bytes left over do not matter. */
  ghost predicate Same(a: Drained, b: Drained) {
    a.frames == b.frames && a.failed == b.failed && (a.failed.None? ==> a.rest == b.rest)
  }

  /** Draining in two goes is draining at once. */
  lemma {:induction false} DrainMore(buffer: Bytes, more: Bytes, parse: Parser)
    ensures Same(Drain(buffer + more, parse), Feed(parse, Drain(buffer, parse), more))
    decreases |buffer|
  {
    match parse(buffer) {
      case Err(error) =>
        assert [] + Drain(buffer + more, parse).frames == Drain(buffer + more, parse).frames;
      case Ok(parsed) =>
        var tail := buffer[parsed.size..];
        assert (buffer + more)[parsed.size..] == tail + more;
        DrainMore(tail, more, parse);
        FeedAfter(parse, parsed.frame, Drain(tail, parse), more);
    }
  }

  lemma FeedAfter(parse: Parser, frame: SilkroadFrame, seen: Drained, more: Bytes)
    ensures Feed(parse, After(frame, seen), more) == After(frame, Feed(parse, seen, more))
  {
    if seen.failed.None? {
      var next := Drain(seen.rest + more, parse);
      assert ([frame] + seen.frames) + next.frames == [frame] + (seen.frames + next.frames);
    }
  }

  function Concat(chunks: seq<Bytes>): Bytes {
    if chunks == [] then [] else chunks[0] + Concat(chunks[1..])
  }

  /** However a stream of bytes - well formed or not - is cut into chunks, the decoder emits the same
      frames, ends with the same error and keeps the same bytes. */
  lemma {:induction false} ChunkingIsIrrelevant(parse: Parser, before: Bytes, chunks: seq<Bytes>)
    ensures Same(FeedAll(parse, Drain(before, parse), chunks), Drain(before + Concat(chunks), parse))
    decreases chunks
  {
    if chunks == [] {
      assert before + [] == before;
    } else {
      var chunk, later := chunks[0], chunks[1..];
      assert before + Concat(chunks) == (before + chunk) + Concat(later);
      FirstChunk(parse, before, chunks);
      ChunkingIsIrrelevant(parse, before + chunk, later);
    }
  }

  /** The first chunk may as well have been there from the start. */
  lemma FirstChunk(parse: Parser, before: Bytes, chunks: seq<Bytes>)
    requires chunks != []
    ensures Same(FeedAll(parse, Drain(before, parse), chunks),
                 FeedAll(parse, Drain(before + chunks[0], parse), chunks[1..]))
  {
    DrainMore(before, chunks[0], parse);
    SameProgress(parse, Feed(parse, Drain(before, parse), chunks[0]), Drain(before + chunks[0], parse), chunks[1..]);
  }

  lemma {:induction false} FailedStays(parse: Parser, seen: Drained, chunks: seq<Bytes>)
    requires seen.failed.Some?
    ensures FeedAll(parse, seen, chunks) == seen
    decreases chunks
  {
    if chunks != [] {
      FailedStays(parse, seen, chunks[1..]);
    }
  }

  lemma SameProgress(parse: Parser, a: Drained, b: Drained, chunks: seq<Bytes>)
    requires Same(a, b)
    ensures Same(FeedAll(parse, a, chunks), FeedAll(parse, b, chunks))
  {
    if a.failed.Some? {
      FailedStays(parse, a, chunks);
      FailedStays(parse, b, chunks);
    }
  }

  // ---------------------------------------------------------------- A list of frames there and back

  ghost predicate Sendable(link: Link, frames: seq<SilkroadFrame>) {
    forall i :: 0 <= i < |frames| ==> Wire(frames[i], link).Ok?
  }

  function WireAll(link: Link, frames: seq<SilkroadFrame>): Bytes
    requires Sendable(link, frames)
  {
    if frames == [] then [] else Wire(frames[0], link).value + WireAll(link, frames[1..])
  }

  function ReceivedAll(frames: seq<SilkroadFrame>): (r: seq<SilkroadFrame>)
    ensures |r| == |frames|
    ensures forall i :: 0 <= i < |frames| ==> r[i] == Received(frames[i])
  {
    seq(|frames|, i requires 0 <= i < |frames| => Received(frames[i]))
  }

  /** Pieces of a stream that a parser reads back one by one, or not. */
  ghost predicate Piece(parse: Parser, wire: Bytes, frame: SilkroadFrame, readable: bool) {
    forall rest: Bytes {:trigger parse(wire + rest)} ::
      if readable then parse(wire + rest) == Ok(Parsed(|wire|, frame))
      else parse(wire + rest).Err? || parse(wire + rest).value.frame != frame
  }

  /** Draining a concatenation of pieces gives their frames, and nothing else, exactly when each of
      them is readable. */
  lemma {:induction false} DrainPieces(parse: Parser, wires: seq<Bytes>, frames: seq<SilkroadFrame>,
                                       readable: seq<bool>)
    requires |wires| == |frames| == |readable| && parse([]) == Err(Incomplete)
    requires forall i :: 0 <= i < |wires| ==> Piece(parse, wires[i], frames[i], readable[i])
    ensures Drain(Concat(wires), parse) == Drained(frames, [], None) <==> forall i :: 0 <= i < |wires| ==> readable[i]
    decreases wires
  {
    if wires != [] {
      var wire, later := wires[0], Concat(wires[1..]);
      assert Piece(parse, wires[0], frames[0], readable[0]);
      assert parse(wire + later) == parse(Concat(wires));
      DrainPieces(parse, wires[1..], frames[1..], readable[1..]);
      assert forall i :: 0 < i < |readable| ==> readable[i] == readable[1..][i - 1];
      assert frames == [frames[0]] + frames[1..];
      if readable[0] {
        assert (wire + later)[|wire|..] == later;
        AfterIsInjective(frames[0], Drain(later, parse), Drained(frames[1..], [], None));
      }
    }
  }

  lemma NotTheFrame(link: Link, frame: SilkroadFrame, rest: Bytes)
    requires Wire(frame, link).Ok? && !Framable(frame) && Parse(Wire(frame, link).value + rest, link).Ok?
    ensures Parse(Wire(frame, link).value + rest, link).value.frame != Received(frame)
  {
    var data := Wire(frame, link).value + rest;
    ParsedLength(data, link);
    if ContentSize(frame) >= ENCRYPTED_FLAG {
      OversizedIsMisread(frame, link, rest);
      ReceivedLength(frame);
    } else {
      MassiveOpcodeIsNoPacket(data, link, frame.opcode);
    }
  }

  predicate AllFramable(frames: seq<SilkroadFrame>) {
    forall i :: 0 <= i < |frames| ==> Framable(frames[i])
  }

  lemma FrameIsPiece(link: Link, frame: SilkroadFrame)
    requires LinkWorks(link) && Wire(frame, link).Ok?
    ensures Piece(LinkParser(link), Wire(frame, link).value, Received(frame), Framable(frame))
  {
    var wire := Wire(frame, link).value;
    WireSize(frame, link);
    forall rest: Bytes
      ensures if Framable(frame) then Parse(wire + rest, link) == Ok(Parsed(|wire|, Received(frame)))
        else Parse(wire + rest, link).Err? || Parse(wire + rest, link).value.frame != Received(frame)
    {
      if Framable(frame) {
        FrameRoundTrip(frame, link, rest);
      } else if Parse(wire + rest, link).Ok? {
        NotTheFrame(link, frame, rest);
      }
    }
  }

  function Wires(link: Link, frames: seq<SilkroadFrame>): (r: seq<Bytes>)
    requires Sendable(link, frames)
    ensures |r| == |frames|
  {
    seq(|frames|, i requires 0 <= i < |frames| => Wire(frames[i], link).value)
  }

  lemma {:induction false} WiresJoin(link: Link, frames: seq<SilkroadFrame>)
    requires Sendable(link, frames)
    ensures Concat(Wires(link, frames)) == WireAll(link, frames)
    decreases frames
  {
    if frames != [] {
      WiresJoin(link, frames[1..]);
      assert Wires(link, frames)[1..] == Wires(link, frames[1..]);
    }
  }

  /** Draining the wire form of a list of frames gives the frames and nothing else, exactly when each
      of them is framable. */
  lemma DrainWire(link: Link, frames: seq<SilkroadFrame>)
    requires LinkWorks(link) && Sendable(link, frames)
    ensures Drain(WireAll(link, frames), LinkParser(link)) == Drained(ReceivedAll(frames), [], None)
      <==> AllFramable(frames)
  {
    var readable := AllReadable(frames);
    WiresJoin(link, frames);
    FramesArePieces(link, frames);
    DrainPieces(LinkParser(link), Wires(link, frames), ReceivedAll(frames), readable);
    assert (forall i :: 0 <= i < |frames| ==> readable[i]) <==> AllFramable(frames);
  }

  function AllReadable(frames: seq<SilkroadFrame>): (r: seq<bool>)
    ensures |r| == |frames|
  {
    seq(|frames|, i requires 0 <= i < |frames| => Framable(frames[i]))
  }

  lemma FramesArePieces(link: Link, frames: seq<SilkroadFrame>)
    requires LinkWorks(link) && Sendable(link, frames)
    ensures forall i :: 0 <= i < |frames| ==>
      Piece(LinkParser(link), Wires(link, frames)[i], ReceivedAll(frames)[i], AllReadable(frames)[i])
  {
    forall i | 0 <= i < |frames|
      ensures Piece(LinkParser(link), Wires(link, frames)[i], ReceivedAll(frames)[i], AllReadable(frames)[i])
    {
      FrameIsPiece(link, frames[i]);
    }
  }

  lemma AfterIsInjective(frame: SilkroadFrame, a: Drained, b: Drained)
    ensures After(frame, a) == After(frame, b) <==> a == b
  {
    assert After(frame, a).frames[1..] == a.frames && After(frame, b).frames[1..] == b.frames;
  }

  lemma ReceivedLength(frame: SilkroadFrame)
    ensures frame.Packet? ==> |Received(frame).data| + 6 == PacketSize(frame)
    ensures frame.MassiveContainer? ==> |frame.inner| + 7 == PacketSize(frame)
  {
  }

  /** Frames within the size bound, in any order and number, written one after the other and cut into
      chunks in any way: the decoder emits exactly those frames and ends with an empty buffer. */
  lemma StreamRoundTrip(link: Link, frames: seq<SilkroadFrame>, chunks: seq<Bytes>)
    requires LinkWorks(link) && Sendable(link, frames) && Concat(chunks) == WireAll(link, frames)
    requires AllFramable(frames)
    ensures FeedAll(LinkParser(link), NOTHING, chunks) == Drained(ReceivedAll(frames), [], None)
  {
    DrainWire(link, frames);
    assert Drain([], LinkParser(link)) == NOTHING;
    ChunkingIsIrrelevant(LinkParser(link), [], chunks);
    assert [] + Concat(chunks) == Concat(chunks);
  }

  // ---------------------------------------------------------------- The frames of one packet

  datatype ServerPacket = ServerPacket(massive: bool, encrypted: bool, opcode: u16, bytes: Bytes)

  const CHUNK_LIMIT := 0xFFFF

  /** The containers `n` splits make out of the bytes. */
  function Containers(bytes: Bytes, n: nat): (r: seq<SilkroadFrame>)
    ensures |r| == n
  {
    if n == 0 then []
    else
      var size := if |bytes| < CHUNK_LIMIT then |bytes| else CHUNK_LIMIT;
      [MassiveContainer(0, 0, bytes[..size])] + Containers(bytes[size..], n - 1)
  }

  function RequiredPackets(bytes: Bytes): nat {
    if |bytes| / CHUNK_LIMIT > 1 then |bytes| / CHUNK_LIMIT else 1
  }

  function FramesFor(packet: ServerPacket): seq<SilkroadFrame> {
    if packet.massive then
      [MassiveHeader(0, 0, packet.opcode, RequiredPackets(packet.bytes) % 0x1_0000)]
      + Containers(packet.bytes, RequiredPackets(packet.bytes))
    else [Packet(0, 0, packet.opcode, packet.encrypted, packet.bytes)]
  }

  /** `create_for`: chunks are split off the front of the payload. */
  method CreateFor(packet: ServerPacket) returns (frames: seq<SilkroadFrame>)
    ensures frames == FramesFor(packet)
  {
    if !packet.massive {
      return [Packet(0, 0, packet.opcode, packet.encrypted, packet.bytes)];
    }
    var bytes := packet.bytes;
    var required := RequiredPackets(bytes);
    frames := [MassiveHeader(0, 0, packet.opcode, required % 0x1_0000)];
    for n := 0 to required
      invariant frames + Containers(bytes, required - n) == FramesFor(packet)
    {
      var size := if |bytes| < CHUNK_LIMIT then |bytes| else CHUNK_LIMIT;
      assert frames + ([MassiveContainer(0, 0, bytes[..size])] + Containers(bytes[size..], required - n - 1))
          == (frames + [MassiveContainer(0, 0, bytes[..size])]) + Containers(bytes[size..], required - n - 1);
      frames := frames + [MassiveContainer(0, 0, bytes[..size])];
      bytes := bytes[size..];
    }
  }

  function Held(frames: seq<SilkroadFrame>): Bytes {
    if frames == [] then []
    else (if frames[0].MassiveContainer? then frames[0].inner else []) + Held(frames[1..])
  }

  lemma {:induction false} ContainersHold(bytes: Bytes, n: nat)
    ensures Held(Containers(bytes, n)) == bytes[..if n * CHUNK_LIMIT < |bytes| then n * CHUNK_LIMIT else |bytes|]
    decreases n
  {
    if n > 0 {
      var size := if |bytes| < CHUNK_LIMIT then |bytes| else CHUNK_LIMIT;
      var all := Containers(bytes, n);
      assert all[1..] == Containers(bytes[size..], n - 1);
      ContainersHold(bytes[size..], n - 1);
    }
  }

  /** The containers hold the whole payload exactly when it fits one chunk or fills every chunk: the
      number of chunks is rounded down. */
  lemma PayloadIsKept(packet: ServerPacket)
    requires packet.massive
    ensures Held(FramesFor(packet)) == packet.bytes <==>
      |packet.bytes| <= CHUNK_LIMIT || |packet.bytes| % CHUNK_LIMIT == 0
  {
    var n := RequiredPackets(packet.bytes);
    assert FramesFor(packet)[1..] == Containers(packet.bytes, n);
    assert Held(FramesFor(packet)) == [] + Held(Containers(packet.bytes, n));
    ContainersHold(packet.bytes, n);
  }

  /** A massive packet gets through the frame layer exactly when its payload is at most 0x7FFE bytes:
      a larger container does not fit the 15 bit length. */
  lemma MassivePacketSurvives(link: Link, packet: ServerPacket)
    requires LinkWorks(link) && packet.massive
    ensures Sendable(link, FramesFor(packet))
    ensures Drain(WireAll(link, FramesFor(packet)), LinkParser(link)) == Drained(FramesFor(packet), [], None)
      <==> |packet.bytes| <= 0x7FFE
  {
    var frames := FramesFor(packet);
    MassiveFramable(packet);
    MassiveIsPlain(link, packet);
    DrainWire(link, frames);
  }

  /** Massive frames are never encrypted, so they can always be written. */
  lemma MassiveIsPlain(link: Link, packet: ServerPacket)
    requires packet.massive
    ensures Sendable(link, FramesFor(packet))
  {
    MassiveFrames(packet);
  }

  lemma MassiveFramable(packet: ServerPacket)
    requires packet.massive
    ensures ReceivedAll(FramesFor(packet)) == FramesFor(packet)
    ensures AllFramable(FramesFor(packet)) <==> |packet.bytes| <= 0x7FFE
  {
    var frames := FramesFor(packet);
    MassiveFrames(packet);
    assert Framable(frames[0]);
  }

  lemma MassiveFrames(packet: ServerPacket)
    requires packet.massive
    ensures var frames := FramesFor(packet);
      && |frames| >= 2 && frames[0].MassiveHeader? && (|packet.bytes| <= CHUNK_LIMIT ==> |frames| == 2)
      && (forall i :: 0 < i < |frames| ==> frames[i].MassiveContainer?)
      && frames[1].inner == packet.bytes[..if |packet.bytes| < CHUNK_LIMIT then |packet.bytes| else CHUNK_LIMIT]
  {
    ContainersOnly(packet.bytes, RequiredPackets(packet.bytes));
    var frames, containers := FramesFor(packet), Containers(packet.bytes, RequiredPackets(packet.bytes));
    assert forall i :: 0 < i < |frames| ==> frames[i] == containers[i - 1];
  }

  lemma {:induction false} ContainersOnly(bytes: Bytes, n: nat)
    ensures forall i :: 0 <= i < n ==> Containers(bytes, n)[i].MassiveContainer?
    decreases n
  {
    if n > 0 {
      var size := if |bytes| < CHUNK_LIMIT then |bytes| else CHUNK_LIMIT;
      ContainersOnly(bytes[size..], n - 1);
    }
  }

  // ---------------------------------------------------------------- Packets that are not massive

  /** What arrives of a packet: its opcode and its bytes, encrypted or not as it says, and when it was encrypted
      fewer than eight zeros behind them. */
  predicate ArrivedAs(packet: ServerPacket, frame: SilkroadFrame) {
    && frame.Packet? && frame.opcode == packet.opcode && frame.encrypted == packet.encrypted
    && frame.count == frame.crc == 0
    && |packet.bytes| <= |frame.data| < |packet.bytes| + (if packet.encrypted then 8 else 1)
    && frame.data[..|packet.bytes|] == packet.bytes
    && forall i :: |packet.bytes| <= i < |frame.data| ==> frame.data[i] == 0
  }

  /** A packet that is not massive is one frame, which cannot be written exactly when it is encrypted and there is
      no established security. */
  lemma OrdinaryIsWritten(link: Link, packet: ServerPacket)
    requires !packet.massive
    ensures |FramesFor(packet)| == 1
    ensures var wire := Wire(FramesFor(packet)[0], link);
      && (wire == Err(MissingSecurity) <==> packet.encrypted && link.NoSecurity?)
      && (wire.Ok? <==> !packet.encrypted || (link.Secured? && link.state.Established?))
  {
  }

  /** It arrives if and only if it has fewer than 0x8000 bytes and not the opcode of massive packets: the written
      frame drains to one frame that is the packet. */
  lemma OrdinaryPacketSurvives(link: Link, packet: ServerPacket)
    requires LinkWorks(link) && !packet.massive && Sendable(link, FramesFor(packet))
    ensures var drained := Drain(WireAll(link, FramesFor(packet)), LinkParser(link));
      drained == Drained(ReceivedAll(FramesFor(packet)), [], None) <==> |packet.bytes| < 0x8000 && packet.opcode != 0x600D
    ensures |ReceivedAll(FramesFor(packet))| == 1 && ArrivedAs(packet, ReceivedAll(FramesFor(packet))[0])
  {
    var frame := Packet(0, 0, packet.opcode, packet.encrypted, packet.bytes);
    assert FramesFor(packet) == [frame];
    DrainWire(link, FramesFor(packet));
    assert AllFramable([frame]) <==> Framable(frame) by {
      assert [frame][0] == frame;
    }
    OrdinaryArrives(packet, frame);
  }

  lemma OrdinaryArrives(packet: ServerPacket, frame: SilkroadFrame)
    requires frame == Packet(0, 0, packet.opcode, packet.encrypted, packet.bytes)
    ensures ArrivedAs(packet, Received(frame))
  {
    if packet.encrypted {
      ReceivedData(frame);
    }
  }

  // ---------------------------------------------------------------- Massive packets, frame by frame

  /** The frames of a massive packet: a header that announces them - one for every full 0xFFFF bytes, but at least
      one - and plain containers of at most 0xFFFF bytes, with counts and checksums of zero. */
  lemma MassiveFramesExactly(packet: ServerPacket)
    requires packet.massive
    ensures var frames := FramesFor(packet);
      var n := if |packet.bytes| < 0x1_FFFE then 1 else |packet.bytes| / 0xFFFF;
      && |frames| == 1 + n && frames[0] == MassiveHeader(0, 0, packet.opcode, n % 0x1_0000)
      && (forall i :: 0 < i < |frames| ==>
            frames[i].MassiveContainer? && frames[i].count == frames[i].crc == 0 && |frames[i].inner| <= 0xFFFF)
  {
    var n := RequiredPackets(packet.bytes);
    assert n == if |packet.bytes| < 0x1_FFFE then 1 else |packet.bytes| / 0xFFFF;
    ContainersPlain(packet.bytes, n);
    var frames, containers := FramesFor(packet), Containers(packet.bytes, n);
    assert forall i :: 0 < i < |frames| ==> frames[i] == containers[i - 1];
  }

  lemma {:induction false} ContainersPlain(bytes: Bytes, n: nat)
    ensures forall i :: 0 <= i < n ==> var c := Containers(bytes, n)[i];
      c.MassiveContainer? && c.count == c.crc == 0 && |c.inner| <= 0xFFFF
    decreases n
  {
    if n > 0 {
      var size := if |bytes| < CHUNK_LIMIT then |bytes| else CHUNK_LIMIT;
      ContainersPlain(bytes[size..], n - 1);
      assert Containers(bytes, n)[1..] == Containers(bytes[size..], n - 1);
      assert forall i :: 0 < i < n ==> Containers(bytes, n)[i] == Containers(bytes, n)[1..][i - 1];
    }
  }
}
