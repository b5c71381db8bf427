/** The packet reader and its massive-packet state (silkroad-network/src/stream.rs). */
module StreamReaders {
  import opened Wrappers
  import opened Words
  import opened Frames
  import opened Codec

  /** Turning an opcode and bytes into a client packet may fail; the packets themselves are not
      looked into. */
  type Deserializer<!P> = (u16, Bytes) -> Option<P>

  /** The header of a massive packet that is still owed containers. */
  datatype Pending = Pending(opcode: u16, remaining: u16)

  /** `CountUnderflow`: the count of an announced packet without containers is decremented. */
  datatype Answer<+P> =
    | Delivered(packet: P)
    | ProtocolError
    | StrayMassivePacket
    | UnconsumedMassivePacket(remaining: u16)
    | FrameFailure(error: FrameError)
    | StreamClosed
    | CountUnderflow

  type Incoming = seq<Result<SilkroadFrame, FrameError>>

  datatype Reading<+P> = Reading(massive: Option<Pending>, left: Incoming, answer: Answer<P>)

  /** One call of `next` on what the frame decoder has to offer. */
  function NextPacket<P>(deser: Deserializer<P>, massive: Option<Pending>, items: Incoming): (r: Reading<P>)
    ensures r.answer.StreamClosed? || |r.left| < |items|
    decreases items
  {
    if items == [] then Reading(massive, [], StreamClosed)
    else
      var rest := items[1..];
      match items[0]
      case Err(error) => Reading(massive, rest, FrameFailure(error))
      case Ok(Packet(_, _, opcode, _, data)) => Reading(massive, rest, Deserialized(deser, opcode, data))
      case Ok(MassiveHeader(_, _, opcode, count)) =>
        if massive.Some? then Reading(massive, rest, UnconsumedMassivePacket(massive.value.remaining))
        else NextPacket(deser, Some(Pending(opcode, count)), rest)
      case Ok(MassiveContainer(_, _, inner)) =>
        if massive.None? then Reading(massive, rest, StrayMassivePacket)
        else
          var result := Deserialized(deser, massive.value.opcode, inner);
          if result.ProtocolError? then Reading(massive, rest, result)
          else if massive.value.remaining == 0 then Reading(massive, rest, CountUnderflow)
          else if massive.value.remaining == 1 then Reading(None, rest, result)
          else Reading(Some(massive.value.(remaining := massive.value.remaining - 1)), rest, result)
  }

  function Deserialized<P>(deser: Deserializer<P>, opcode: u16, data: Bytes): Answer<P> {
    match deser(opcode, data)
    case Some(packet) => Delivered(packet)
    case None => ProtocolError
  }

  class StreamReader<P> {
    const deser: Deserializer<P>
    var inner: Incoming
    var massivePacket: Option<Pending>

    constructor (deser: Deserializer<P>, inner: Incoming)
      ensures this.deser == deser && this.inner == inner && massivePacket == None
    {
      this.deser := deser;
      this.inner := inner;
      massivePacket := None;
    }

    /** `next`: reads frames until one of them decides the call. */
    method Next() returns (answer: Answer<P>)
      modifies this
      ensures Reading(massivePacket, inner, answer) == NextPacket(deser, old(massivePacket), old(inner))
    {
      while inner != []
        invariant NextPacket(deser, massivePacket, inner) == NextPacket(deser, old(massivePacket), old(inner))
        decreases |inner|
      {
        var item := inner[0];
        inner := inner[1..];
        match item {
          case Err(error) =>
            return FrameFailure(error);
          case Ok(Packet(_, _, opcode, _, data)) =>
            return Deserialized(deser, opcode, data);
          case Ok(MassiveHeader(_, _, opcode, count)) =>
            if massivePacket.Some? {
              return UnconsumedMassivePacket(massivePacket.value.remaining);
            }
            massivePacket := Some(Pending(opcode, count));
          case Ok(MassiveContainer(_, _, content)) =>
            if massivePacket.None? {
              return StrayMassivePacket;
            }
            var result := Deserialized(deser, massivePacket.value.opcode, content);
            if result.ProtocolError? {
              return result;
            }
            if massivePacket.value.remaining == 0 {
              return CountUnderflow;
            }
            var newCount := massivePacket.value.remaining - 1;
            massivePacket := if newCount > 0 then Some(Pending(massivePacket.value.opcode, newCount)) else None;
            return result;
        }
      }
      return StreamClosed;
    }
  }

  // ---------------------------------------------------------------- The reading loop

  /** What the loop around `next` hands on: protocol errors are skipped, anything else ends it. */
  datatype Loop<+P> = Loop(massive: Option<Pending>, packets: seq<P>, end: Answer<P>)

  function ReadLoop<P>(deser: Deserializer<P>, massive: Option<Pending>, items: Incoming): Loop<P>
    decreases |items|
  {
    var step := NextPacket(deser, massive, items);
    match step.answer
    case Delivered(packet) =>
      var later := ReadLoop(deser, step.massive, step.left);
      later.(packets := [packet] + later.packets)
    case ProtocolError => ReadLoop(deser, step.massive, step.left)
    case StrayMassivePacket => ReadLoop(deser, step.massive, step.left)
    case _ => Loop(step.massive, [], step.answer)
  }

  // ---------------------------------------------------------------- Massive packets

  function CountContainers(frames: seq<SilkroadFrame>): nat {
    if frames == [] then 0 else (if frames[0].MassiveContainer? then 1 else 0) + CountContainers(frames[1..])
  }

  /** What the frames stand for when every container belongs to `opcode`; a plain packet that cannot
      be read is skipped. */
  function Meaning<P>(deser: Deserializer<P>, opcode: u16, frames: seq<SilkroadFrame>): seq<P> {
    if frames == [] then [] else MeaningOf(deser, opcode, frames[0]) + Meaning(deser, opcode, frames[1..])
  }

  function MeaningOf<P>(deser: Deserializer<P>, opcode: u16, frame: SilkroadFrame): seq<P> {
    var read := match frame
      case Packet(_, _, own, _, data) => deser(own, data)
      case MassiveContainer(_, _, inner) => deser(opcode, inner)
      case MassiveHeader(_, _, _, _) => None;
    if read.Some? then [read.value] else []
  }

  /** Packets and readable containers only. */
  ghost predicate Body<P>(deser: Deserializer<P>, opcode: u16, frames: seq<SilkroadFrame>) {
    forall i :: 0 <= i < |frames| ==>
      !frames[i].MassiveHeader? && (frames[i].MassiveContainer? ==> deser(opcode, frames[i].inner).Some?)
  }

  function Arrived(frames: seq<SilkroadFrame>): (r: Incoming)
    ensures |r| == |frames|
  {
    seq(|frames|, i requires 0 <= i < |frames| => Ok(frames[i]))
  }

  function Owed(opcode: u16, remaining: u16): Option<Pending> {
    if remaining == 0 then None else Some(Pending(opcode, remaining))
  }

  /** While no more containers arrive than are owed: every container is delivered under the announced
      opcode, between any plain packets, and exactly the difference stays owed - so nothing is
      pending any more exactly when the last announced container has arrived. */
  lemma {:induction false} BodyIsDelivered<P>(deser: Deserializer<P>, opcode: u16, remaining: u16,
                                              frames: seq<SilkroadFrame>)
    requires Body(deser, opcode, frames) && CountContainers(frames) <= remaining
    ensures ReadLoop(deser, Owed(opcode, remaining), Arrived(frames))
         == Loop(Owed(opcode, remaining - CountContainers(frames)), Meaning(deser, opcode, frames), StreamClosed)
    decreases frames
  {
    if frames != [] {
      var head, later := frames[0], frames[1..];
      BodyTail(deser, opcode, frames);
      var left := remaining - (if head.MassiveContainer? then 1 else 0);
      BodyIsDelivered(deser, opcode, left, later);
      HeadThenTail(deser, opcode, remaining, head, Arrived(frames), ReadLoop(deser, Owed(opcode, left), Arrived(later)));
    }
  }

  /** One frame of the body: what `next` makes of it. */
  lemma HeadIsDelivered<P>(deser: Deserializer<P>, opcode: u16, remaining: u16, head: SilkroadFrame, items: Incoming)
    requires items != [] && items[0] == Ok(head) && !head.MassiveHeader?
    requires head.MassiveContainer? ==> remaining > 0 && deser(opcode, head.inner).Some?
    ensures NextPacket(deser, Owed(opcode, remaining), items) ==
      if head.MassiveContainer?
      then Reading(Owed(opcode, remaining - 1), items[1..], Delivered(deser(opcode, head.inner).value))
      else Reading(Owed(opcode, remaining), items[1..], Deserialized(deser, head.opcode, head.data))
  {
  }

  /** One frame of the body, before what the loop makes of the rest. */
  lemma HeadThenTail<P>(deser: Deserializer<P>, opcode: u16, remaining: u16, head: SilkroadFrame, items: Incoming,
                        tail: Loop<P>)
    requires items != [] && items[0] == Ok(head) && !head.MassiveHeader?
    requires head.MassiveContainer? ==> remaining > 0 && deser(opcode, head.inner).Some?
    requires tail == ReadLoop(deser, Owed(opcode, remaining - (if head.MassiveContainer? then 1 else 0)), items[1..])
    ensures ReadLoop(deser, Owed(opcode, remaining), items)
         == tail.(packets := MeaningOf(deser, opcode, head) + tail.packets)
  {
    HeadIsDelivered(deser, opcode, remaining, head, items);
    assert [] + tail.packets == tail.packets;
  }

  /** A header announcing `n` containers, followed by them in any mixture with plain packets. */
  lemma MassivePacketIsDelivered<P>(deser: Deserializer<P>, header: SilkroadFrame, frames: seq<SilkroadFrame>)
    requires header.MassiveHeader? && header.containedCount >= 1
    requires Body(deser, header.containedOpcode, frames) && CountContainers(frames) <= header.containedCount
    ensures var read := ReadLoop(deser, None, Arrived([header] + frames));
      && read.packets == Meaning(deser, header.containedOpcode, frames)
      && read.massive == Owed(header.containedOpcode, header.containedCount - CountContainers(frames))
      && (read.massive.None? <==> CountContainers(frames) == header.containedCount)
      && read.end == StreamClosed
  {
    var items := Arrived([header] + frames);
    assert items[1..] == Arrived(frames);
    BodyIsDelivered(deser, header.containedOpcode, header.containedCount, frames);
    var owed := Owed(header.containedOpcode, header.containedCount);
    assert NextPacket(deser, None, items) == NextPacket(deser, owed, Arrived(frames));
  }

  /** The tail of a body is a body, and what is offered after the first frame is that tail. */
  lemma BodyTail<P>(deser: Deserializer<P>, opcode: u16, frames: seq<SilkroadFrame>)
    requires Body(deser, opcode, frames) && frames != []
    ensures Body(deser, opcode, frames[1..])
    ensures Arrived(frames)[1..] == Arrived(frames[1..]) && Arrived(frames)[0] == Ok(frames[0])
  {
    assert forall i :: 0 <= i < |frames[1..]| ==> frames[1..][i] == frames[i + 1];
  }

  /** Whatever is owed, any number of containers and packets is read to the end of the stream: containers
      past the announced ones are skipped. */
  lemma {:induction false} OwedNeverUnderflows<P>(deser: Deserializer<P>, opcode: u16, remaining: u16,
                                                  frames: seq<SilkroadFrame>)
    requires Body(deser, opcode, frames)
    ensures ReadLoop(deser, Owed(opcode, remaining), Arrived(frames)).end == StreamClosed
    decreases frames
  {
    if frames != [] {
      var head, later := frames[0], frames[1..];
      BodyTail(deser, opcode, frames);
      if head.MassiveContainer? && remaining > 0 {
        OwedNeverUnderflows(deser, opcode, remaining - 1, later);
        HeadIsDelivered(deser, opcode, remaining, head, Arrived(frames));
      } else {
        OwedNeverUnderflows(deser, opcode, remaining, later);
        if !head.MassiveContainer? {
          HeadIsDelivered(deser, opcode, remaining, head, Arrived(frames));
        }
      }
    }
  }

  /** Under an announced count of zero the first container ends the reading. */
  lemma {:induction false} ZeroOwedUnderflows<P>(deser: Deserializer<P>, opcode: u16, frames: seq<SilkroadFrame>)
    requires Body(deser, opcode, frames)
    ensures ReadLoop(deser, Some(Pending(opcode, 0)), Arrived(frames)).end ==
      if CountContainers(frames) > 0 then CountUnderflow else StreamClosed
    decreases frames
  {
    if frames != [] {
      BodyTail(deser, opcode, frames);
      if !frames[0].MassiveContainer? {
        ZeroOwedUnderflows(deser, opcode, frames[1..]);
      }
    }
  }

  /** Reading what follows a header, any number of containers and packets, underflows the count if and only
      if the header announced none and there is a container. */
  lemma UnderflowsExactly<P>(deser: Deserializer<P>, header: SilkroadFrame, frames: seq<SilkroadFrame>)
    requires header.MassiveHeader? && Body(deser, header.containedOpcode, frames)
    ensures ReadLoop(deser, None, Arrived([header] + frames)).end == CountUnderflow
      <==> header.containedCount == 0 && CountContainers(frames) > 0
  {
    var items, pending := Arrived([header] + frames), Some(Pending(header.containedOpcode, header.containedCount));
    assert items[0] == Ok(header) && items[1..] == Arrived(frames);
    assert NextPacket(deser, None, items) == NextPacket(deser, pending, Arrived(frames));
    if header.containedCount == 0 {
      ZeroOwedUnderflows(deser, header.containedOpcode, frames);
    } else {
      OwedNeverUnderflows(deser, header.containedOpcode, header.containedCount, frames);
    }
  }

  /** The whole path of a massive packet of at most 0x7FFE bytes: framed, written, cut into chunks in
      any way, decoded and read, it is delivered once, unchanged, under its own opcode. */
  lemma MassivePacketArrives<P>(deser: Deserializer<P>, link: Link, packet: ServerPacket, chunks: seq<Bytes>)
    requires LinkWorks(link) && packet.massive && |packet.bytes| <= 0x7FFE
    requires deser(packet.opcode, packet.bytes).Some?
    requires Sendable(link, FramesFor(packet)) && Concat(chunks) == WireAll(link, FramesFor(packet))
    ensures var decoded := FeedAll(LinkParser(link), NOTHING, chunks);
      && decoded.rest == [] && decoded.failed == None
      && ReadLoop(deser, None, Arrived(decoded.frames))
           == Loop(None, [deser(packet.opcode, packet.bytes).value], StreamClosed)
  {
    SmallFrames(packet);
    StreamRoundTrip(link, FramesFor(packet), chunks);
    SmallPacketIsRead(deser, packet);
  }

  lemma SmallFrames(packet: ServerPacket)
    requires packet.massive && |packet.bytes| <= 0x7FFE
    ensures FramesFor(packet) == [MassiveHeader(0, 0, packet.opcode, 1), MassiveContainer(0, 0, packet.bytes)]
    ensures ReceivedAll(FramesFor(packet)) == FramesFor(packet)
    ensures AllFramable(FramesFor(packet))
  {
    MassiveFrames(packet);
    assert packet.bytes[..|packet.bytes|] == packet.bytes;
    assert Containers(packet.bytes, 1) == [MassiveContainer(0, 0, packet.bytes)];
  }

  lemma SmallPacketIsRead<P>(deser: Deserializer<P>, packet: ServerPacket)
    requires packet.massive && |packet.bytes| <= 0x7FFE && deser(packet.opcode, packet.bytes).Some?
    ensures ReadLoop(deser, None, Arrived(FramesFor(packet)))
         == Loop(None, [deser(packet.opcode, packet.bytes).value], StreamClosed)
  {
    SmallFrames(packet);
    var header, body := MassiveHeader(0, 0, packet.opcode, 1), [MassiveContainer(0, 0, packet.bytes)];
    assert FramesFor(packet) == [header] + body && body[1..] == [];
    MassivePacketIsDelivered(deser, header, body);
  }

  // ---------------------------------------------------------------- Packets that are not massive

  /** The whole path of a packet that is not massive: framed, written, cut into chunks in any way, decoded and
      read, it is delivered once, under its own opcode, with its bytes - and zeros behind them if it was
      encrypted. */
  lemma OrdinaryPacketArrives<P>(deser: Deserializer<P>, link: Link, packet: ServerPacket, chunks: seq<Bytes>)
    returns (data: Bytes)
    requires LinkWorks(link) && !packet.massive && |packet.bytes| < 0x8000 && packet.opcode != 0x600D
    requires Sendable(link, FramesFor(packet)) && Concat(chunks) == WireAll(link, FramesFor(packet))
    ensures var decoded := FeedAll(LinkParser(link), NOTHING, chunks);
      && decoded.rest == [] && decoded.failed == None && |decoded.frames| == 1
      && ArrivedAs(packet, decoded.frames[0]) && decoded.frames[0].data == data
      && ReadLoop(deser, None, Arrived(decoded.frames)).packets
           == (if deser(packet.opcode, data).Some? then [deser(packet.opcode, data).value] else [])
      && ReadLoop(deser, None, Arrived(decoded.frames)).end == StreamClosed
  {
    OrdinaryPacketSurvives(link, packet);
    var frames := FramesFor(packet);
    assert frames == [Packet(0, 0, packet.opcode, packet.encrypted, packet.bytes)];
    assert AllFramable(frames);
    StreamRoundTrip(link, frames, chunks);
    var frame := ReceivedAll(frames)[0];
    data := frame.data;
    assert ReceivedAll(frames) == [frame];
    BodyIsDelivered(deser, packet.opcode, 0, [frame]);
    assert MeaningOf(deser, packet.opcode, frame) + [] == MeaningOf(deser, packet.opcode, frame);
    assert [frame][1..] == [];
  }

  // ---------------------------------------------------------------- What else one call answers

  /** A second header while containers are owed is refused, and what is owed stays owed. */
  lemma SecondHeaderIsRefused<P>(deser: Deserializer<P>, owed: Pending, items: Incoming)
    requires items != [] && items[0].Ok? && items[0].value.MassiveHeader?
    ensures NextPacket(deser, Some(owed), items) == Reading(Some(owed), items[1..], UnconsumedMassivePacket(owed.remaining))
  {
  }

  /** A container that cannot be read is an error and does not count. */
  lemma UnreadableContainerStaysOwed<P>(deser: Deserializer<P>, owed: Pending, items: Incoming)
    requires items != [] && items[0].Ok? && items[0].value.MassiveContainer?
    requires deser(owed.opcode, items[0].value.inner).None?
    ensures NextPacket(deser, Some(owed), items) == Reading(Some(owed), items[1..], ProtocolError)
  {
  }

  /** A container that nothing announced, a broken frame and the end of the stream. */
  lemma OtherAnswers<P>(deser: Deserializer<P>, massive: Option<Pending>, items: Incoming)
    ensures items == [] ==> NextPacket(deser, massive, items) == Reading(massive, [], StreamClosed)
    ensures items != [] && items[0].Err? ==>
      NextPacket(deser, massive, items) == Reading(massive, items[1..], FrameFailure(items[0].error))
    ensures items != [] && items[0].Ok? && items[0].value.MassiveContainer? && massive.None? ==>
      NextPacket(deser, massive, items) == Reading(None, items[1..], StrayMassivePacket)
  {
  }
}
