/**
 * The receive path at one instant, as a value: what the connection believes, what it holds and what it has
 * done. The invariant that ties it to the splitter is stated and preserved here, away from the buffer.
 */
module ReceiveState {
  import opened Bytes
  import opened Splitter = FrameSplitter
  import opened Wire = WireMessages
  import RB = ReceiveBuffer
  import Serial

  const INITIAL_CAPACITY := 16384

  function Longest(messages: seq<seq<byte>>): (n: int)
    ensures n >= 0
  {
    if messages == [] then 0 else Max(Longest(messages[..|messages| - 1]), |messages[|messages| - 1]|)
  }

  // The largest field the connection has waited for.
  function LargestField(messages: seq<seq<byte>>, phase: Phase): int {
    Max(28, Max(Longest(messages), Need(phase)))
  }

  datatype View = View(
    phase: Phase,                 // the field waited for
    link: Link,
    active: bool,
    disconnect: bool,
    fault: bool,
    bitfield: seq<byte>,          // the bits the peer has sent
    held: seq<byte>,              // the bytes in the buffer, from the start of that field
    pos: int,                     // how far the field has been read
    capacity: int,
    stream: seq<byte>,            // all bytes read so far
    consumed: seq<seq<byte>>,     // messages handed to `do_message` and then cut from the buffer
    repeats: seq<seq<byte>>,      // chunks handed over and not cut
    outbox: seq<seq<byte>>        // messages written
  ) {
    ghost predicate Valid() {
      ValidPhase(phase) && 0 <= pos <= |held|
    }

    function Size(): int {
      Need(phase)
    }

    function Field(): seq<byte>
      requires Valid() && |held| >= Size()
    {
      held[..Size()]
    }

    // The bytes received and not yet looked at.
    function Unread(): int {
      |held| - pos
    }

    function Dispatched(): seq<seq<byte>> {
      consumed + repeats
    }
  }

  // The held bytes open with a complete field that stops the receiver.
  predicate AtHalt(peer: Peer, v: View)
    requires v.Valid()
  {
    HeadHalts(peer, v.phase, v.link, v.held)
  }

  function HaltReason(peer: Peer, v: View): Reason
    requires v.Valid() && AtHalt(peer, v)
  {
    Judge(peer, v.phase, v.link, v.Field()).reason
  }

  // What is held is exactly what the splitter has still to read; what was done is what it said.
  ghost predicate Tracks(peer: Peer, v: View) {
    && v.Valid()
    && Receive(peer, v.stream) == Run(peer, v.phase, v.link, v.held).Prepend(v.consumed)
    && (v.active <==> v.phase.MessageSize? || v.phase.Message?)
    && (forall m <- v.repeats :: m <= v.held && |m| >= v.Size())
    && (v.repeats != [] ==> AtHalt(peer, v) && v.repeats[0] == v.Field()
                            && (HaltReason(peer, v) == UnchokedBitfield || HaltReason(peer, v) == Fatal))
    && Framable(v.consumed)
    && |v.outbox| > 0 && v.outbox[1..] == Replies(v.consumed)
    && v.bitfield == BitsOf(v.Dispatched())
    && INITIAL_CAPACITY <= v.capacity
    && (AtHalt(peer, v) || v.capacity <= Max(INITIAL_CAPACITY, LargestField(v.consumed, v.phase) * 3 / 2))
  }

  // The position has passed the field that stops the receiver, and the process lives on.
  ghost predicate Stuck(peer: Peer, v: View) {
    && v.Valid() && v.pos >= v.Size() && AtHalt(peer, v) && HaltReason(peer, v) != Fatal
    && (v.disconnect <==> HaltReason(peer, v) == BadHandshake)
    && (HaltReason(peer, v) == UnchokedBitfield ==> v.repeats != [])
  }

  ghost predicate Crashed(peer: Peer, v: View) {
    && v.Valid() && AtHalt(peer, v)
    && (v.disconnect <==> HaltReason(peer, v) == BadHandshake)
    && (HaltReason(peer, v) == Fatal ==> v.repeats != [])
    && (HaltReason(peer, v) == Fatal || (HaltReason(peer, v) == BadHandshake && v.pos > v.Size()))
  }

  // Inside the read loop, before the position moves.
  ghost predicate Reading(peer: Peer, v: View) {
    && Tracks(peer, v)
    && if v.fault then Crashed(peer, v)
       else (v.pos < v.Size() && !v.disconnect) || (Stuck(peer, v) && (v.disconnect ==> v.pos == v.Size()))
  }

  // Inside the read loop, after it.
  ghost predicate Advanced(peer: Peer, v: View) {
    && Tracks(peer, v) && !v.fault && ((v.pos <= v.Size() && !v.disconnect) || Stuck(peer, v))
  }

  // Between two reads.
  ghost predicate Ready(peer: Peer, v: View) {
    Reading(peer, v) && !v.fault && !v.disconnect && v.Unread() == 0 && v.pos < v.capacity
  }

  // What one `on_receive` may do: nothing it has not looked at is touched.
  ghost predicate Step(peer: Peer, v: View, v': View) {
    && Reading(peer, v') && v'.stream == v.stream && v'.capacity == v.capacity && v'.Unread() == v.Unread()
  }

  lemma Opened(peer: Peer, v: View)
    requires v.phase == ProtocolId && v.link == FRESH && !v.active && !v.disconnect && !v.fault
    requires v.held == v.stream == [] && v.pos == 0 && v.capacity == INITIAL_CAPACITY
    requires v.consumed == v.repeats == [] && |v.outbox| == 1 && v.bitfield == []
    ensures Ready(peer, v)
  {
    PrependTwice(Receive(peer, v.stream), [], []);
  }

  lemma LargestFieldGrows(messages: seq<seq<byte>>, phase: Phase, field: seq<byte>, next: Phase)
    requires |field| == Need(phase)
    ensures LargestField(messages + [field], next) >= LargestField(messages, phase)
    ensures !phase.Message? ==> LargestField(messages, next) >= LargestField(messages, phase)
  {
    assert (messages + [field])[..|messages|] == messages;
  }

  // An accepted field of the handshake, or a length prefix, is cut.
  lemma FieldConsumed(peer: Peer, v: View, v': View)
    requires Advanced(peer, v) && v.pos == v.Size() && !AtHalt(peer, v) && !v.phase.Message?
    requires v'.phase == Judge(peer, v.phase, v.link, v.Field()).phase
    requires v' == v.(phase := v'.phase, held := v.held[v.Size()..], pos := 0,
                      active := v'.phase.MessageSize? || v'.phase.Message?)
    ensures Step(peer, v, v')
  {
    hide Run, Receive, Judge, Framable, Replies, LargestField;
    JudgeShape(peer, v.phase, v.link, v.Field());
    FieldKeepsLink(peer, v.phase, v.link, v.Field());
    ConsumeHead(peer, Receive(peer, v.stream), v.phase, v.link, v.held, v.consumed);
    LargestFieldGrows(v.consumed, v.phase, v.Field(), v'.phase);
    assert v.consumed + [] == v.consumed;
  }

  lemma FieldKeepsLink(peer: Peer, phase: Phase, link: Link, field: seq<byte>)
    requires ValidPhase(phase) && |field| == Need(phase) && !phase.Message?
    ensures var verdict := Judge(peer, phase, link, field); verdict.Next? ==> verdict.link == link
  {
  }

  // An accepted message is handed over and cut.
  lemma MessageConsumed(peer: Peer, v: View, v': View)
    requires Advanced(peer, v) && v.pos == v.Size() && v.phase.Message?
    requires JudgeMessage(peer, v.link, v.Field()).Next?
    requires v' == v.(phase := MessageSize, link := v.link.After(v.Field()),
                      held := v.held[v.Size()..], pos := 0, consumed := v.consumed + [v.Field()],
                      bitfield := BitsAfter(v.bitfield, v.Field()),
                      outbox := if v.Field()[0] == BITFIELD then v.outbox + [Frame(Body(Interested))] else v.outbox)
    ensures Step(peer, v, v')
  {
    hide Run, Receive, JudgeMessage, Replies, LargestField, Frame, BitsOf, BitsAfter, Body;
    var body := v.Field();
    JudgeDispatches(peer, v.link, body);
    ConsumeHead(peer, Receive(peer, v.stream), v.phase, v.link, v.held, v.consumed);
    LargestFieldGrows(v.consumed, v.phase, body, MessageSize);
    RepliesOfOne(v.consumed, body);
    BitsOfSnoc(v.consumed, body);
    assert v.repeats == [] && v.consumed + [] == v.consumed && v.consumed + [body] + [] == v.consumed + [body];
    assert v.outbox[1..] + [] == v.outbox[1..];
    assert (v.outbox + [Frame(Body(Interested))])[1..] == v.outbox[1..] + [Frame(Body(Interested))];
  }

  lemma MessageHalts(peer: Peer, v: View)
    requires v.Valid() && AtHalt(peer, v) && v.phase.Message?
    ensures HaltReason(peer, v) == Fatal || HaltReason(peer, v) == UnchokedBitfield
  {
  }

  // A message is handed over and left in the buffer.
  lemma MessageKept(peer: Peer, v: View, v': View)
    requires Advanced(peer, v) && v.pos >= v.Size() && AtHalt(peer, v) && v.phase.Message?
    requires v' == v.(repeats := v.repeats + [v.held[..v.pos]], fault := HaltReason(peer, v) == Fatal,
                      bitfield := BitsAfter(v.bitfield, v.held[..v.pos]))
    ensures Step(peer, v, v')
  {
    hide Run, Receive, Replies, LargestField, Judge, BitsOf, BitsAfter;
    MessageHalts(peer, v);
    BitsOfSnoc(v.Dispatched(), v.held[..v.pos]);
    assert v'.Dispatched() == v.Dispatched() + [v.held[..v.pos]];
    if v.repeats == [] {
      assert v'.repeats[0] == v.held[..v.pos];
    } else {
      assert v'.repeats[0] == v.repeats[0];
    }
    forall m <- v'.repeats ensures m <= v.held && |m| >= v.Size() {
      assert m == v.held[..v.pos] || m in v.repeats;
    }
  }

  // What the handlers' tests on a finished message amount to.
  lemma MessageVerdict(peer: Peer, v: View)
    requires Advanced(peer, v) && v.phase.Message? && v.pos >= v.Size()
    ensures !v.fault && v.pos > 0 && v.held[0] == v.Field()[0]
    ensures var refused := AtHalt(peer, v) && HaltReason(peer, v) == Fatal;
            && (v.held[0] == BITFIELD && v.pos < 6 ==> refused)
            && (v.held[0] == UNCHOKE && !peer.queued(v.link.unchokes) ==> refused)
            && (v.held[0] == PIECE && !peer.Takes(v.held[..v.pos]) ==> refused)
    ensures v.held[0] == BITFIELD && v.pos >= 6 && !v.link.choked ==>
              AtHalt(peer, v) && HaltReason(peer, v) == UnchokedBitfield
    ensures v.held[0] != BITFIELD || (v.pos >= 6 && v.link.choked) ==> v.pos == v.Size() && v.held[..v.pos] == v.Field()
    ensures (if v.held[0] == BITFIELD then v.pos >= 6 && v.link.choked
             else if v.held[0] == UNCHOKE then peer.queued(v.link.unchokes)
             else v.held[0] == PIECE ==> peer.Takes(v.held[..v.pos]))
            ==> JudgeMessage(peer, v.link, v.Field()).Next?
  {
    hide Run, Receive, Replies, LargestField;
  }

  lemma FieldUnfinished(peer: Peer, v: View)
    requires Advanced(peer, v) && v.pos < v.Size()
    ensures Step(peer, v, v)
  {
    hide Tracks;
  }

  lemma ReadyFacts(peer: Peer, v: View)
    requires Ready(peer, v)
    ensures Reading(peer, v) && !v.fault && !v.disconnect && v.Unread() == 0 && v.pos < v.capacity
  {
  }

  lemma ReadingFacts(peer: Peer, v: View)
    requires Reading(peer, v)
    ensures v.Size() > 0 && v.capacity >= INITIAL_CAPACITY && v.pos <= |v.held|
    ensures !v.fault && v.pos > v.Size() ==> AtHalt(peer, v)
  {
  }

  // What the tests on a finished field outside a message amount to.
  lemma FieldVerdict(peer: Peer, v: View)
    requires Advanced(peer, v) && !v.phase.Message? && v.pos >= v.Size()
    ensures !v.fault && (v.pos > v.Size() ==> AtHalt(peer, v) && (v.disconnect <==> !v.phase.MessageSize?))
    ensures AtHalt(peer, v) <==>
              match v.phase
              case ProtocolId => v.Field() != PROTOCOL_HEADER
              case InfoHash => v.Field()[8..] != peer.infoHash
              case PeerId => v.Field() != peer.remoteId[..20]
              case _ => Serial.Deserialize(v.Field()) <= 0
    ensures AtHalt(peer, v) ==> HaltReason(peer, v) == if v.phase.MessageSize? then NonPositiveLength else BadHandshake
    ensures !v.disconnect || (AtHalt(peer, v) && !v.phase.MessageSize?)
    ensures !AtHalt(peer, v) ==>
              Judge(peer, v.phase, v.link, v.Field()).phase ==
                match v.phase
                case ProtocolId => InfoHash
                case InfoHash => PeerId
                case PeerId => MessageSize
                case _ => Splitter.Message(Serial.Deserialize(v.Field()))
    ensures v.active <==> v.phase.MessageSize?
  {
    hide Run, Receive, Replies, LargestField, Serial.Deserialize;
  }

  // A finished field that the handshake or the length check turns down stays where it is.
  lemma FieldRefused(peer: Peer, v: View, v': View)
    requires Advanced(peer, v) && v.pos >= v.Size() && AtHalt(peer, v) && !v.phase.Message?
    requires var dropped := HaltReason(peer, v) == BadHandshake;
             v' == v.(disconnect := dropped, fault := dropped && v.pos > v.Size())
    ensures Step(peer, v, v')
  {
    hide Run, Receive, Replies, LargestField;
  }

  lemma StreamGrows(peer: Peer, stream: seq<byte>, phase: Phase, link: Link, held: seq<byte>,
                    consumed: seq<seq<byte>>, data: seq<byte>)
    requires ValidPhase(phase) && Receive(peer, stream) == Run(peer, phase, link, held).Prepend(consumed)
    ensures Receive(peer, stream + data) == Run(peer, phase, link, held + data).Prepend(consumed)
  {
    hide Judge, Run;
    RunAppend(peer, ProtocolId, FRESH, stream, data);
    RunAppend(peer, phase, link, held, data);
    var o := Run(peer, phase, link, held);
    PrependTwice(Run(peer, o.phase, o.link, o.tail + data), consumed, o.messages);
  }

  // The operating system has written `data` behind the held bytes.
  lemma ReadArrives(peer: Peer, v: View, data: seq<byte>)
    requires Ready(peer, v)
    ensures Reading(peer, v.(held := v.held + data, stream := v.stream + data))
  {
    hide Judge, Run, Receive, Replies, LargestField;
    var v' := v.(held := v.held + data, stream := v.stream + data);
    StreamGrows(peer, v.stream, v.phase, v.link, v.held, v.consumed, data);
    if |v.held| >= v.Size() {
      assert v'.held[..v.Size()] == v.held[..v.Size()];
    }
  }

  lemma PositionAdvances(peer: Peer, v: View, v': View, bytes: int)
    requires Reading(peer, v) && !v.fault && 0 <= bytes <= v.Unread()
    requires v' == v.(pos := v.pos + bytes)
    requires v.pos < v.Size() ==> bytes <= v.Size() - v.pos
    ensures Advanced(peer, v')
  {
    hide Run, Receive, Replies, LargestField, Judge;
  }

  // Where one read leaves the connection, in the splitter's terms.
  ghost predicate Settled(peer: Peer, v: View) {
    var o := Receive(peer, v.stream);
    && v.Valid() && v.phase == o.phase && v.link == o.link && v.held == o.tail && v.consumed == o.messages
    && (v.disconnect <==> o.halted == Some(BadHandshake))
    && (v.fault <==> o.halted == Some(Fatal) || (o.halted == Some(BadHandshake) && |o.tail| > Need(o.phase)))
    && (o.halted.None? ==> v.pos == |v.held| < v.Size()
                           && v.capacity <= Max(INITIAL_CAPACITY, LargestField(o.messages, o.phase) * 3 / 2))
    && (match o.halted
        case None => v.repeats == []
        case Some(BadHandshake) => v.repeats == []
        case Some(NonPositiveLength) => v.repeats == []
        case Some(_) => |v.held| >= v.Size() && v.repeats != [] && v.repeats[0] == v.Field()
                        && forall m <- v.repeats :: m <= v.held && |m| >= v.Size())
    && (v.active <==> o.phase.MessageSize? || o.phase.Message?)
    && |v.outbox| > 0 && Framable(o.messages) && v.outbox[1..] == Replies(o.messages)
    && v.bitfield == BitsOf(v.consumed + v.repeats)
  }

  lemma ReadSettles(peer: Peer, v: View)
    requires Reading(peer, v) && (v.fault || v.Unread() == 0)
    ensures Settled(peer, v)
  {
    hide Judge, Replies, LargestField;
    assert v.consumed + [] == v.consumed;
    if AtHalt(peer, v) {
      assert Run(peer, v.phase, v.link, v.held) == Outcome(v.phase, v.link, Some(HaltReason(peer, v)), v.held, []);
    } else {
      assert Run(peer, v.phase, v.link, v.held) == Outcome(v.phase, v.link, None, v.held, []);
    }
  }

  // The buffer has been tidied, and enlarged if it was full.
  lemma SetupKeepsReady(peer: Peer, v: View, capacity: int)
    requires Reading(peer, v) && !v.fault && !v.disconnect && v.Unread() == 0 && v.pos <= v.capacity
    requires v.pos < v.capacity ==> capacity == v.capacity
    requires v.pos == v.capacity ==>
               capacity == RB.Grown(RB.Grown(v.capacity, v.Size()), v.Size())
    ensures Ready(peer, v.(capacity := capacity))
  {
    hide Run, Receive, Replies, Judge, Longest;
    if v.pos == v.capacity && v.pos < v.Size() {
      assert capacity == v.Size() * 3 / 2;
      assert v.Size() <= LargestField(v.consumed, v.phase);
    }
  }

  lemma SettledFacts(peer: Peer, v: View)
    requires Settled(peer, v)
    ensures var o := Receive(peer, v.stream);
            && v.consumed == o.messages
            && (v.active <==> ShakesHands(peer, v.stream))
            && (v.Dispatched() == o.messages <==> o.halted != Some(UnchokedBitfield) && o.halted != Some(Fatal))
            && v.bitfield == BitsOf(v.consumed + v.repeats)
  {
    hide Run, Receive, Replies, LargestField;
    HandshakeGate(peer, v.stream);
    if v.repeats == [] {
      assert v.consumed + [] == v.consumed;
    } else {
      assert |v.Dispatched()| > |v.consumed|;
    }
  }

  /** The bytes alone decide what two connections to the same peer have dispatched, answered, held and concluded. */
  lemma SegmentationIndependence(peer: Peer, v: View, w: View)
    requires Settled(peer, v) && Settled(peer, w) && v.stream == w.stream
    ensures v.(pos := w.pos, capacity := w.capacity, repeats := w.repeats, bitfield := w.bitfield,
        outbox := w.outbox) == w
    ensures v.outbox[1..] == w.outbox[1..]
    ensures var halted := Receive(peer, v.stream).halted;
            && (halted.None? ==> v.pos == w.pos)
            && (halted != Some(UnchokedBitfield) && halted != Some(Fatal) ==>
                  v.Dispatched() == w.Dispatched() && v.bitfield == w.bitfield)
  {
    hide Run, Receive, Replies, LargestField;
  }
}
