/**
 * What the receiving side of the peer protocol means: a function from the bytes a peer has sent so
 * far to the frames dispatched, with no buffer, no read boundary and no position in it.
 */
module FrameSplitter {
  import opened Bytes
  import Serial

  // "BitTorrent protocol"
  const PROTOCOL_ID: seq<byte> :=
    [66, 105, 116, 84, 111, 114, 114, 101, 110, 116, 32, 112, 114, 111, 116, 111, 99, 111, 108]
  const PROTOCOL_HEADER: seq<byte> := [19] + PROTOCOL_ID

  const CHOKE: byte := 0
  const UNCHOKE: byte := 1
  const BITFIELD: byte := 5
  const PIECE: byte := 7

  // The integers a message carries behind its id.
  function Field(body: seq<byte>, k: nat): int32
    requires 1 + 4 * k <= |body|
  {
    Serial.Deserialize(body[1 + 4 * k..])
  }

  /**
   * What a connection expects of the remote end: the hash, the identifier (which may be longer than the 20 bytes
   * compared), and blocks of the torrent's pieces. The work queue is shared with other connections, so whether it
   * holds anything at this connection's k-th UNCHOKE is a parameter.
   */
  datatype Expectation = Expectation(infoHash: seq<byte>, remoteId: seq<byte>, pieces: nat, pieceLength: nat,
                                     queued: nat -> bool) {
    predicate Valid() { |infoHash| == 20 && |remoteId| >= 20 }

    // A PIECE for a piece there is, with a block that lies inside it.
    predicate Takes(body: seq<byte>) {
      && |body| >= 9
      && 0 <= Field(body, 0) < pieces
      && 0 <= Field(body, 1) && Field(body, 1) + |body| - 9 <= pieceLength
    }
  }

  type Peer = e: Expectation | e.Valid() witness Expectation(seq(20, _ => 0), seq(20, _ => 0), 0, 0, _ => true)

  // What the messages so far have made of the connection.
  datatype Link = Link(choked: bool, unchokes: nat) {
    function After(body: seq<byte>): Link
      requires |body| > 0
    {
      if body[0] == UNCHOKE then Link(false, unchokes + 1) else if body[0] == CHOKE then this.(choked := true) else this
    }
  }

  const FRESH := Link(true, 0)

  // The field of the stream that is being received.
  datatype Phase = ProtocolId | InfoHash | PeerId | MessageSize | Message(length: int)

  predicate ValidPhase(phase: Phase) {
    phase.Message? ==> 0 < phase.length <= INT_MAX
  }

  function Need(phase: Phase): (n: int)
    ensures ValidPhase(phase) ==> n > 0
  {
    match phase
    case ProtocolId => 20
    case InfoHash => 28
    case PeerId => 20
    case MessageSize => 4
    case Message(length) => length
  }

  datatype Reason =
    | BadHandshake        // the connection is dropped
    | NonPositiveLength   // a keep-alive, or a negative length prefix
    | UnchokedBitfield    // a BITFIELD while this side is unchoked
    | Fatal               // the process ends or leaves its memory: a BITFIELD or PIECE too short for its handler,
                          // a PIECE that is not taken, an UNCHOKE with no piece queued

  datatype Verdict =
    | Next(phase: Phase, link: Link, dispatched: seq<seq<byte>>)
    | Halt(reason: Reason)

  function JudgeMessage(peer: Expectation, link: Link, body: seq<byte>): Verdict
    requires |body| > 0
  {
    if body[0] == BITFIELD then
      if |body| < 6 then Halt(Fatal)
      else if link.choked then Next(MessageSize, link, [body]) else Halt(UnchokedBitfield)
    else if body[0] == UNCHOKE && !peer.queued(link.unchokes) then Halt(Fatal)
    else if body[0] == PIECE && !peer.Takes(body) then Halt(Fatal)
    else Next(MessageSize, link.After(body), [body])
  }

  function Judge(peer: Expectation, phase: Phase, link: Link, field: seq<byte>): (v: Verdict)
    requires peer.Valid() && ValidPhase(phase) && |field| == Need(phase)
    ensures v.Next? ==> ValidPhase(v.phase)
  {
    match phase
    case ProtocolId =>
      if field == PROTOCOL_HEADER then Next(InfoHash, link, []) else Halt(BadHandshake)
    case InfoHash =>
      if field[8..] == peer.infoHash then Next(PeerId, link, []) else Halt(BadHandshake)
    case PeerId =>
      if field == peer.remoteId[..20] then Next(MessageSize, link, []) else Halt(BadHandshake)
    case MessageSize =>
      var length: int := Serial.Deserialize(field);
      if length > 0 then Next(Message(length), link, []) else Halt(NonPositiveLength)
    case Message(_) =>
      JudgeMessage(peer, link, field)
  }

  // Where a stream leaves the receiver: `tail` is what is held, beginning with the field in `phase`.
  datatype Outcome = Outcome(phase: Phase, link: Link, halted: Option<Reason>, tail: seq<byte>,
                             messages: seq<seq<byte>>) {
    function Prepend(earlier: seq<seq<byte>>): Outcome {
      this.(messages := earlier + messages)
    }
  }

  function Run(peer: Expectation, phase: Phase, link: Link, s: seq<byte>): (o: Outcome)
    requires peer.Valid() && ValidPhase(phase)
    ensures ValidPhase(o.phase)
    decreases |s|
  {
    if |s| < Need(phase) then Outcome(phase, link, None, s, [])
    else
      var field, rest := s[..Need(phase)], s[Need(phase)..];
      match Judge(peer, phase, link, field)
      case Halt(reason) => Outcome(phase, link, Some(reason), s, [])
      case Next(phase', link', dispatched) => Run(peer, phase', link', rest).Prepend(dispatched)
  }

  // What a connection makes of all bytes received since it was opened.
  function Receive(peer: Expectation, stream: seq<byte>): Outcome
    requires peer.Valid()
  {
    Run(peer, ProtocolId, FRESH, stream)
  }

  // The field at the head of `s` is complete and stops the receiver.
  predicate HeadHalts(peer: Expectation, phase: Phase, link: Link, s: seq<byte>)
    requires peer.Valid() && ValidPhase(phase)
  {
    |s| >= Need(phase) && Judge(peer, phase, link, s[..Need(phase)]).Halt?
  }

  lemma PrependTwice(o: Outcome, a: seq<seq<byte>>, b: seq<seq<byte>>)
    ensures o.Prepend(b).Prepend(a) == o.Prepend(a + b)
    ensures o.Prepend([]) == o
  {
    assert a + (b + o.messages) == a + b + o.messages;
    assert [] + o.messages == o.messages;
  }

  // One complete field at the head of the stream, accepted.
  lemma RunStep(peer: Expectation, phase: Phase, link: Link, field: seq<byte>, rest: seq<byte>)
    requires peer.Valid() && ValidPhase(phase) && |field| == Need(phase)
    requires Judge(peer, phase, link, field).Next?
    ensures var v := Judge(peer, phase, link, field);
            && Run(peer, phase, link, field + rest) == Run(peer, v.phase, v.link, rest).Prepend(v.dispatched)
            && (v.dispatched == [] ==> Run(peer, phase, link, field + rest) == Run(peer, v.phase, v.link, rest))
  {
    hide Judge;
    assert (field + rest)[..Need(phase)] == field;
    assert (field + rest)[Need(phase)..] == rest;
    var v := Judge(peer, phase, link, field);
    PrependTwice(Run(peer, v.phase, v.link, rest), [], []);
  }

  // One complete field at the head of the stream, refused.
  lemma RunHalts(peer: Expectation, phase: Phase, link: Link, s: seq<byte>)
    requires peer.Valid() && ValidPhase(phase) && HeadHalts(peer, phase, link, s)
    ensures Run(peer, phase, link, s) ==
            Outcome(phase, link, Some(Judge(peer, phase, link, s[..Need(phase)]).reason), s, [])
  {
    hide Judge;
  }

  // Only whole messages are dispatched.
  lemma JudgeShape(peer: Expectation, phase: Phase, link: Link, field: seq<byte>)
    requires peer.Valid() && ValidPhase(phase) && |field| == Need(phase)
    requires Judge(peer, phase, link, field).Next?
    ensures var v := Judge(peer, phase, link, field);
            if phase.Message? then v.dispatched == [field] && v.phase == MessageSize else v.dispatched == []
  {
  }

  // What `whole` owes to the field at the head of `held` moves from the splitter to the record of the past.
  lemma ConsumeHead(peer: Expectation, whole: Outcome, phase: Phase, link: Link, held: seq<byte>,
                    consumed: seq<seq<byte>>)
    requires peer.Valid() && ValidPhase(phase) && |held| >= Need(phase)
    requires whole == Run(peer, phase, link, held).Prepend(consumed)
    requires Judge(peer, phase, link, held[..Need(phase)]).Next?
    ensures var v := Judge(peer, phase, link, held[..Need(phase)]);
            whole == Run(peer, v.phase, v.link, held[Need(phase)..]).Prepend(consumed + v.dispatched)
  {
    hide Judge, Run;
    var field, rest := held[..Need(phase)], held[Need(phase)..];
    assert held == field + rest;
    RunStep(peer, phase, link, field, rest);
    var v := Judge(peer, phase, link, field);
    PrependTwice(Run(peer, v.phase, v.link, rest), consumed, v.dispatched);
  }

  /** Reading on from where a prefix of the stream left off: the splitter does not see read boundaries. */
  lemma {:induction false} RunAppend(peer: Expectation, phase: Phase, link: Link, s: seq<byte>, t: seq<byte>)
    requires peer.Valid() && ValidPhase(phase)
    ensures var o := Run(peer, phase, link, s);
            Run(peer, phase, link, s + t) == Run(peer, o.phase, o.link, o.tail + t).Prepend(o.messages)
    decreases |s|
  {
    hide Judge;
    var n := Need(phase);
    if |s| < n || HeadHalts(peer, phase, link, s) {
      PrependTwice(Run(peer, phase, link, s + t), [], []);
    } else {
      assert (s + t)[..n] == s[..n];
      assert (s + t)[n..] == s[n..] + t;
      var v := Judge(peer, phase, link, s[..n]);
      var o' := Run(peer, v.phase, v.link, s[n..]);
      RunAppend(peer, v.phase, v.link, s[n..], t);
      PrependTwice(Run(peer, o'.phase, o'.link, o'.tail + t), v.dispatched, o'.messages);
    }
  }

  /** A halted splitter dispatches nothing more, whatever follows, and holds on to every byte. */
  lemma HaltedForever(peer: Expectation, stream: seq<byte>, more: seq<byte>)
    requires peer.Valid() && Receive(peer, stream).halted.Some?
    ensures Receive(peer, stream + more) == Receive(peer, stream).(tail := Receive(peer, stream).tail + more)
  {
    RunAppend(peer, ProtocolId, FRESH, stream, more);
    TailIsUnread(peer, ProtocolId, FRESH, stream);
    var o := Receive(peer, stream);
    assert (o.tail + more)[..Need(o.phase)] == o.tail[..Need(o.phase)];
    assert o.messages + [] == o.messages;
  }

  /** The tail is what `phase` has not finished with: too short, or beginning with the field that halts. */
  lemma {:induction false} TailIsUnread(peer: Expectation, phase: Phase, link: Link, s: seq<byte>)
    requires peer.Valid() && ValidPhase(phase)
    ensures var o := Run(peer, phase, link, s);
            if o.halted.None? then |o.tail| < Need(o.phase)
            else HeadHalts(peer, o.phase, o.link, o.tail)
                 && o.halted.value == Judge(peer, o.phase, o.link, o.tail[..Need(o.phase)]).reason
    decreases |s|
  {
    hide Judge;
    var n := Need(phase);
    if |s| >= n && !HeadHalts(peer, phase, link, s) {
      var v := Judge(peer, phase, link, s[..n]);
      TailIsUnread(peer, v.phase, v.link, s[n..]);
    }
  }
}
