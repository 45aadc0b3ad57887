/** The messages this client writes, and the frames a peer may send it. */
module WireMessages {
  import opened Bytes
  import opened Splitter = FrameSplitter
  import Serial

  const INTERESTED: byte := 2
  const HAVE: byte := 4
  const REQUEST: byte := 6

  datatype Message =
    | Interested
    | Have(index: int32)
    | Request(index: int32, offset: int32, length: int32)

  function Body(m: Message): (body: seq<byte>)
    ensures 0 < |body| < 256
  {
    match m
    case Interested => [INTERESTED]
    case Have(index) => [HAVE] + Serial.Serialize(index)
    case Request(index, offset, length) =>
      [REQUEST] + Serial.Serialize(index) + Serial.Serialize(offset) + Serial.Serialize(length)
  }

  function ParseBody(body: seq<byte>): Option<Message> {
    if |body| == 1 && body[0] == INTERESTED then Some(Interested)
    else if |body| == 5 && body[0] == HAVE then Some(Have(Field(body, 0)))
    else if |body| == 13 && body[0] == REQUEST then Some(Request(Field(body, 0), Field(body, 1), Field(body, 2)))
    else None
  }

  // A length prefix and that many bytes.
  function Frame(body: seq<byte>): seq<byte>
    requires |body| <= INT_MAX
  {
    Serial.Serialize(|body|) + body
  }

  predicate Framable(bodies: seq<seq<byte>>) {
    forall body <- bodies :: 0 < |body| <= INT_MAX
  }

  function Frames(bodies: seq<seq<byte>>): seq<byte>
    requires Framable(bodies)
  {
    if bodies == [] then [] else Frame(bodies[0]) + Frames(bodies[1..])
  }

  function Encode(ms: seq<Message>): seq<byte> {
    if ms == [] then [] else Frame(Body(ms[0])) + Encode(ms[1..])
  }

  // The 68 bytes of the handshake: a header, eight reserved zeros, the info hash and the peer id.
  function Handshake(infoHash: seq<byte>, id: seq<byte>): (hs: seq<byte>)
    requires |infoHash| == 20 && |id| >= 20
    ensures |hs| == 68
  {
    PROTOCOL_HEADER + [0, 0, 0, 0, 0, 0, 0, 0] + infoHash + id[..20]
  }

  // What BITFIELDs received while choked are answered with.
  function Replies(bodies: seq<seq<byte>>): seq<seq<byte>>
    requires Framable(bodies)
  {
    if bodies == [] then []
    else
      var last := |bodies| - 1;
      var earlier := Replies(bodies[..last]);
      if bodies[last][0] == BITFIELD then earlier + [Frame(Body(Interested))] else earlier
  }

  lemma RepliesOfOne(bodies: seq<seq<byte>>, body: seq<byte>)
    requires Framable(bodies) && 0 < |body| <= INT_MAX
    ensures Framable(bodies + [body]) && Replies(bodies + [body]) == Replies(bodies) + Replies([body])
    ensures Replies([]) == []
    ensures Replies([body]) == if body[0] == BITFIELD then [Frame(Body(Interested))] else []
  {
    hide Frame;
    assert (bodies + [body])[..|bodies|] == bodies;
    assert [body][..0] == [];
  }

  // The bits kept once `body` has been handed over: a BITFIELD's bytes behind its fifth, if it has any.
  function BitsAfter(before: seq<byte>, body: seq<byte>): seq<byte> {
    if |body| >= 6 && body[0] == BITFIELD then body[5..] else before
  }

  // The bits kept once all of these have been handed over.
  function BitsOf(bodies: seq<seq<byte>>): seq<byte> {
    if bodies == [] then [] else BitsAfter(BitsOf(bodies[..|bodies| - 1]), bodies[|bodies| - 1])
  }

  lemma BitsOfSnoc(bodies: seq<seq<byte>>, body: seq<byte>)
    ensures BitsOf(bodies + [body]) == BitsAfter(BitsOf(bodies), body)
  {
    assert (bodies + [body])[..|bodies|] == bodies;
  }

  // A BITFIELD long enough to leave bits behind.
  predicate LeavesBits(body: seq<byte>) {
    |body| >= 6 && body[0] == BITFIELD
  }

  /** The bits kept are those of the last BITFIELD, byte for byte, and none if there was none. */
  lemma {:induction false} BitsAreTheLast(bodies: seq<seq<byte>>, k: nat)
    requires k < |bodies| ==> LeavesBits(bodies[k]) && forall j :: k < j < |bodies| ==> !LeavesBits(bodies[j])
    requires k >= |bodies| ==> forall j :: 0 <= j < |bodies| ==> !LeavesBits(bodies[j])
    ensures if k >= |bodies| then BitsOf(bodies) == []
            else |BitsOf(bodies)| == |bodies[k]| - 5
                 && forall j :: 0 <= j < |bodies[k]| - 5 ==> BitsOf(bodies)[j] == bodies[k][5 + j]
    decreases |bodies|
  {
    if bodies != [] && k != |bodies| - 1 {
      BitsAreTheLast(bodies[..|bodies| - 1], k);
    }
  }

  /** What is written, byte for byte: a big-endian length, the id, and big-endian integers. */
  lemma Layout(index: int32, offset: int32, length: int32)
    ensures Frame(Body(Interested)) == [0, 0, 0, 1, 2]
    ensures var have := Frame(Body(Have(index)));
            |have| == 9 && have[..5] == [0, 0, 0, 5, 4] && have[5..] == Serial.Serialize(index)
    ensures var request := Frame(Body(Request(index, offset, length)));
            && |request| == 17 && request[..5] == [0, 0, 0, 13, 6]
            && request[5..9] == Serial.Serialize(index) && request[9..13] == Serial.Serialize(offset)
            && request[13..] == Serial.Serialize(length)
  {
    assert Serial.Serialize(1) == [0, 0, 0, 1] && Serial.Serialize(5) == [0, 0, 0, 5];
    assert Serial.Serialize(13) == [0, 0, 0, 13];
    LayoutOfRequest(index, offset, length);
  }

  lemma LayoutOfRequest(index: int32, offset: int32, length: int32)
    ensures var request := Frame(Body(Request(index, offset, length)));
            && |request| == 17 && request[..5] == Serial.Serialize(13) + [6]
            && request[5..9] == Serial.Serialize(index) && request[9..13] == Serial.Serialize(offset)
            && request[13..] == Serial.Serialize(length)
  {
    hide Serial.Serialize;
    var i, o, l := Serial.Serialize(index), Serial.Serialize(offset), Serial.Serialize(length);
    assert Frame(Body(Request(index, offset, length))) == Serial.Serialize(13) + [6] + i + o + l;
  }

  // The text a handshake opens with, behind its length, and the ids of the messages handled.
  lemma HeaderText()
    ensures |PROTOCOL_HEADER| == 20 && PROTOCOL_HEADER[0] == 19
    ensures forall i :: 0 <= i < 19 ==> PROTOCOL_HEADER[1 + i] == "BitTorrent protocol"[i] as int
    ensures CHOKE == 0 && UNCHOKE == 1 && BITFIELD == 5 && PIECE == 7
  {
  }

  // A PIECE: the block's piece, where it belongs in it, and its bytes.
  function PieceMessage(index: int32, offset: int32, block: seq<byte>): seq<byte> {
    [PIECE] + Serial.Serialize(index) + Serial.Serialize(offset) + block
  }

  lemma PieceIsRead(index: int32, offset: int32, block: seq<byte>)
    ensures var body := PieceMessage(index, offset, block);
            && |body| == 9 + |block| && body[0] == PIECE && body[9..] == block
            && Field(body, 0) == index && Field(body, 1) == offset
  {
    hide Serial.Serialize, Serial.Deserialize;
    var body, i, o := PieceMessage(index, offset, block), Serial.Serialize(index), Serial.Serialize(offset);
    assert body[1..] == i + (o + block);
    assert body[5..] == o + block;
    Serial.DeserializeSerialize(index, o + block);
    Serial.DeserializeSerialize(offset, block);
  }

  method CreateInterestedMessage() returns (msg: array<byte>)
    ensures fresh(msg) && msg[..] == Frame(Body(Interested))
  {
    msg := new byte[5];
    msg[4] := INTERESTED;
    Serial.SerializeInt(msg, 0, 4, 1);
    assert msg[4..] == [INTERESTED];
  }

  method CreateHaveMessage(index: int32) returns (msg: array<byte>)
    ensures fresh(msg) && msg[..] == Frame(Body(Have(index)))
  {
    msg := new byte[9];
    msg[4] := HAVE;
    Serial.SerializeInt(msg, 0, 4, 5);
    Serial.SerializeInt(msg, 5, 4, index);
    assert msg[..5] == Serial.Serialize(5) + [HAVE];
    assert msg[..] == msg[..5] + Serial.Serialize(index);
  }

  method CreateRequestMessage(index: int32, offset: int32, length: int32) returns (msg: array<byte>)
    ensures fresh(msg) && msg[..] == Frame(Body(Request(index, offset, length)))
  {
    hide Serial.Serialize;
    msg := new byte[17](_ => 0);
    Serial.SerializeInt(msg, 0, 4, 13);
    msg[4] := REQUEST;
    Serial.SerializeInt(msg, 5, 4, index);
    Serial.SerializeInt(msg, 9, 4, offset);
    Serial.SerializeInt(msg, 13, 4, length);
    assert msg[..4] == Serial.Serialize(13);
    assert msg[5..9] == Serial.Serialize(index);
    assert msg[9..13] == Serial.Serialize(offset);
    assert msg[..] == msg[..4] + [msg[4]] + msg[5..9] + msg[9..13] + msg[13..];
  }

  /** Every field of a message this client writes is recovered from its body, negative values included. */
  lemma ParseBodyOfBody(m: Message)
    ensures ParseBody(Body(m)) == Some(m)
  {
    var body := Body(m);
    match m
    case Interested =>
    case Have(index) =>
      assert body[1..] == Serial.Serialize(index) + [];
      Serial.DeserializeSerialize(index, []);
    case Request(index, offset, length) =>
      var i, o, l := Serial.Serialize(index), Serial.Serialize(offset), Serial.Serialize(length);
      assert body[1..] == i + (o + l);
      assert body[5..] == o + l;
      assert body[9..] == l + [];
      Serial.DeserializeSerialize(index, o + l);
      Serial.DeserializeSerialize(offset, l);
      Serial.DeserializeSerialize(length, []);
  }

  // The splitter run over whole frames alone: no byte, only the verdict on each body in turn.
  predicate Accepted(peer: Peer, link: Link, bodies: seq<seq<byte>>)
    requires Framable(bodies)
    decreases |bodies|
  {
    bodies == [] ||
    var v := JudgeMessage(peer, link, bodies[0]);
    v.Next? && Accepted(peer, v.link, bodies[1..])
  }

  function LinkAfter(link: Link, bodies: seq<seq<byte>>): Link
    requires Framable(bodies)
    decreases |bodies|
  {
    if bodies == [] then link else LinkAfter(link.After(bodies[0]), bodies[1..])
  }

  // The verdict on a length prefix.
  lemma JudgePrefix(peer: Peer, link: Link, length: int)
    requires 0 < length <= INT_MAX
    ensures Judge(peer, MessageSize, link, Serial.Serialize(length)) == Next(Splitter.Message(length), link, [])
  {
    Serial.DeserializeSerialize(length, []);
    assert Serial.Serialize(length) + [] == Serial.Serialize(length);
  }

  // One whole frame at the head of the stream.
  lemma RunFrame(peer: Peer, link: Link, body: seq<byte>, rest: seq<byte>)
    requires 0 < |body| <= INT_MAX && JudgeMessage(peer, link, body).Next?
    ensures Run(peer, MessageSize, link, Frame(body) + rest) ==
            Run(peer, MessageSize, JudgeMessage(peer, link, body).link, rest).Prepend([body])
  {
    hide Run, JudgeMessage, Serial.Serialize, Serial.Deserialize;
    JudgePrefix(peer, link, |body|);
    assert Frame(body) + rest == Serial.Serialize(|body|) + (body + rest);
    RunStep(peer, MessageSize, link, Serial.Serialize(|body|), body + rest);
    JudgeDispatches(peer, link, body);
    RunStep(peer, Splitter.Message(|body|), link, body, rest);
  }

  lemma JudgeDispatches(peer: Peer, link: Link, body: seq<byte>)
    requires |body| > 0 && JudgeMessage(peer, link, body).Next?
    ensures JudgeMessage(peer, link, body).phase == MessageSize && JudgeMessage(peer, link, body).dispatched == [body]
    ensures JudgeMessage(peer, link, body).link == link.After(body)
  {
  }

  /** Frames in, bodies out, in order and once each; the bytes after the last whole frame are read on from there. */
  lemma {:induction false} FramesAreDispatched(peer: Peer, link: Link, bodies: seq<seq<byte>>, rest: seq<byte>)
    requires Framable(bodies) && Accepted(peer, link, bodies)
    ensures Run(peer, MessageSize, link, Frames(bodies) + rest) ==
            Run(peer, MessageSize, LinkAfter(link, bodies), rest).Prepend(bodies)
    decreases |bodies|
  {
    hide Run, Frame;
    if bodies == [] {
      assert [] + rest == rest;
      PrependTwice(Run(peer, MessageSize, link, rest), [], []);
    } else {
      var body, after := bodies[0], Frames(bodies[1..]) + rest;
      assert Frames(bodies) + rest == Frame(body) + after;
      RunFrame(peer, link, body, after);
      JudgeDispatches(peer, link, body);
      FramesAreDispatched(peer, link.After(body), bodies[1..], rest);
      PrependTwice(Run(peer, MessageSize, LinkAfter(link, bodies), rest), [body], bodies[1..]);
      assert [body] + bodies[1..] == bodies;
    }
  }

  // The bytes of an unfinished message whose prefix has already been taken off the tail.
  function Held(phase: Phase, tail: seq<byte>): seq<byte>
    requires ValidPhase(phase)
  {
    if phase.Message? then Serial.Serialize(phase.length) + tail else tail
  }

  /**
   * The frames a peer may send, in full: a BITFIELD of 6 bytes or more and only while choked, an UNCHOKE only when
   * a piece is queued, a PIECE only with a block inside a piece.
   */
  lemma {:induction false} AcceptedMeans(peer: Peer, link: Link, bodies: seq<seq<byte>>)
    requires Framable(bodies)
    ensures Accepted(peer, link, bodies) <==>
              forall i :: 0 <= i < |bodies| ==>
                var b := bodies[i];
                && (b[0] == BITFIELD ==> |b| >= 6 && LinkAfter(link, bodies[..i]).choked)
                && (b[0] == UNCHOKE ==> peer.queued(LinkAfter(link, bodies[..i]).unchokes))
                && (b[0] == PIECE ==> |b| >= 9 && 0 <= Field(b, 0) < peer.pieces
                                      && 0 <= Field(b, 1) <= peer.pieceLength - (|b| - 9))
    decreases |bodies|
  {
    if bodies != [] {
      var rest, next := bodies[1..], link.After(bodies[0]);
      AcceptedMeans(peer, next, rest);
      forall i | 1 <= i < |bodies| ensures LinkAfter(link, bodies[..i]) == LinkAfter(next, rest[..i - 1]) {
        assert bodies[..i][1..] == rest[..i - 1];
      }
      assert forall i :: 0 <= i < |rest| ==> rest[i] == bodies[i + 1];
      assert forall i :: 1 <= i < |bodies| ==> bodies[i] == rest[i - 1];
    }
  }

  /** The receiver survives a list of frames exactly when they are such frames. */
  lemma {:induction false} SurvivesIffAccepted(peer: Peer, link: Link, bodies: seq<seq<byte>>)
    requires Framable(bodies)
    ensures Run(peer, MessageSize, link, Frames(bodies)).halted.None? <==> Accepted(peer, link, bodies)
    decreases |bodies|
  {
    hide JudgeMessage, Serial.Serialize, Serial.Deserialize, Frame, Run;
    if bodies == [] {
      EmptyRun(peer, link);
    } else {
      var body, after := bodies[0], Frames(bodies[1..]);
      if JudgeMessage(peer, link, body).Next? {
        RunFrame(peer, link, body, after);
        JudgeDispatches(peer, link, body);
        SurvivesIffAccepted(peer, link.After(body), bodies[1..]);
      } else {
        RunRefusedFrame(peer, link, body, after);
      }
    }
  }

  lemma EmptyRun(peer: Peer, link: Link)
    ensures Run(peer, MessageSize, link, []) == Outcome(MessageSize, link, None, [], [])
  {
  }

  lemma RunRefusedFrame(peer: Peer, link: Link, body: seq<byte>, rest: seq<byte>)
    requires 0 < |body| <= INT_MAX && JudgeMessage(peer, link, body).Halt?
    ensures Run(peer, MessageSize, link, Frame(body) + rest).halted == Some(JudgeMessage(peer, link, body).reason)
  {
    hide JudgeMessage, Serial.Serialize, Serial.Deserialize;
    JudgePrefix(peer, link, |body|);
    FrameSplits(body, rest, |body|);
    RunStep(peer, MessageSize, link, Serial.Serialize(|body|), body + rest);
    assert (body + rest)[..|body|] == body;
  }

  /** A keep-alive is never passed: the frames before it are dispatched, and nothing after it ever is. */
  lemma KeepAliveWedges(peer: Peer, link: Link, bodies: seq<seq<byte>>, more: seq<byte>)
    requires Framable(bodies) && Accepted(peer, link, bodies)
    ensures Run(peer, MessageSize, link, Frames(bodies) + ([0, 0, 0, 0] + more)) ==
            Outcome(MessageSize, LinkAfter(link, bodies), Some(NonPositiveLength), [0, 0, 0, 0] + more, bodies)
  {
    hide Frames, Run, Accepted, LinkAfter;
    var rest := [0, 0, 0, 0] + more;
    FramesAreDispatched(peer, link, bodies, rest);
    assert rest[..4] == [0, 0, 0, 0];
    RunHalts(peer, MessageSize, LinkAfter(link, bodies), rest);
    assert bodies + [] == bodies;
  }

  // The dispatched frames and what is still held are exactly `s`.
  ghost predicate Conserves(peer: Peer, o: Outcome, link: Link, s: seq<byte>) {
    && (o.phase.MessageSize? || o.phase.Message?) && ValidPhase(o.phase)
    && Framable(o.messages) && Accepted(peer, link, o.messages)
    && o.link == LinkAfter(link, o.messages)
    && Frames(o.messages) + Held(o.phase, o.tail) == s
  }

  /** Conservation: no byte received after the handshake is lost, repeated or reordered. */
  lemma {:induction false} NothingLost(peer: Peer, link: Link, s: seq<byte>)
    ensures Conserves(peer, Run(peer, MessageSize, link, s), link, s)
    decreases |s|
  {
    hide JudgeMessage, Serial.Serialize, Serial.Deserialize, Frame;
    var o := Run(peer, MessageSize, link, s);
    assert [] + s == s;
    if |s| >= 4 && Serial.Deserialize(s[..4]) > 0 {
      var n: int := Serial.Deserialize(s[..4]);
      assert s == s[..4] + s[4..];
      Serial.SerializeDeserialize(s[..4]);
      RunStep(peer, MessageSize, link, s[..4], s[4..]);
      NothingLostInBody(peer, link, n, s[4..]);
    }
  }

  lemma {:induction false} NothingLostInBody(peer: Peer, link: Link, n: int, s: seq<byte>)
    requires 0 < n <= INT_MAX
    ensures Conserves(peer, Run(peer, Splitter.Message(n), link, s), link, Serial.Serialize(n) + s)
    decreases |s|
  {
    hide JudgeMessage, Serial.Serialize, Serial.Deserialize, Frame;
    if n <= |s| && JudgeMessage(peer, link, s[..n]).Next? {
      var body, after := s[..n], s[n..];
      assert s == body + after;
      RunStep(peer, Splitter.Message(n), link, body, after);
      JudgeDispatches(peer, link, body);
      NothingLost(peer, link.After(body), after);
      FrameKept(peer, Run(peer, MessageSize, link.After(body), after), link, body, after);
      FrameSplits(body, after, n);
    } else {
      assert [] + (Serial.Serialize(n) + s) == Serial.Serialize(n) + s;
    }
  }

  lemma FrameSplits(body: seq<byte>, after: seq<byte>, n: int)
    requires n == |body| <= INT_MAX
    ensures Frame(body) + after == Serial.Serialize(n) + (body + after)
  {
    hide Serial.Serialize;
  }

  // Conservation survives one more frame in front.
  lemma FrameKept(peer: Peer, o: Outcome, link: Link, body: seq<byte>, after: seq<byte>)
    requires 0 < |body| <= INT_MAX && JudgeMessage(peer, link, body).Next?
    requires Conserves(peer, o, link.After(body), after)
    ensures Conserves(peer, o.Prepend([body]), link, Frame(body) + after)
  {
    hide Serial.Serialize, JudgeMessage;
    var bodies := [body] + o.messages;
    assert bodies[1..] == o.messages;
    JudgeDispatches(peer, link, body);
    assert Frames(bodies) == Frame(body) + Frames(o.messages);
  }

  /**
   * Wire round trip: any list of request, have and interested messages arrives as written, in order,
   * behind any complete handshake, and every field is recovered.
   */
  lemma {:induction false} WireRoundTrip(peer: Peer, link: Link, ms: seq<Message>)
    ensures var o := Run(peer, MessageSize, link, Encode(ms));
            && o.halted.None? && o.tail == [] && o.phase == MessageSize
            && |o.messages| == |ms|
            && forall i :: 0 <= i < |ms| ==> ParseBody(o.messages[i]) == Some(ms[i])
  {
    hide Run, Frame, Receive;
    if ms == [] {
      EmptyRun(peer, link);
    } else {
      var body, after := Body(ms[0]), Encode(ms[1..]);
      RunFrame(peer, link, body, after);
      WireRoundTrip(peer, link, ms[1..]);
      ParseBodyOfBody(ms[0]);
      var o, o' := Run(peer, MessageSize, link, Encode(ms)), Run(peer, MessageSize, link, after);
      assert o == o'.Prepend([body]);
      forall i | 0 <= i < |ms| ensures ParseBody(o.messages[i]) == Some(ms[i]) {
        if i > 0 { assert ms[i] == ms[1..][i - 1]; }
      }
    }
  }

  // Bytes that open with a complete handshake this peer accepts; the eight reserved bytes may be anything.
  predicate ShakesHands(peer: Peer, stream: seq<byte>) {
    && |stream| >= 68
    && stream[..20] == PROTOCOL_HEADER
    && stream[28..48] == peer.infoHash
    && stream[48..68] == peer.remoteId[..20]
  }

  /** The message loop is reached exactly by an accepted handshake, and then reads on from byte 68. */
  lemma HandshakeGate(peer: Peer, stream: seq<byte>)
    ensures var o := Receive(peer, stream);
            && (o.phase.MessageSize? || o.phase.Message? <==> ShakesHands(peer, stream))
            && (if ShakesHands(peer, stream) then o == Run(peer, MessageSize, FRESH, stream[68..])
                else o.messages == [] && o.link == FRESH)
  {
    hide Serial.Deserialize;
    var o := Receive(peer, stream);
    if |stream| >= 20 && stream[..20] == PROTOCOL_HEADER {
      var s1 := stream[20..];
      assert stream == stream[..20] + s1;
      RunStep(peer, ProtocolId, FRESH, stream[..20], s1);
      if |s1| >= 28 {
        assert s1[..28][8..] == stream[28..48];
        if s1[..28][8..] == peer.infoHash {
          var s2 := s1[28..];
          assert s1 == s1[..28] + s2;
          RunStep(peer, InfoHash, FRESH, s1[..28], s2);
          if |s2| >= 20 {
            assert s2[..20] == stream[48..68];
            if s2[..20] == peer.remoteId[..20] {
              assert s2 == s2[..20] + stream[68..];
              RunStep(peer, PeerId, FRESH, s2[..20], stream[68..]);
              NothingLost(peer, FRESH, stream[68..]);
            }
          }
        }
      }
    }
  }

  /** Whatever a connection dispatches is a list of accepted frames, and has made of it what they say. */
  lemma ReceiveAccepts(peer: Peer, stream: seq<byte>)
    ensures var o := Receive(peer, stream);
            Framable(o.messages) && Accepted(peer, FRESH, o.messages) && o.link == LinkAfter(FRESH, o.messages)
  {
    hide Receive, Run;
    HandshakeGate(peer, stream);
    if ShakesHands(peer, stream) { NothingLost(peer, FRESH, stream[68..]); }
  }

  // No extension is announced.
  lemma NothingReserved(infoHash: seq<byte>, id: seq<byte>)
    requires |infoHash| == 20 && |id| >= 20
    ensures var hs := Handshake(infoHash, id); |hs| == 68 && forall i :: 20 <= i < 28 ==> hs[i] == 0
  {
  }

  /** What `send_handshake` writes is accepted by a receiver that expects that hash and that id, and nobody else. */
  lemma HandshakeInverse(peer: Peer, infoHash: seq<byte>, id: seq<byte>, rest: seq<byte>)
    requires |infoHash| == 20 && |id| >= 20
    ensures ShakesHands(peer, Handshake(infoHash, id) + rest)
            <==> infoHash == peer.infoHash && id[..20] == peer.remoteId[..20]
    ensures infoHash == peer.infoHash && id[..20] == peer.remoteId[..20] ==>
              Receive(peer, Handshake(infoHash, id) + rest) == Run(peer, MessageSize, FRESH, rest)
  {
    var s := Handshake(infoHash, id) + rest;
    assert s[..20] == PROTOCOL_HEADER;
    assert s[28..48] == infoHash;
    assert s[48..68] == id[..20];
    assert s[68..] == rest;
    HandshakeGate(peer, s);
  }

  /** A handshake the receiver expects and any messages behind it: all dispatched, in order, every field recovered. */
  lemma Conversation(peer: Peer, infoHash: seq<byte>, id: seq<byte>, ms: seq<Message>)
    requires infoHash == peer.infoHash && |id| >= 20 && id[..20] == peer.remoteId[..20]
    ensures var o := Receive(peer, Handshake(infoHash, id) + Encode(ms));
            && o.halted.None? && o.tail == [] && |o.messages| == |ms|
            && forall i :: 0 <= i < |ms| ==> ParseBody(o.messages[i]) == Some(ms[i])
  {
    hide Run, Receive, Handshake;
    HandshakeInverse(peer, infoHash, id, Encode(ms));
    WireRoundTrip(peer, FRESH, ms);
  }
}
