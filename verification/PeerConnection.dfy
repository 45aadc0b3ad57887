/**
 * The receive path of a peer connection, statement by statement over the receive buffer
 * (src/peer_connection_core.cpp, src/peer_connection.cpp).
 */
module PeerConnections {
  import opened Bytes
  import RB = ReceiveBuffer
  import opened Splitter = FrameSplitter
  import opened Wire = WireMessages
  import opened ReceiveState
  import Serial

  datatype State = ReadProtocolId | ReadInfoHash | ReadPeerId | ReadMessageSize | ReadMessage

  function PhaseOf(state: State, size: int): Splitter.Phase {
    match state
    case ReadProtocolId => ProtocolId
    case ReadInfoHash => InfoHash
    case ReadPeerId => PeerId
    case ReadMessageSize => MessageSize
    case ReadMessage => Splitter.Message(size)
  }

  class PeerConnection {
    const expected: Expectation
    const recv: RB.RecvBuffer
    var state: State
    var choked: bool
    // How often it has been unchoked: which of `expected.queued` comes next.
    var unchokes: nat
    var active: bool
    var disconnect: bool
    var bitfield: seq<byte>
    // A failed assert, or an exception nothing catches: the process is gone.
    var fault: bool
    // The messages written, in order.
    var outbox: seq<seq<byte>>

    // What no field of the source records: see `View`.
    ghost var stream: seq<byte>
    ghost var consumed: seq<seq<byte>>
    ghost var repeats: seq<seq<byte>>

    ghost function Phase(): Splitter.Phase
      reads this, recv
    {
      PhaseOf(state, recv.messageSize)
    }

    // The message size in the buffer is the one the state machine waits for.
    ghost predicate Coherent()
      reads this, recv
    {
      && expected.Valid() && recv.Valid() && recv.start + recv.pos <= recv.end
      && ValidPhase(Phase()) && recv.messageSize == Need(Phase())
    }

    ghost function View(): (v: View)
      requires recv.Valid()
      reads this, recv, recv.buff
    {
      ReceiveState.View(Phase(), Link(choked, unchokes), active, disconnect, fault, bitfield, recv.Pending(),
                        recv.pos, recv.buff.Length, stream, consumed, repeats, outbox)
    }

    // Between two reads.
    ghost predicate Valid()
      reads this, recv, recv.buff
    {
      Coherent() && Ready(expected, View()) && recv.start == 0
    }

    constructor (expected: Expectation)
      requires expected.Valid()
      ensures this.expected == expected && recv.Valid() && fresh(recv) && fresh(recv.buff)
      ensures recv.buff.Length == recv.start == recv.end == recv.pos == recv.messageSize == 0
      ensures choked && unchokes == 0 && !active && !disconnect && !fault
      ensures bitfield == [] && outbox == [] && stream == [] && consumed == repeats == []
    {
      this.expected := expected;
      recv := new RB.RecvBuffer();
      state := ReadProtocolId;
      choked, unchokes, active, disconnect, fault := true, 0, false, false, false;
      bitfield, outbox, stream, consumed, repeats := [], [], [], [], [];
    }

    /** `start` reserves; `send_handshake` writes 68 bytes, reserves again and waits for a protocol identifier. */
    method SendHandshake(infoHash: seq<byte>, id: seq<byte>)
      requires |infoHash| == 20 && |id| >= 20
      requires expected.Valid() && recv.Valid()
      requires recv.buff.Length == recv.start == recv.end == recv.pos == recv.messageSize == 0
      requires choked && unchokes == 0 && !active && !disconnect && !fault
      requires bitfield == [] && outbox == [] && stream == [] && consumed == repeats == []
      modifies this, recv, recv.buff
      ensures Valid() && stream == [] && View().Dispatched() == [] && fresh(recv.buff)
      ensures outbox == [Handshake(infoHash, id)] && recv.buff.Length == INITIAL_CAPACITY
      ensures |outbox[0]| == 68 && forall i :: 20 <= i < 28 ==> outbox[0][i] == 0
    {
      hide Handshake, Ready;
      var chunk := recv.Reserve(1024 * 16);
      outbox := outbox + [Handshake(infoHash, id)];
      chunk := recv.Reserve(1024 * 16);
      AwaitProtocolId();
      Opened(expected, View());
      NothingReserved(infoHash, id);
    }

    // `m_state = READ_PROTOCOL_ID; m_recv_buffer.reset(20)`, with nothing received.
    method AwaitProtocolId()
      requires expected.Valid() && recv.Valid() && recv.start == recv.end == recv.pos == recv.messageSize == 0
      modifies this`state, recv, recv.buff
      ensures Coherent() && recv.start == 0 && recv.buff == old(recv.buff)
      ensures View() == old(View()).(phase := ProtocolId, held := [], pos := 0)
    {
      state := ReadProtocolId;
      recv.Reset(20);
      assert recv.Pending() == [];
    }

    // `do_message` has found a finished message with this id.
    ghost predicate Delivering(id: byte)
      reads this, recv, recv.buff
    {
      && Coherent() && Advanced(expected, View()) && state == ReadMessage
      && 0 < recv.messageSize <= recv.pos && recv.Pending()[0] == id
    }

    // One call of a handler, or of `on_receive`.
    twostate predicate Stepped()
      reads this, recv, recv.buff
    {
      Coherent() && recv.buff == old(recv.buff) && old(recv.Valid()) && Step(expected, old(View()), View())
    }

    /** `m_state = next; m_recv_buffer.reset(size)`: the finished field leaves the buffer. */
    method Await(next: State, size: int, ghost handed: seq<seq<byte>> := [])
      requires Coherent() && recv.pos == recv.messageSize
      requires var phase := PhaseOf(next, size); ValidPhase(phase) && size == Need(phase)
      modifies this`state, this`consumed, recv, recv.buff
      ensures Coherent() && recv.buff == old(recv.buff)
      ensures var v := old(View());
              View() == v.(phase := PhaseOf(next, size), held := v.held[v.Size()..], pos := 0,
                           consumed := v.consumed + handed)
    {
      state := next;
      recv.Reset(size);
      consumed := consumed + handed;
    }

    // The message handed over, and only it, has been cut.
    twostate predicate Took()
      reads this, recv
    {
      && old(recv.Valid() && 0 <= recv.messageSize <= recv.end - recv.start)
      && consumed == old(consumed + [recv.Pending()[..recv.messageSize]])
    }

    method SendInterested()
      modifies this`outbox
      ensures outbox == old(outbox) + [Frame(Body(Interested))]
    {
      var msg := CreateInterestedMessage();
      outbox := outbox + [msg[..]];
    }

    method HandleBitfield()
      requires Delivering(BITFIELD)
      modifies this, recv, recv.buff
      ensures Stepped()
      ensures choked == old(choked) && unchokes == old(unchokes) && (fault <==> old(recv.pos) < 6)
      ensures if fault || !choked then consumed == old(consumed) && outbox == old(outbox)
              else Took() && outbox == old(outbox) + [Frame(Body(Interested))]
      ensures !fault ==> bitfield == old(recv.Pending())[5..old(recv.pos)]
    {
      hide Advanced, Step, JudgeMessage, Judge, Frame, Ready;
      ghost var v := View();
      MessageVerdict(expected, v);
      var chunk := recv.Get();
      assert chunk == v.held[..v.pos];
      if |chunk| - 5 <= 0 {
        fault := true;
        repeats := repeats + [chunk];
        MessageKept(expected, v, View());
        return;
      }
      bitfield := chunk[5..];
      if choked {
        SendInterested();
        Await(ReadMessageSize, 4, [chunk]);
        MessageConsumed(expected, v, View());
      } else {
        repeats := repeats + [chunk];
        MessageKept(expected, v, View());
      }
    }

    /** The front of the work queue goes to this peer (module Sessions); an empty queue has none. */
    method HandleUnchoke()
      requires Delivering(UNCHOKE)
      modifies this, recv, recv.buff
      ensures Stepped()
      ensures fault <==> !expected.queued(old(unchokes))
      ensures if fault then choked == old(choked) && consumed == old(consumed)
              else !choked && unchokes == old(unchokes) + 1 && Took()
      ensures outbox == old(outbox) && bitfield == old(bitfield)
    {
      hide Advanced, Step, JudgeMessage, Judge, Frame, Ready;
      ghost var v := View();
      MessageVerdict(expected, v);
      if !expected.queued(unchokes) {
        fault := true;
        repeats := repeats + [v.held[..v.pos]];
        MessageKept(expected, v, View());
        return;
      }
      choked := false;
      unchokes := unchokes + 1;
      Await(ReadMessageSize, 4, [v.Field()]);
      MessageConsumed(expected, v, View());
    }

    method HandleChoke()
      requires Delivering(CHOKE)
      modifies this, recv, recv.buff
      ensures Stepped()
      ensures choked && unchokes == old(unchokes) && !fault && Took()
      ensures outbox == old(outbox) && bitfield == old(bitfield)
    {
      hide Advanced, Step, JudgeMessage, Judge, Frame, Ready;
      ghost var v := View();
      MessageVerdict(expected, v);
      choked := true;
      Await(ReadMessageSize, 4, [v.Field()]);
      MessageConsumed(expected, v, View());
    }

    /**
     * The block itself goes to its piece (module Sessions). Fewer than 9 bytes give it a negative size, an index
     * outside the pieces fails an assert or names no piece, and a block outside its piece is copied all the same.
     */
    method HandlePiece()
      requires Delivering(PIECE)
      modifies this, recv, recv.buff
      ensures Stepped()
      ensures choked == old(choked) && unchokes == old(unchokes)
      ensures fault <==> !expected.Takes(old(recv.Pending()[..recv.pos]))
      ensures if fault then consumed == old(consumed) else Took()
      ensures outbox == old(outbox) && bitfield == old(bitfield)
    {
      hide Advanced, Step, JudgeMessage, Judge, Frame, Ready, Splitter.Field;
      ghost var v := View();
      MessageVerdict(expected, v);
      var chunk := recv.Get();
      assert chunk == v.held[..v.pos];
      var blockSize := |chunk| - 9;
      var taken := false;
      if blockSize >= 0 {
        var index, offset := Splitter.Field(chunk, 0), Splitter.Field(chunk, 1);
        taken := 0 <= index < expected.pieces && 0 <= offset && offset + blockSize <= expected.pieceLength;
      }
      if !taken {
        fault := true;
        repeats := repeats + [chunk];
        MessageKept(expected, v, View());
        return;
      }
      Await(ReadMessageSize, 4, [v.Field()]);
      MessageConsumed(expected, v, View());
    }

    method HandleUnsupported(ghost id: byte)
      requires Delivering(id) && id != BITFIELD && id != UNCHOKE && id != CHOKE && id != PIECE
      modifies this, recv, recv.buff
      ensures Stepped()
      ensures choked == old(choked) && unchokes == old(unchokes) && !fault && Took()
      ensures outbox == old(outbox) && bitfield == old(bitfield)
    {
      hide Advanced, Step, JudgeMessage, Judge, Frame, Ready;
      ghost var v := View();
      MessageVerdict(expected, v);
      Await(ReadMessageSize, 4, [v.Field()]);
      MessageConsumed(expected, v, View());
    }

    method DoMessage()
      requires Coherent() && Advanced(expected, View()) && state == ReadMessage && recv.pos >= recv.messageSize
      modifies this, recv, recv.buff
      ensures Stepped()
    {
      hide Advanced, Step;
      var id := recv.Get()[0];
      if id == BITFIELD { HandleBitfield(); }
      else if id == UNCHOKE { HandleUnchoke(); }
      else if id == CHOKE { HandleChoke(); }
      else if id == PIECE { HandlePiece(); }
      else { HandleUnsupported(id); }
    }

    method OnProtocolId()
      requires Coherent() && Advanced(expected, View()) && state == ReadProtocolId && recv.pos >= recv.messageSize
      modifies this, recv, recv.buff
      ensures Stepped()
      ensures state == ReadProtocolId || (state == ReadInfoHash && recv.pos == 0)
    {
      hide Advanced, Step, Judge, PROTOCOL_HEADER, PROTOCOL_ID;
      ghost var v := View();
      FieldVerdict(expected, v);
      var chunk := recv.Get();
      assert chunk == v.held[..v.pos];
      if |chunk| != 20 {
        fault := true;
        FieldRefused(expected, v, View());
        return;
      }
      HeaderInTwo(chunk);
      var protocolSize := chunk[0];
      if protocolSize != 19 || chunk[1..] != PROTOCOL_ID {
        disconnect := true;
        FieldRefused(expected, v, View());
        return;
      }
      Await(ReadInfoHash, 28);
      FieldConsumed(expected, v, View());
    }

    method OnInfoHash()
      requires Coherent() && Advanced(expected, View()) && state == ReadInfoHash && recv.pos >= recv.messageSize
      modifies this, recv, recv.buff
      ensures Stepped()
      ensures state == ReadInfoHash || (state == ReadPeerId && recv.pos == 0)
    {
      hide Advanced, Step, Judge;
      ghost var v := View();
      FieldVerdict(expected, v);
      var chunk := recv.Get();
      assert chunk == v.held[..v.pos];
      if |chunk| != 28 {
        fault := true;
        FieldRefused(expected, v, View());
        return;
      }
      // The eight bytes of extension flags are skipped.
      if chunk[8..] != expected.infoHash {
        disconnect := true;
        FieldRefused(expected, v, View());
        return;
      }
      Await(ReadPeerId, 20);
      FieldConsumed(expected, v, View());
    }

    method OnPeerId()
      requires Coherent() && Advanced(expected, View()) && state == ReadPeerId && recv.pos >= recv.messageSize
      modifies this, recv, recv.buff
      ensures Stepped()
      ensures state == ReadPeerId || (state == ReadMessageSize && recv.pos == 0)
    {
      hide Advanced, Step, Judge;
      ghost var v := View();
      FieldVerdict(expected, v);
      var chunk := recv.Get();
      assert chunk == v.held[..v.pos];
      if |chunk| != 20 {
        fault := true;
        FieldRefused(expected, v, View());
        return;
      }
      if chunk != expected.remoteId[..20] {
        disconnect := true;
        FieldRefused(expected, v, View());
        return;
      }
      active := true;
      Await(ReadMessageSize, 4);
      FieldConsumed(expected, v, View());
    }

    method OnMessageSize()
      requires Coherent() && Advanced(expected, View()) && state == ReadMessageSize && recv.pos >= recv.messageSize
      modifies this, recv, recv.buff
      ensures Stepped()
      ensures state == ReadMessageSize || (state == ReadMessage && recv.pos == 0)
    {
      hide Advanced, Step, Judge, Serial.Deserialize;
      ghost var v := View();
      FieldVerdict(expected, v);
      var chunk := recv.Get();
      assert chunk == v.held[..v.pos];
      var messageLen: int := Serial.Deserialize(chunk);
      LengthIsInPrefix(chunk, v.Field());
      if messageLen <= 0 {
        // A keep-alive returns early and a negative length matches no branch: neither resets the buffer.
        FieldRefused(expected, v, View());
        return;
      }
      Await(ReadMessage, messageLen);
      FieldConsumed(expected, v, View());
    }

    /** Each state falls through to the next, which then has no byte of its own field yet. */
    method OnReceive()
      requires Coherent() && Advanced(expected, View())
      modifies this, recv, recv.buff
      ensures Stepped()
    {
      hide Advanced, Step;
      if recv.pos < recv.messageSize { FieldUnfinished(expected, View()); }
      if state == ReadProtocolId {
        if !recv.IsMessageFinished() { return; }
        OnProtocolId();
        if disconnect || fault { return; }
      }
      if state == ReadInfoHash {
        if !recv.IsMessageFinished() { return; }
        OnInfoHash();
        if disconnect || fault { return; }
      }
      if state == ReadPeerId {
        if !recv.IsMessageFinished() { return; }
        OnPeerId();
        if disconnect || fault { return; }
      }
      if state == ReadMessageSize {
        if !recv.IsMessageFinished() { return; }
        OnMessageSize();
        if state == ReadMessageSize { return; }
      }
      if state == ReadMessage {
        if !recv.IsMessageFinished() { return; }
        DoMessage();
      }
    }

    /** The operating system writes the read's bytes where `setup_receive` said. */
    method Read(data: seq<byte>)
      requires Valid() && |data| <= recv.MaxReceive()
      modifies this`stream, recv`end, recv.buff
      ensures Coherent() && recv.start == 0 && recv.buff == old(recv.buff)
      ensures var v := old(View()); View() == v.(held := v.held + data, stream := v.stream + data)
    {
      hide Ready;
      ghost var held := recv.Pending();
      forall i | 0 <= i < |data| { recv.buff[recv.end + i] := data[i]; }
      recv.Received(|data|);
      stream := stream + data;
      assert recv.Pending() == held + data;
    }

    /** Moves the held bytes to the front; a full buffer grows twice, since both tests see the room there was before. */
    method MakeRoom()
      requires Coherent()
      modifies recv, recv.buff
      ensures Coherent() && recv.start == 0 && (fresh(recv.buff) || recv.buff == old(recv.buff))
      ensures View() == old(View()).(capacity := recv.buff.Length)
      ensures old(recv.end - recv.start < recv.buff.Length) ==> recv.buff == old(recv.buff)
      ensures old(recv.end - recv.start == recv.buff.Length) ==>
                recv.buff.Length == RB.Grown(RB.Grown(old(recv.buff.Length), recv.messageSize), recv.messageSize)
    {
      recv.Clean();
      var maxReceive := recv.MaxReceive();
      if maxReceive == 0 {
        recv.Grow();
      }
      if maxReceive == 0 {
        recv.Grow();
      }
    }

    /** Hands the free part of the buffer to the next read. */
    method HandOut() returns (chunk: int, size: int)
      requires Coherent() && recv.start == 0 && recv.end < recv.buff.Length
      modifies recv`buff
      ensures recv.buff == old(recv.buff)
      ensures Coherent() && View() == old(View()) && chunk == recv.end && size == recv.MaxReceive() > 0
    {
      size := recv.MaxReceive();
      chunk := recv.Reserve(size);
    }

    method SetupReceive() returns (chunk: int, size: int)
      requires Coherent() && Reading(expected, View()) && !fault && !disconnect && View().Unread() == 0
      modifies recv, recv.buff
      ensures Valid() && (fresh(recv.buff) || recv.buff == old(recv.buff))
      ensures View() == old(View()).(capacity := recv.buff.Length)
      ensures chunk == recv.end && size == recv.MaxReceive() > 0
      ensures old(View().pos < View().capacity) ==> recv.buff == old(recv.buff)
    {
      hide Reading, Ready, RB.Grown;
      ghost var v := View();
      MakeRoom();
      ReadingFacts(expected, v);
      SetupKeepsReady(expected, v, recv.buff.Length);
      ReadyFacts(expected, View());
      chunk, size := HandOut();
      assert recv.PosAtEnd();
    }

    // One turn of the read loop: as many of the unread bytes as the field waited for still lacks.
    method Pass(totalBytes: int) returns (passedBytes: int)
      requires Coherent() && Reading(expected, View()) && !fault && totalBytes == View().Unread() >= 0
      modifies this, recv, recv.buff
      ensures Coherent() && Reading(expected, View()) && recv.buff == old(recv.buff) && stream == old(stream)
      ensures 0 <= passedBytes <= totalBytes && View().Unread() == totalBytes - passedBytes
      ensures totalBytes > 0 ==> passedBytes > 0
    {
      hide Advanced, Reading;
      ghost var v := View();
      ReadingFacts(expected, v);
      passedBytes := recv.AdvancePos(totalBytes);
      PositionAdvances(expected, v, View(), passedBytes);
      OnReceive();
    }

    /** One read callback: the do/while loop, then either the connection is dropped or the buffer is set up again. */
    method OnReceiveInternal(data: seq<byte>)
      requires Valid() && |data| <= recv.MaxReceive()
      modifies this, recv, recv.buff
      ensures stream == old(stream) + data && recv.Valid()
      ensures Settled(expected, View())
      ensures !fault && !disconnect ==> Valid()
      ensures fresh(recv.buff) || recv.buff == old(recv.buff)
    {
      hide Advanced, Reading, Ready, Settled;
      ReadyFacts(expected, View());
      ReadArrives(expected, View(), data);
      Read(data);
      var totalBytes := |data|;
      var more := true;
      while more
        invariant Coherent() && Reading(expected, View()) && !fault
        invariant recv.buff == old(recv.buff) && stream == old(stream) + data
        invariant totalBytes == View().Unread() >= 0
        invariant more || totalBytes == 0
        decreases totalBytes, more
      {
        var passedBytes := Pass(totalBytes);
        if fault {
          ReadSettles(expected, View());
          return;
        }
        totalBytes := totalBytes - passedBytes;
        more := totalBytes > 0 && passedBytes > 0;
      }
      if !disconnect {
        var chunk, size := SetupReceive();
        ReadyFacts(expected, View());
      }
      ReadSettles(expected, View());
    }

    lemma ValidIsSettled()
      requires Valid()
      ensures expected.Valid() && recv.Valid() && Settled(expected, View()) && !fault && !disconnect
    {
      ReadyFacts(expected, View());
      ReadSettles(expected, View());
    }

    /**
     * A whole connection: the remote end has sent `input` and the reads ask for `sizes`, in any split.
     * What comes out is what the splitter makes of the bytes taken; the split does not matter.
     */
    method ReceiveAll(input: seq<byte>, sizes: seq<nat>) returns (taken: nat)
      requires Valid() && stream == []
      modifies this, recv, recv.buff
      ensures taken <= |input| && stream == input[..taken] && recv.Valid() && expected.Valid()
      ensures Settled(expected, View())
      ensures var o := Receive(expected, input[..taken]);
              && consumed == o.messages
              && (View().Dispatched() == o.messages <==>
                    o.halted != Some(UnchokedBitfield) && o.halted != Some(Fatal))
      ensures bitfield == BitsOf(consumed + repeats)
      ensures active <==> ShakesHands(expected, input[..taken])
      ensures |sizes| > 0 && sizes[0] > 0 && |input| > 0 ==> taken > 0
    {
      hide Settled, Ready, Receive, ShakesHands, Coherent;
      taken := 0;
      assert input[..0] == [];
      ValidIsSettled();
      var i := 0;
      while i < |sizes| && !fault && !disconnect
        invariant i <= |sizes| && taken <= |input| && stream == input[..taken]
        invariant recv.Valid() && Settled(expected, View()) && (!fault && !disconnect ==> Valid())
        invariant fresh(recv.buff) || recv.buff == old(recv.buff)
        invariant i == 0 ==> !fault && !disconnect
        invariant i > 0 && sizes[0] > 0 && |input| > 0 ==> taken > 0
      {
        var n := RoomFor(sizes[i], |input| - taken);
        var data := input[taken..taken + n];
        assert input[..taken] + data == input[..taken + n];
        OnReceiveInternal(data);
        taken := taken + n;
        i := i + 1;
      }
      SettledFacts(expected, View());
    }

    // What one read returns: no more than asked for, than fits, or than has been sent.
    method RoomFor(asked: nat, sent: nat) returns (n: nat)
      requires Valid()
      ensures n <= asked && n <= sent && n <= recv.MaxReceive()
      ensures asked > 0 && sent > 0 ==> n > 0
    {
      ReadyFacts(expected, View());
      n := Min(asked, Min(recv.MaxReceive(), sent));
    }
  }

  // The length byte and the text behind it, compared one after the other.
  lemma HeaderInTwo(chunk: seq<byte>)
    requires |chunk| == 20
    ensures chunk == PROTOCOL_HEADER <==> chunk[0] == 19 && chunk[1..] == PROTOCOL_ID
  {
    assert chunk == [chunk[0]] + chunk[1..];
  }

  lemma LengthIsInPrefix(chunk: seq<byte>, prefix: seq<byte>)
    requires |prefix| == 4 && prefix <= chunk
    ensures Serial.Deserialize(chunk) == Serial.Deserialize(prefix)
  {
  }
}
