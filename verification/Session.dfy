/**
 * The scheduling half of the peers and of the session (src/session.cpp, src/piece_manager.cpp, and the handlers of
 * src/peer_connection.cpp that touch pieces), over shared piece objects and one shared queue.
 */
module Sessions {
  import opened Bytes
  import opened Pieces
  import S = Swarm
  import Splitter = FrameSplitter
  import opened Wiring

  ghost function Objects(pieces: seq<Piece>): set<object> {
    (set p <- pieces :: p as object) + (set p <- pieces :: p.data)
  }

  ghost function StatesOf(pieces: seq<Piece>): seq<PieceState>
    reads Objects(pieces)
  {
    if pieces == [] then []
    else
      assert pieces[0] in pieces;
      assert forall p <- pieces[1..] :: p in pieces;
      [pieces[0].State()] + StatesOf(pieces[1..])
  }

  lemma {:induction false} StatesOfAll(pieces: seq<Piece>)
    ensures |StatesOf(pieces)| == |pieces|
    ensures forall i :: 0 <= i < |pieces| ==> StatesOf(pieces)[i] == pieces[i].State()
  {
    if pieces != [] { StatesOfAll(pieces[1..]); }
  }

  twostate lemma {:induction false} OldStates(pieces: seq<Piece>)
    ensures old(|StatesOf(pieces)|) == |pieces|
    ensures forall i :: 0 <= i < |pieces| ==> old(StatesOf(pieces)[i]) == old(pieces[i].State())
  {
    if pieces != [] { OldStates(pieces[1..]); }
  }

  class Session {
    const sha: Sha
    const bits: Bits
    const pieces: seq<Piece>
    var workQueue: seq<int>
    var peers: seq<S.Peer>
    var pending: Option<S.Params>
    var sent: seq<Request>
    var announced: seq<int>
    var saved: seq<int>
    // The process has ended, or left its memory.
    var fault: bool

    ghost function Footprint(): set<object> {
      {this} + Objects(pieces)
    }

    // No two pieces share their counters or their bytes.
    ghost predicate Separate() {
      forall i, j :: 0 <= i < j < |pieces| ==> pieces[i] != pieces[j] && pieces[i].data != pieces[j].data
    }

    ghost function PieceStates(): seq<PieceState>
      reads Objects(pieces)
    {
      StatesOf(pieces)
    }

    ghost function State(): S.State
      reads Footprint()
    {
      S.State(PieceStates(), workQueue, peers, pending, sent, announced, saved)
    }

    ghost predicate Valid()
      reads Footprint()
    {
      Separate() && S.WellFormed(State()) && !fault
    }

    /** `piece_manager`: one piece for each hash, all of the same length, and every index queued in order. */
    constructor (sha: Sha, bits: Bits, hashes: seq<seq<byte>>, length: nat, peers: nat)
      ensures Valid() && State() == S.Start(hashes, length, peers) && this.sha == sha && this.bits == bits
    {
      this.sha, this.bits := sha, bits;
      var built: seq<Piece> := [];
      var queue: seq<int> := [];
      while |built| < |hashes|
        invariant |built| <= |hashes| && queue == seq(|built|, i => i)
        invariant forall p <- built :: fresh(p) && fresh(p.data)
        invariant forall i :: 0 <= i < |built| ==> built[i].State() == NewPiece(i, hashes[i], length)
        invariant forall i, j :: 0 <= i < j < |built| ==> built[i] != built[j] && built[i].data != built[j].data
      {
        var p := new Piece(|built|, hashes[|built|], length);
        queue := queue + [p.index];
        built := built + [p];
      }
      pieces, workQueue := built, queue;
      this.peers := seq(peers, _ => S.Peer(-1, true, true, None));
      pending, sent, announced, saved, fault := None, [], [], [], false;
      new;
      StatesOfAll(built);
      S.StartIsGood(hashes, length, peers);
      assert State() == S.Start(hashes, length, peers);
    }

    // Changing none changes none.
    twostate lemma Untouched()
      requires forall p <- pieces :: unchanged(p) && unchanged(p.data)
      ensures PieceStates() == old(PieceStates())
    {
      StatesOfAll(pieces);
      OldStates(pieces);
      forall j | 0 <= j < |pieces| ensures pieces[j].State() == old(pieces[j].State()) {
        assert pieces[j] in pieces;
      }
    }

    // Changing one piece changes one piece.
    twostate lemma OnlyPiece(i: int)
      requires 0 <= i < |pieces|
      requires forall j :: 0 <= j < |pieces| && j != i ==> unchanged(pieces[j]) && unchanged(pieces[j].data)
      ensures |old(PieceStates())| == |pieces| && old(PieceStates())[i] == old(pieces[i].State())
      ensures PieceStates() == old(PieceStates())[i := pieces[i].State()]
    {
      StatesOfAll(pieces);
      OldStatesOfAll();
      forall j | 0 <= j < |pieces| && j != i ensures pieces[j].State() == old(pieces[j].State()) {}
    }

    twostate lemma OldStatesOfAll()
      ensures |old(PieceStates())| == |pieces|
      ensures forall i :: 0 <= i < |pieces| ==> old(PieceStates())[i] == old(pieces[i].State())
    {
      OldStates(pieces);
    }

    // The loop of `fetch_piece` on the piece at `curr`.
    method SendRequests(curr: int)
      requires Separate() && 0 <= curr < |pieces|
      modifies Objects(pieces), this`sent
      ensures |old(PieceStates())| == |pieces|
      ensures var s := old(State());
              var (p, requests) := s.pieces[curr].Pipeline();
              State() == s.(pieces := s.pieces[curr := p], sent := s.sent + requests)
    {
      hide PieceState.Pipeline, StatesOf;
      var p := pieces[curr];
      assert p in pieces;
      var requests := p.RequestBlocks();
      OnlyPiece(curr);
      sent := sent + requests;
    }

    lemma PieceNamed(curr: int)
      requires S.WellFormed(State()) && S.IsPiece(State(), curr)
      ensures |PieceStates()| == |pieces| && 0 <= curr < |pieces| && pieces[curr].index == curr
      ensures 0 <= pieces[curr].receivedBytes
      ensures PieceStates()[curr] == pieces[curr].State()
    {
      StatesOfAll(pieces);
      assert State().pieces[curr].index == curr;
    }

    // The piece at `curr` has all its blocks: it is announced, or queued again if its hash is wrong.
    method FinishPiece(k: nat, curr: int) returns (r: int)
      requires k < |peers| && 0 <= curr < |pieces| && 0 <= pieces[curr].receivedBytes && !fault
      modifies this`announced, this`workQueue, this`peers, this`fault
      ensures |old(PieceStates())| == |pieces| && old(PieceStates())[curr] == old(pieces[curr].State())
      ensures fault <==> old(pieces[curr].receivedBytes) > pieces[curr].data.Length
      ensures var s := old(State());
              var t := s.(peers := s.peers[k := s.peers[k].(currPiece := -1)]);
              !fault ==>
                if s.pieces[curr].VerifyIntegrity(sha)
                then r == curr && State() == t.(announced := s.announced + [curr])
                else r == -1 && State() == t.(queue := s.queue + [curr])
    {
      StatesOfAll(pieces);
      hide StatesOf, PieceState.VerifyIntegrity;
      if pieces[curr].receivedBytes > pieces[curr].data.Length {
        fault := true;
        return -1;
      }
      var verified := pieces[curr].VerifyIntegrity(sha);
      if verified {
        announced := announced + [curr];
        r := curr;
      } else {
        workQueue := workQueue + [curr];
        r := -1;
      }
      peers := peers[k := peers[k].(currPiece := -1)];
      Untouched();
    }

    /** `fetch_piece`. The hash of a piece that has received more bytes than it has room for reads past its end. */
    method FetchPiece(k: nat, index: int) returns (r: int)
      requires Separate() && S.WellFormed(State()) && !fault && k < |peers| && S.IsPiece(State(), index)
      modifies Footprint()
      ensures S.IsPiece(old(State()), S.Current(old(State()), k, index))
      ensures fault <==> S.Overreads(old(State()), k, S.Current(old(State()), k, index))
      ensures !fault ==> (State(), r) == S.Fetch(old(State()), sha, k, index)
    {
      S.FetchTurn(State(), sha, k, index);
      var curr := if peers[k].currPiece == -1 then index else peers[k].currPiece;
      PieceNamed(curr);
      hide S.Fetch, S.WellFormed, PieceState.Pipeline, PieceState.VerifyIntegrity, PieceStates, StatesOf, Separate;
      var p := pieces[curr];
      if peers[k].currPiece != -1 { workQueue := workQueue + [index]; }
      peers := peers[k := peers[k].(currPiece := curr)];
      assert State() == old(State()).(queue := S.Offered(old(State()), k, index), peers := peers);
      hide S.Offered;
      if peers[k].bitfield.Some? && !peers[k].HasPiece(p.index) { return -1; }
      if p.backlog == MAX_BACKLOG { return -1; }
      if p.receivedCount == BLOCKS {
        r := FinishPiece(k, curr);
        return;
      }
      SendRequests(curr);
      r := -1;
    }

    // What one step leaves: the state the step function gives, with the invariant intact.
    twostate predicate Took(step: S.Step)
      reads Footprint()
    {
      && old(Valid()) && S.Enabled(old(State()), sha, step)
      && State() == S.Next(old(State()), sha, step) && Valid()
    }

    // The step is taken, or ends the process if it must.
    twostate predicate Tried(step: S.Step)
      reads Footprint()
    {
      && old(Valid()) && S.Happens(old(State()), step)
      && (fault <==> !S.Survives(old(State()), sha, step))
      && (!fault ==> Took(step))
    }

    // The announced piece goes to disk, and its peer is offered the head of the queue.
    method OfferNext(k: nat, announcedPiece: int)
      requires Separate() && S.WellFormed(State()) && !fault && k < |peers| && peers[k].currPiece == -1
      modifies Footprint()
      ensures old(workQueue) != [] ==> S.IsPiece(old(State()), old(workQueue)[0])
      ensures fault <==> old(workQueue) == [] || S.Overreads(old(State()), k, old(workQueue)[0])
      ensures !fault ==> State() == S.OfferNext(old(State()), sha, k, announcedPiece)
    {
      hide S.Fetch, S.Overreads, PieceStates, StatesOf, Separate;
      saved := saved + [announcedPiece];
      if workQueue == [] {
        fault := true;
        return;
      }
      var nextPiece := workQueue[0];
      assert nextPiece in workQueue && forall i <- workQueue[1..] :: i in workQueue;
      workQueue := workQueue[1..];
      S.SameConclusion(old(State()), State(), sha, k, nextPiece);
      var ignored := FetchPiece(k, nextPiece);
    }

    /** The callback of an asynchronous send. */
    method TryDownload()
      requires Valid() && S.Happens(State(), S.TryDownload)
      modifies Footprint()
      ensures Tried(S.TryDownload)
    {
      S.TryInTwo(State(), sha);
      if S.Enabled(State(), sha, S.TryDownload) { S.StepWellFormed(State(), sha, S.TryDownload); }
      hide S.WellFormed, S.Fetch, S.OfferNext, S.Survives, S.Next, S.Overreads, PieceStates, StatesOf, Separate;
      var params := pending.value;
      pending := None;
      if !peers[params.peer].HasPiece(params.index) {
        workQueue := workQueue + [params.index];
        return;
      }
      if peers[params.peer].choked {
        workQueue := workQueue + [params.index];
        return;
      }
      var index := FetchPiece(params.peer, params.index);
      if !fault && index != -1 {
        OfferNext(params.peer, index);
      }
    }

    method HandleUnchoke(k: nat)
      requires Valid() && S.Happens(State(), S.Unchoke(k))
      modifies this
      ensures Tried(S.Unchoke(k))
    {
      if workQueue == [] {
        fault := true;
        return;
      }
      S.StepWellFormed(State(), sha, S.Unchoke(k));
      hide S.WellFormed, StatesOf, PieceStates, Separate;
      pending := Some(S.Params(workQueue[0], k));
      workQueue := workQueue[1..];
      peers := peers[k := peers[k].(choked := false)];
      Untouched();
    }

    method HandleChoke(k: nat)
      requires Valid() && S.Happens(State(), S.Choke(k))
      modifies this
      ensures Tried(S.Choke(k)) && !fault
    {
      S.StepWellFormed(State(), sha, S.Choke(k));
      hide S.WellFormed, StatesOf, PieceStates, Separate;
      peers := peers[k := peers[k].(choked := true)];
      Untouched();
    }

    method HandleBitfield(k: nat, has: set<int>)
      requires Valid() && S.Happens(State(), S.Bitfield(k, has))
      modifies this
      ensures Tried(S.Bitfield(k, has)) && !fault
    {
      S.StepWellFormed(State(), sha, S.Bitfield(k, has));
      hide S.WellFormed, StatesOf, PieceStates, Separate;
      peers := peers[k := peers[k].(bitfield := Some(has))];
      Untouched();
    }

    /** `handle_piece`. The source tests the index alone, and lets one too many pass. */
    method HandlePiece(k: nat, index: int, offset: int, block: seq<byte>)
      requires Valid() && S.Happens(State(), S.Block(k, index, offset, block))
      modifies Footprint()
      ensures Tried(S.Block(k, index, offset, block))
    {
      StatesOfAll(pieces);
      if !(0 <= index < |pieces| && 0 <= offset && offset + |block| <= pieces[index].data.Length) {
        fault := true;
        return;
      }
      TakeBlock(k, index, offset, block);
    }

    method TakeBlock(k: nat, index: int, offset: int, block: seq<byte>)
      requires Valid() && S.Enabled(State(), sha, S.Block(k, index, offset, block))
      modifies Footprint()
      ensures Took(S.Block(k, index, offset, block))
    {
      S.StepWellFormed(State(), sha, S.Block(k, index, offset, block));
      PieceNamed(index);
      hide S.WellFormed, PieceState.Incoming, PieceState.Fits, PieceStates, StatesOf, Separate;
      ghost var s := State();
      ReceiveBlock(index, offset, block);
      pending := Some(S.Params(index, k));
      assert State() == S.AfterBlock(s, k, index, offset, block);
    }

    /** A message that connection `k` has dispatched, given to its handler. */
    method Deliver(k: nat, body: seq<byte>)
      requires Valid() && k < |peers| && peers[k].open && |body| > 0
      modifies Footprint()
      ensures old(Valid() && k < |peers| && peers[k].open)
      ensures fault <==> !Lives(old(State()), sha, bits, k, body)
      ensures !fault ==> State() == AfterMessage(old(State()), sha, bits, k, body) && Valid()
      ensures !fault && body[0] == Splitter.PIECE ==>
                && |body| >= 9
                && Landed(old(State()), State(), k, Splitter.Field(body, 0), Splitter.Field(body, 1), body[9..])
    {
      if body[0] == Splitter.PIECE { PieceLands(State(), sha, bits, k, body); }
      hide S.Survives, S.Next, S.WellFormed, Splitter.Field, Landed, PieceStates, StatesOf, Separate;
      if body[0] == Splitter.BITFIELD {
        if |body| < 6 {
          fault := true;
          return;
        }
        HandleBitfield(k, bits(body[5..]));
      } else if body[0] == Splitter.UNCHOKE {
        HandleUnchoke(k);
      } else if body[0] == Splitter.CHOKE {
        HandleChoke(k);
      } else if body[0] == Splitter.PIECE {
        if |body| < 9 {
          fault := true;
          return;
        }
        HandlePiece(k, Splitter.Field(body, 0), Splitter.Field(body, 1), body[9..]);
      }
    }

    method ReceiveBlock(index: int, offset: int, block: seq<byte>)
      requires Separate() && 0 <= index < |pieces| && pieces[index].State().Fits(offset, block)
      modifies Objects(pieces)
      ensures |old(PieceStates())| == |pieces| && old(PieceStates())[index] == old(pieces[index].State())
      ensures var s := old(State());
              var q := s.pieces[index].Incoming(offset, block);
              State() == s.(pieces := s.pieces[index := q.(backlog := q.backlog - 1)])
    {
      hide PieceState.Incoming, PieceState.Fits, StatesOf;
      var p := pieces[index];
      assert p in pieces;
      ghost var before := p.State();
      p.IncomingBlock(offset, block);
      p.backlog := p.backlog - 1;
      assert p.State() == before.Incoming(offset, block).(backlog := before.Incoming(offset, block).backlog - 1);
      OnlyPiece(index);
    }

    method OnRemoteClose(k: nat)
      requires Valid() && S.Happens(State(), S.Close(k))
      modifies Footprint()
      ensures Tried(S.Close(k))
      ensures !fault ==>
                workQueue == old(workQueue) + if old(peers[k].currPiece) == -1 then [] else [old(peers[k].currPiece)]
    {
      assert peers[k] in peers;
      var curr := peers[k].currPiece;
      if curr != -1 {
        PieceNamed(curr);
        if pieces[curr].receivedBytes > pieces[curr].data.Length {
          // More bytes are cleared than there are.
          fault := true;
          return;
        }
      }
      S.StepWellFormed(State(), sha, S.Close(k));
      hide S.WellFormed, PieceState.Reset, PieceStates, StatesOf, Separate;
      // `open` is the model's; the source only stops reading from the peer.
      peers := peers[k := peers[k].(open := false)];
      if curr != -1 {
        QueueAgain(curr);
      }
    }

    // What has come of the piece is thrown away.
    method QueueAgain(curr: int)
      requires Separate() && 0 <= curr < |pieces|
      requires 0 <= pieces[curr].receivedBytes <= pieces[curr].data.Length
      modifies Objects(pieces), this`workQueue
      ensures |old(PieceStates())| == |pieces| && old(PieceStates())[curr] == old(pieces[curr].State())
      ensures var s := old(State());
              State() == s.(pieces := s.pieces[curr := s.pieces[curr].Reset()], queue := s.queue + [curr])
    {
      hide PieceState.Reset, PieceStates, StatesOf, Separate;
      ResetPiece(curr);
      workQueue := workQueue + [curr];
    }

    method ResetPiece(curr: int)
      requires Separate() && 0 <= curr < |pieces|
      requires 0 <= pieces[curr].receivedBytes <= pieces[curr].data.Length
      modifies Objects(pieces)
      ensures |old(PieceStates())| == |pieces| && old(PieceStates())[curr] == old(pieces[curr].State())
      ensures var s := old(State()); State() == s.(pieces := s.pieces[curr := s.pieces[curr].Reset()])
    {
      hide PieceState.Reset, StatesOf;
      var p := pieces[curr];
      assert p in pieces;
      p.Reset();
      OnlyPiece(curr);
    }
  }
}
