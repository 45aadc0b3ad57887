/**
 * The peers, the pieces and the work queue they share (src/peer_connection.cpp, src/session.cpp,
 * src/piece_manager.cpp), as a state and the steps the event loop can take.
 */
module Swarm {
  import opened Bytes
  import opened Pieces

  // `open`: the remote end has not closed. `bitfield`: nothing until a BITFIELD has come, then the pieces the peer has.
  datatype Peer = Peer(currPiece: int, choked: bool, open: bool, bitfield: Option<set<int>>) {
    predicate HasPiece(index: int) { bitfield.Some? && index in bitfield.value }

    // A fetch by this peer would request the piece of somebody who can answer.
    predicate CanFetch(index: int) { open && (bitfield.Some? ==> HasPiece(index)) }

    predicate Holds(index: int) { currPiece == index && CanFetch(index) }
  }

  // The parameters of an asynchronous `try_download` that has been sent and not served.
  datatype Params = Params(index: int, peer: nat)

  datatype State = State(
    pieces: seq<PieceState>,
    queue: seq<int>,
    peers: seq<Peer>,
    pending: Option<Params>,
    sent: seq<Request>,      // the requests written, to whichever peer
    announced: seq<int>,     // the `have` messages sent
    saved: seq<int>          // the pieces handed to `save_piece`
  )

  // Every index names a piece. A piece may have received more bytes than it has room for.
  ghost predicate WellFormed(s: State) {
    && (forall i :: 0 <= i < |s.pieces| ==> s.pieces[i].index == i && 0 <= s.pieces[i].receivedBytes)
    && (forall i <- s.queue :: IsPiece(s, i))
    && (forall p <- s.peers :: p.currPiece == -1 || IsPiece(s, p.currPiece))
    && (s.pending.Some? ==> IsPiece(s, s.pending.value.index) && s.pending.value.peer < |s.peers|)
  }

  predicate IsPiece(s: State, i: int) { 0 <= i < |s.pieces| }

  function Start(hashes: seq<seq<byte>>, length: nat, peers: nat): State {
    State(seq(|hashes|, i requires 0 <= i < |hashes| => NewPiece(i, hashes[i], length)),
          seq(|hashes|, i => i), seq(peers, _ => Peer(-1, true, true, None)), None, [], [], [])
  }

  // The piece a fetch is about.
  function Current(s: State, k: nat, index: int): int
    requires k < |s.peers|
  {
    if s.peers[k].currPiece == -1 then index else s.peers[k].currPiece
  }

  /**
   * `fetch_piece`: a busy peer puts the piece offered to it back and goes on with its own. The result is the
   * piece it has just announced, or -1.
   */
  function Fetch(s: State, sha: Sha, k: nat, index: int): (State, int)
    requires WellFormed(s) && k < |s.peers| && IsPiece(s, index)
  {
    var peer := s.peers[k];
    var curr := Current(s, k, index);
    var queue := if peer.currPiece == -1 then s.queue else s.queue + [index];
    assert peer in s.peers;
    var p := s.pieces[curr];
    var s1 := s.(queue := queue, peers := s.peers[k := peer.(currPiece := curr)]);
    if peer.bitfield.Some? && !peer.HasPiece(curr) then (s1, -1)
    else if p.backlog == MAX_BACKLOG then (s1, -1)
    else if p.DownloadFinished() then
      var s2 := s1.(peers := s.peers[k := peer.(currPiece := -1)]);
      if p.VerifyIntegrity(sha) then (s2.(announced := s.announced + [curr]), curr)
      else (s2.(queue := queue + [curr]), -1)
    else
      var (p', requests) := p.Pipeline();
      (s1.(pieces := s.pieces[curr := p'], sent := s.sent + requests), -1)
  }

  datatype Step =
    | Bitfield(peer: nat, has: set<int>)
    | Unchoke(peer: nat)
    | Choke(peer: nat)
    | Block(peer: nat, index: int, offset: int, block: seq<byte>)
    | TryDownload
    | Close(peer: nat)

  // The event can occur: the remote end has not closed, or a send is under way.
  predicate Happens(s: State, step: Step) {
    match step
    case TryDownload => s.pending.Some?
    case _ => step.peer < |s.peers| && s.peers[step.peer].open
  }

  // `try_download` gets past its tests.
  predicate Fetches(s: State)
    requires WellFormed(s) && s.pending.Some?
  {
    var Params(index, k) := s.pending.value;
    s.peers[k].HasPiece(index) && !s.peers[k].choked
  }

  // Peer `k`, on piece `i`, finds it finished.
  predicate Concludes(s: State, k: nat, i: int)
    requires k < |s.peers| && IsPiece(s, i)
  {
    && (s.peers[k].bitfield.Some? ==> s.peers[k].HasPiece(i))
    && s.pieces[i].backlog != MAX_BACKLOG && s.pieces[i].DownloadFinished()
  }

  predicate Announces(s: State, sha: Sha, k: nat, i: int)
    requires k < |s.peers| && IsPiece(s, i)
  {
    Concludes(s, k, i) && s.pieces[i].VerifyIntegrity(sha)
  }

  // The check would hash bytes behind the end of the piece.
  predicate Overreads(s: State, k: nat, i: int)
    requires k < |s.peers| && IsPiece(s, i)
  {
    Concludes(s, k, i) && s.pieces[i].receivedBytes > s.pieces[i].Length()
  }

  // The queue once piece `index` has been offered to peer `k`.
  function Offered(s: State, k: nat, index: int): seq<int>
    requires k < |s.peers|
  {
    if s.peers[k].currPiece == -1 then s.queue else s.queue + [index]
  }

  // All of this is a matter of the pieces and the peer's bitfield.
  lemma SameConclusion(s: State, u: State, sha: Sha, k: nat, i: int)
    requires k < |s.peers| == |u.peers| && IsPiece(s, i) && s.pieces == u.pieces
    requires s.peers[k].bitfield == u.peers[k].bitfield
    ensures Concludes(s, k, i) <==> Concludes(u, k, i)
    ensures Announces(s, sha, k, i) <==> Announces(u, sha, k, i)
    ensures Overreads(s, k, i) <==> Overreads(u, k, i)
  {
  }

  lemma OfferedPieces(s: State)
    requires WellFormed(s) && s.pending.Some?
    ensures var Params(index, k) := s.pending.value;
            IsPiece(s, index) && k < |s.peers| && IsPiece(s, Current(s, k, index))
            && forall i <- Offered(s, k, index) :: IsPiece(s, i)
  {
    assert s.peers[s.pending.value.peer] in s.peers;
  }

  /**
   * The code's own assumptions hold: a pop finds the queue non-empty, a block lies within its piece, and no more
   * bytes are hashed or cleared than the piece has. None of them is tested; elsewhere the process leaves its memory.
   */
  predicate Survives(s: State, sha: Sha, step: Step)
    requires WellFormed(s) && Happens(s, step)
  {
    match step
    case Unchoke(_) => s.queue != []
    case Block(_, index, offset, block) => IsPiece(s, index) && s.pieces[index].Fits(offset, block)
    case TryDownload =>
      OfferedPieces(s);
      var Params(index, k) := s.pending.value;
      var curr, queue := Current(s, k, index), Offered(s, k, index);
      Fetches(s) ==>
        && !Overreads(s, k, curr)
        && (Announces(s, sha, k, curr) ==> queue != [] && !Overreads(s, k, queue[0]))
    case Close(k) =>
      assert s.peers[k] in s.peers;
      var curr := s.peers[k].currPiece;
      curr == -1 || s.pieces[curr].receivedBytes <= s.pieces[curr].Length()
    case _ => true
  }

  predicate Enabled(s: State, sha: Sha, step: Step)
    requires WellFormed(s)
  {
    Happens(s, step) && Survives(s, sha, step)
  }

  function AfterUnchoke(s: State, k: nat): State
    requires k < |s.peers| && s.queue != []
  {
    s.(pending := Some(Params(s.queue[0], k)), queue := s.queue[1..],
       peers := s.peers[k := s.peers[k].(choked := false)])
  }

  // `handle_piece`
  function AfterBlock(s: State, k: nat, index: int, offset: int, block: seq<byte>): State
    requires IsPiece(s, index) && s.pieces[index].Fits(offset, block)
  {
    var p := s.pieces[index].Incoming(offset, block);
    s.(pieces := s.pieces[index := p.(backlog := p.backlog - 1)], pending := Some(Params(index, k)))
  }

  lemma {:induction false} PipelineKeeps(p: PieceState)
    ensures var q := p.Pipeline().0;
            q == p.(backlog := q.backlog, totalRequested := q.totalRequested)
    decreases MAX_BACKLOG - p.backlog
  {
    if p.backlog < MAX_BACKLOG && p.totalRequested < p.Length() {
      var r := p.NextRequest();
      PipelineKeeps(p.(backlog := p.backlog + 1, totalRequested := p.totalRequested + r.size));
    }
  }

  // All a fetch can change.
  lemma FetchShape(s: State, sha: Sha, k: nat, index: int)
    requires WellFormed(s) && k < |s.peers| && IsPiece(s, index)
    ensures var (t, r) := Fetch(s, sha, k, index);
            var curr := Current(s, k, index);
            && IsPiece(s, curr) && t.pending == s.pending && t.saved == s.saved && (r == -1 || r == curr)
            && (|| t.peers == s.peers[k := s.peers[k].(currPiece := curr)]
                || t.peers == s.peers[k := s.peers[k].(currPiece := -1)])
            && (t.pieces == s.pieces || t.pieces == s.pieces[curr := s.pieces[curr].Pipeline().0])
            && (forall i <- t.queue :: i in s.queue || i == index || i == curr)
  {
    hide PieceState.Pipeline;
    assert s.peers[k] in s.peers;
  }

  lemma FetchWellFormed(s: State, sha: Sha, k: nat, index: int)
    requires WellFormed(s) && k < |s.peers| && IsPiece(s, index)
    ensures var (t, r) := Fetch(s, sha, k, index);
            && WellFormed(t) && |t.pieces| == |s.pieces| && |t.peers| == |s.peers| && t.pending == s.pending
            && t.saved == s.saved && (r == -1 || IsPiece(s, r))
  {
    FetchShape(s, sha, k, index);
    hide Fetch;
    var curr := Current(s, k, index);
    PipelineKeeps(s.pieces[curr]);
    hide PieceState.Pipeline;
    PeersStayWellFormed(s, k, s.peers[k].(currPiece := curr));
    PeersStayWellFormed(s, k, s.peers[k].(currPiece := -1));
  }

  lemma PeersStayWellFormed(s: State, k: nat, peer: Peer)
    requires WellFormed(s) && k < |s.peers| && (peer.currPiece == -1 || IsPiece(s, peer.currPiece))
    ensures forall q <- s.peers[k := peer] :: q.currPiece == -1 || IsPiece(s, q.currPiece)
  {
    forall q <- s.peers[k := peer] ensures q in s.peers || q == peer {}
  }

  // The announced piece goes to disk and the peer is offered the next one in the queue.
  function OfferNext(s: State, sha: Sha, k: nat, announced: int): State
    requires WellFormed(s) && k < |s.peers| && s.queue != []
  {
    var popped := s.(saved := s.saved + [announced], queue := s.queue[1..]);
    assert s.queue[0] in s.queue;
    assert forall i <- popped.queue :: i in s.queue;
    Fetch(popped, sha, k, s.queue[0]).0
  }

  lemma FetchOffers(s: State, sha: Sha, k: nat, index: int)
    requires WellFormed(s) && k < |s.peers| && IsPiece(s, index)
    ensures var (t, r) := Fetch(s, sha, k, index);
            var curr := Current(s, k, index);
            && IsPiece(s, curr) && (r != -1 <==> Announces(s, sha, k, curr))
            && (r != -1 ==> r == curr && t == s.(queue := Offered(s, k, index), announced := s.announced + [curr],
                                                peers := s.peers[k := s.peers[k].(currPiece := -1)]))
  {
    hide PieceState.Pipeline;
    assert s.peers[k] in s.peers;
  }

  function AfterTry(s: State, sha: Sha): State
    requires WellFormed(s) && Enabled(s, sha, TryDownload)
  {
    var Params(index, k) := s.pending.value;
    var idle := s.(pending := None);
    if !Fetches(s) then idle.(queue := s.queue + [index])
    else
      FetchWellFormed(idle, sha, k, index);
      FetchOffers(idle, sha, k, index);
      var (fetched, r) := Fetch(idle, sha, k, index);
      if r == -1 then fetched else OfferNext(fetched, sha, k, r)
  }

  // `on_remote_close`: what the peer was fetching is thrown away and queued again; the peer keeps pointing at it.
  function AfterClose(s: State, sha: Sha, k: nat): State
    requires WellFormed(s) && Enabled(s, sha, Close(k))
  {
    var peer := s.peers[k];
    assert peer in s.peers;
    var closed := s.peers[k := peer.(open := false)];
    if peer.currPiece == -1 then s.(peers := closed)
    else s.(pieces := s.pieces[peer.currPiece := s.pieces[peer.currPiece].Reset()],
            queue := s.queue + [peer.currPiece], peers := closed)
  }

  function Next(s: State, sha: Sha, step: Step): State
    requires WellFormed(s) && Enabled(s, sha, step)
  {
    match step
    case Bitfield(k, has) => s.(peers := s.peers[k := s.peers[k].(bitfield := Some(has))])
    case Unchoke(k) => AfterUnchoke(s, k)
    case Choke(k) => s.(peers := s.peers[k := s.peers[k].(choked := true)])
    case Block(k, index, offset, block) => AfterBlock(s, k, index, offset, block)
    case TryDownload => AfterTry(s, sha)
    case Close(k) => AfterClose(s, sha, k)
  }

  // A peer that is still there and has piece `i` is on it.
  ghost predicate Held(peers: seq<Peer>, i: int) {
    exists k :: 0 <= k < |peers| && peers[k].Holds(i)
  }

  // Piece `i` is in view: somebody will be offered it, or can fetch it, or it has been announced.
  ghost predicate Seen(s: State, i: int) {
    || i in s.queue
    || (s.pending.Some? && s.pending.value.index == i)
    || Held(s.peers, i)
    || i in s.announced
  }

  ghost predicate NoneLost(s: State) {
    forall i :: IsPiece(s, i) ==> Seen(s, i)
  }

  lemma StartIsGood(hashes: seq<seq<byte>>, length: nat, peers: nat)
    ensures WellFormed(Start(hashes, length, peers)) && NoneLost(Start(hashes, length, peers))
  {
    var s := Start(hashes, length, peers);
    forall i | IsPiece(s, i) ensures Seen(s, i) { assert s.queue[i] == i; }
  }

  lemma OfferNextWellFormed(s: State, sha: Sha, k: nat, announced: int)
    requires WellFormed(s) && k < |s.peers| && s.queue != []
    ensures var t := OfferNext(s, sha, k, announced);
            WellFormed(t) && |t.pieces| == |s.pieces| && |t.peers| == |s.peers|
  {
    hide Fetch;
    var popped := s.(saved := s.saved + [announced], queue := s.queue[1..]);
    assert s.queue[0] in s.queue;
    assert forall i <- popped.queue :: i in s.queue;
    FetchWellFormed(popped, sha, k, s.queue[0]);
  }

  lemma TryWellFormed(s: State, sha: Sha)
    requires WellFormed(s) && Enabled(s, sha, TryDownload)
    ensures var t := AfterTry(s, sha); WellFormed(t) && |t.pieces| == |s.pieces| && |t.peers| == |s.peers|
  {
    hide Fetch, OfferNext, Announces, Overreads;
    var Params(index, k) := s.pending.value;
    var idle := s.(pending := None);
    if Fetches(s) {
      FetchWellFormed(idle, sha, k, index);
      FetchOffers(idle, sha, k, index);
      SameConclusion(s, idle, sha, k, Current(s, k, index));
      var (fetched, r) := Fetch(idle, sha, k, index);
      if r != -1 { OfferNextWellFormed(fetched, sha, k, r); }
    }
  }

  /** Every step keeps every index naming a piece, whatever order the events come in. */
  lemma StepWellFormed(s: State, sha: Sha, step: Step)
    requires WellFormed(s) && Enabled(s, sha, step)
    ensures var t := Next(s, sha, step); WellFormed(t) && |t.pieces| == |s.pieces| && |t.peers| == |s.peers|
  {
    hide AfterTry, Fetch;
    if step.TryDownload? {
      TryWellFormed(s, sha);
    } else {
      var t := Next(s, sha, step);
      if step.Unchoke? {
        assert s.queue[0] in s.queue && forall i <- t.queue :: i in s.queue;
      }
      PeersStayWellFormed(s, step.peer, t.peers[step.peer]);
    }
  }

  /**
   * What a fetch keeps in view, exactly: what was, the piece offered if its peer is busy or can fetch it, and the
   * piece concluded.
   */
  lemma FetchKeepsInView(s: State, sha: Sha, k: nat, index: int, i: int)
    requires WellFormed(s) && k < |s.peers| && IsPiece(s, index) && IsPiece(s, i)
    ensures var curr := Current(s, k, index);
            IsPiece(s, curr) &&
            (Seen(Fetch(s, sha, k, index).0, i) <==>
               || Seen(s, i)
               || (i == index && (s.peers[k].CanFetch(index) || s.peers[k].currPiece != -1))
               || (i == curr && Concludes(s, k, curr)))
  {
    hide PieceState.Pipeline, PieceState.VerifyIntegrity, WellFormed;
    assert IsPiece(s, Current(s, k, index)) by { FetchOffers(s, sha, k, index); }
    var t := Fetch(s, sha, k, index).0;
    var peer, curr, queue := s.peers[k], Current(s, k, index), Offered(s, k, index);
    assert i in queue <==> i in s.queue || (peer.currPiece != -1 && i == index);
    if Concludes(s, k, curr) {
      assert t.queue == queue || t.queue == queue + [curr];
      assert t.announced == s.announced || t.announced == s.announced + [curr];
      assert t.peers == s.peers[k := peer.(currPiece := -1)];
      HeldElsewhere(s.peers, k, peer.(currPiece := -1), i);
    } else {
      assert t.peers == s.peers[k := peer.(currPiece := curr)];
      HeldElsewhere(s.peers, k, peer.(currPiece := curr), i);
    }
  }

  /**
   * What a fetch asks for, exactly: blocks of the piece its peer is on, from where the requests for it left off, if and
   * only if the peer has that piece (or has not said), it is not finished, and there is room and something to ask for.
   */
  lemma FetchAsks(s: State, sha: Sha, k: nat, index: int)
    requires WellFormed(s) && k < |s.peers| && IsPiece(s, index)
    ensures var peer, curr, t := s.peers[k], Current(s, k, index), Fetch(s, sha, k, index).0;
            && IsPiece(s, curr) && s.sent <= t.sent
            && (forall r <- t.sent[|s.sent|..] :: r.index == curr)
            && (|t.sent| > |s.sent| <==>
                  && (peer.bitfield.Some? ==> curr in peer.bitfield.value)
                  && s.pieces[curr].receivedCount != BLOCKS && s.pieces[curr].backlog < MAX_BACKLOG
                  && s.pieces[curr].totalRequested < s.pieces[curr].Length())
            && (|t.sent| > |s.sent| ==>
                  var r := t.sent[|s.sent|];
                  && r.offset == s.pieces[curr].totalRequested
                  && r.size == Min(BLOCK_LENGTH, s.pieces[curr].Length() - s.pieces[curr].totalRequested))
  {
    hide PieceState.Pipeline, PieceState.VerifyIntegrity;
    assert s.peers[k] in s.peers;
    var curr, t := Current(s, k, index), Fetch(s, sha, k, index).0;
    var requests := s.pieces[curr].Pipeline().1;
    PipelineTurn(s.pieces[curr]);
    PipelineNames(s.pieces[curr]);
    assert t.sent == s.sent || t.sent == s.sent + requests;
    assert t.sent[|s.sent|..] == if t.sent == s.sent then [] else requests;
  }

  /** A send for a peer that chokes this side, or lacks the piece, asks for nothing: the piece goes behind the queue. */
  lemma ServedInVain(s: State, sha: Sha)
    requires WellFormed(s) && s.pending.Some?
    requires var peer := s.peers[s.pending.value.peer];
             peer.choked || peer.bitfield.None? || s.pending.value.index !in peer.bitfield.value
    ensures Enabled(s, sha, TryDownload)
    ensures Next(s, sha, TryDownload) == s.(pending := None, queue := s.queue + [s.pending.value.index])
  {
    TryCases(s, sha);
  }

  // What one peer's change does to who is on piece `i`.
  lemma HeldElsewhere(peers: seq<Peer>, k: nat, peer: Peer, i: int)
    requires k < |peers|
    ensures Held(peers[k := peer], i) && !peer.Holds(i) ==> Held(peers, i)
    ensures peer.Holds(i) ==> Held(peers[k := peer], i)
    ensures Held(peers, i) && !peers[k].Holds(i) ==> Held(peers[k := peer], i)
  {
    hide Peer.Holds;
    var after := peers[k := peer];
    if peer.Holds(i) { assert after[k].Holds(i); }
    if m :| 0 <= m < |peers| && m != k && peers[m].Holds(i) { assert after[m].Holds(i); }
    if m :| 0 <= m < |after| && m != k && after[m].Holds(i) { assert peers[m].Holds(i); }
  }

  // The slot for parameters can be filled: it is empty, or somebody else has its piece in view.
  ghost predicate SlotSpared(s: State) {
    s.pending.Some? ==> Seen(s.(pending := None), s.pending.value.index)
  }

  // Peer `k` can be forgotten: it is idle, or somebody else has its piece in view.
  ghost predicate PeerSpared(s: State, k: nat)
    requires k < |s.peers|
  {
    var peer := s.peers[k];
    peer.currPiece != -1 ==> Seen(s.(peers := s.peers[k := peer.(currPiece := -1)]), peer.currPiece)
  }

  /**
   * The step takes no piece out of view. There are three ways: the slot is filled again before it has been served; a
   * piece goes to an idle peer that has closed, or, behind an announcement, to one that does not have it; and the
   * peer on a piece says in a new BITFIELD that it does not have it.
   */
  ghost predicate Harmless(s: State, sha: Sha, step: Step)
    requires WellFormed(s) && Enabled(s, sha, step)
  {
    match step
    case Bitfield(k, has) => PeerSpared(s, k) || s.peers[k].currPiece in has
    case Unchoke(_) => SlotSpared(s)
    case Block(_, index, _, _) => SlotSpared(s) || s.pending.value.index == index
    case TryDownload =>
      OfferedPieces(s);
      var Params(index, k) := s.pending.value;
      var peer, curr, queue := s.peers[k], Current(s, k, index), Offered(s, k, index);
      || !Fetches(s)
      || if Announces(s, sha, k, curr) then
           var next := queue[0];
           || peer.CanFetch(next) || Concludes(s, k, next)
           || next in queue[1..] || Held(s.peers, next) || next in s.announced
         else
           || peer.open || peer.currPiece != -1 || Concludes(s, k, index)
           || Seen(s.(pending := None), index)
    case _ => true
  }

  /** A second send before the first is served loses the piece that carried, unless somebody else still sees it. */
  lemma FullSlotLosesItsPiece(s: State, sha: Sha, step: Step)
    requires WellFormed(s) && NoneLost(s) && Enabled(s, sha, step) && (step.Unchoke? || step.Block?)
    ensures NoneLost(Next(s, sha, step))
            <==> SlotSpared(s) || (step.Block? && s.pending.value.index == step.index)
  {
    hide PieceState.Fits;
    var t := Next(s, sha, step);
    forall i | IsPiece(t, i)
      ensures Seen(t, i) <==> Seen(s.(pending := None), i) || (step.Block? && i == step.index)
    {
      if step.Unchoke? {
        assert s.queue == [s.queue[0]] + t.queue;
        HeldElsewhere(s.peers, step.peer, s.peers[step.peer].(choked := false), i);
      }
    }
    forall i | IsPiece(t, i) && !(s.pending.Some? && s.pending.value.index == i) ensures Seen(t, i) {
      assert Seen(s, i);
    }
    if s.pending.Some? {
      assert IsPiece(t, s.pending.value.index);
    }
  }

  // A fetch, when only the offered piece may be out of view.
  lemma FetchExact(s: State, sha: Sha, k: nat, index: int)
    requires WellFormed(s) && k < |s.peers| && IsPiece(s, index)
    requires forall i :: IsPiece(s, i) && i != index ==> Seen(s, i)
    ensures var t := Fetch(s, sha, k, index).0;
            |t.pieces| == |s.pieces| &&
            (NoneLost(t) <==>
               || Seen(s, index) || s.peers[k].CanFetch(index) || s.peers[k].currPiece != -1 || Concludes(s, k, index))
  {
    hide Seen, Concludes, Fetch, WellFormed;
    FetchWellFormed(s, sha, k, index);
    var t := Fetch(s, sha, k, index).0;
    forall i | IsPiece(s, i) && i != index ensures Seen(t, i) {
      FetchKeepsInView(s, sha, k, index, i);
    }
    FetchKeepsInView(s, sha, k, index, index);
    assert IsPiece(t, index);
  }

  // The second fetch, of the piece at the head of the queue.
  lemma OfferNextExact(s: State, sha: Sha, k: nat, announced: int)
    requires WellFormed(s) && NoneLost(s) && k < |s.peers| && s.queue != [] && s.peers[k].currPiece == -1
    requires IsPiece(s, s.queue[0])
    ensures var next := s.queue[0];
            NoneLost(OfferNext(s, sha, k, announced))
            <==> Seen(s.(queue := s.queue[1..]), next) || s.peers[k].CanFetch(next) || Concludes(s, k, next)
  {
    hide Fetch, Concludes;
    var popped := s.(saved := s.saved + [announced], queue := s.queue[1..]);
    var next := s.queue[0];
    assert next in s.queue;
    assert forall i <- popped.queue :: i in s.queue;
    assert s.queue == [next] + popped.queue;
    forall i | IsPiece(popped, i) && i != next ensures Seen(popped, i) { assert Seen(s, i); }
    assert Seen(popped, next) <==> Seen(s.(queue := s.queue[1..]), next);
    assert Concludes(popped, k, next) <==> Concludes(s, k, next) by { SameConclusion(s, popped, sha, k, next); }
    FetchExact(popped, sha, k, next);
  }

  /**
   * Serving a send loses a piece exactly when it goes to an idle peer that cannot fetch it and does not conclude it:
   * the piece sent for, to a peer that has closed, or the next queued one, to a peer that has closed or lacks it.
   */
  lemma ServingLosesAPiece(s: State, sha: Sha)
    requires WellFormed(s) && NoneLost(s) && Enabled(s, sha, TryDownload)
    ensures NoneLost(Next(s, sha, TryDownload)) <==> Harmless(s, sha, TryDownload)
  {
    hide Fetch, OfferNext, Concludes, Overreads;
    OfferedPieces(s);
    var Params(index, k) := s.pending.value;
    var idle := s.(pending := None);
    forall i | IsPiece(idle, i) && i != index ensures Seen(idle, i) { assert Seen(s, i); }
    if !Fetches(s) {
      var t := idle.(queue := s.queue + [index]);
      forall i | IsPiece(s, i) ensures Seen(t, i) { assert Seen(s, i); }
    } else {
      FetchWellFormed(idle, sha, k, index);
      FetchOffers(idle, sha, k, index);
      FetchExact(idle, sha, k, index);
      SameConclusion(s, idle, sha, k, index);
      SameConclusion(s, idle, sha, k, Current(s, k, index));
      var (fetched, r) := Fetch(idle, sha, k, index);
      if r != -1 {
        assert NoneLost(fetched);
        var next := fetched.queue[0];
        assert next in Offered(s, k, index);
        OfferNextExact(fetched, sha, k, r);
        SameConclusion(s, fetched, sha, k, next);
        AnnouncingHolds(s, sha, k, index, fetched);
      }
    }
  }

  // Whoever else had the next piece in view still has it once the peer's own piece has been announced.
  lemma AnnouncingHolds(s: State, sha: Sha, k: nat, index: int, fetched: State)
    requires WellFormed(s) && k < |s.peers| && IsPiece(s, index) && IsPiece(s, Current(s, k, index))
    requires Announces(s, sha, k, Current(s, k, index)) && Offered(s, k, index) != []
    requires var curr := Current(s, k, index);
             fetched == s.(pending := None, queue := Offered(s, k, index), announced := s.announced + [curr],
                           peers := s.peers[k := s.peers[k].(currPiece := -1)])
    requires IsPiece(s, Offered(s, k, index)[0])
    ensures var queue := Offered(s, k, index);
            Seen(fetched.(queue := queue[1..]), queue[0]) || Concludes(s, k, queue[0])
            <==> || Concludes(s, k, queue[0]) || queue[0] in queue[1..]
                 || Held(s.peers, queue[0]) || queue[0] in s.announced
  {
    HeldElsewhere(s.peers, k, s.peers[k].(currPiece := -1), Offered(s, k, index)[0]);
  }

  /** A new BITFIELD loses the piece its peer is on if it lacks it, unless somebody else still sees it. */
  lemma BitfieldLosesAPiece(s: State, sha: Sha, k: nat, has: set<int>)
    requires WellFormed(s) && NoneLost(s) && Enabled(s, sha, Bitfield(k, has))
    ensures NoneLost(Next(s, sha, Bitfield(k, has))) <==> PeerSpared(s, k) || s.peers[k].currPiece in has
  {
    var t, peer := Next(s, sha, Bitfield(k, has)), s.peers[k];
    var curr := peer.currPiece;
    assert peer in s.peers;
    forall i | IsPiece(t, i) && i != curr ensures Seen(t, i) {
      assert Seen(s, i);
      HeldElsewhere(s.peers, k, t.peers[k], i);
    }
    if curr != -1 {
      var u := s.(peers := s.peers[k := peer.(currPiece := -1)]);
      HeldElsewhere(u.peers, k, t.peers[k], curr);
      assert t.peers == u.peers[k := t.peers[k]];
      assert IsPiece(t, curr);
    }
  }

  lemma HarmlessExactly(s: State, sha: Sha, step: Step)
    requires WellFormed(s) && NoneLost(s) && Enabled(s, sha, step)
    ensures NoneLost(Next(s, sha, step)) <==> Harmless(s, sha, step)
  {
    hide AfterTry, AfterUnchoke, AfterBlock;
    match step
    case Bitfield(k, has) => BitfieldLosesAPiece(s, sha, k, has);
    case TryDownload => ServingLosesAPiece(s, sha);
    case Unchoke(_) => FullSlotLosesItsPiece(s, sha, step);
    case Block(_, _, _, _) => FullSlotLosesItsPiece(s, sha, step);
    case _ =>
      var t := Next(s, sha, step);
      forall i | IsPiece(t, i) ensures Seen(t, i) {
        assert Seen(s, i);
        HeldElsewhere(s.peers, step.peer, t.peers[step.peer], i);
      }
  }

  // The step brings a piece nobody sees back into view.
  predicate BringsBack(s: State, sha: Sha, step: Step, i: int)
    requires WellFormed(s) && Enabled(s, sha, step) && IsPiece(s, i)
  {
    match step
    case Bitfield(k, has) => s.peers[k].currPiece == i && i in has
    case Block(_, index, _, _) => index == i
    case TryDownload =>
      OfferedPieces(s);
      var k := s.pending.value.peer;
      Fetches(s) && s.peers[k].currPiece == i && Concludes(s, k, i)
    case Close(k) => s.peers[k].currPiece == i
    case _ => false
  }

  /** A piece out of view comes back through whoever is on it (its BITFIELD, its close, its conclusion) or a block. */
  lemma LostComesBack(s: State, sha: Sha, step: Step, i: int)
    requires WellFormed(s) && Enabled(s, sha, step) && IsPiece(s, i) && !Seen(s, i)
    ensures Seen(Next(s, sha, step), i) <==> BringsBack(s, sha, step, i)
  {
    hide AfterTry, Concludes;
    if step.TryDownload? {
      ServedOutOfView(s, sha, i);
    } else {
      var t := Next(s, sha, step);
      HeldElsewhere(s.peers, step.peer, t.peers[step.peer], i);
    }
  }

  lemma ServedOutOfView(s: State, sha: Sha, i: int)
    requires WellFormed(s) && Enabled(s, sha, TryDownload) && IsPiece(s, i) && !Seen(s, i)
    ensures Seen(Next(s, sha, TryDownload), i) <==> BringsBack(s, sha, TryDownload, i)
  {
    hide Fetch, Concludes, Overreads, Announces;
    OfferedPieces(s);
    TryCases(s, sha);
    var Params(index, k) := s.pending.value;
    var idle := s.(pending := None);
    if Fetches(s) {
      FetchKeepsInView(idle, sha, k, index, i);
      SameConclusion(s, idle, sha, k, Current(s, k, index));
      var (fetched, r) := Fetch(idle, sha, k, index);
      if r != -1 {
        var popped := fetched.(saved := fetched.saved + [r], queue := fetched.queue[1..]);
        FetchKeepsInView(popped, sha, k, fetched.queue[0], i);
        AnnouncedConcludes(s, sha, k, r);
        assert fetched.queue == [fetched.queue[0]] + popped.queue;
      }
    }
  }

  lemma AnnouncedConcludes(s: State, sha: Sha, k: nat, i: int)
    requires k < |s.peers| && IsPiece(s, i) && Announces(s, sha, k, i)
    ensures Concludes(s, k, i)
  {
  }

  /** A close throws its peer's piece to the very end of the queue; the peer keeps pointing at it. */
  lemma CloseQueuesBehind(s: State, sha: Sha, k: nat)
    requires WellFormed(s) && Enabled(s, sha, Close(k))
    ensures var t, curr := Next(s, sha, Close(k)), s.peers[k].currPiece;
            && |t.queue| == |s.queue| + (if curr == -1 then 0 else 1)
            && (forall i :: 0 <= i < |s.queue| ==> t.queue[i] == s.queue[i])
            && (curr != -1 ==> t.queue[|s.queue|] == curr)
            && |t.peers| == |s.peers| && t.peers[k].currPiece == curr && !t.peers[k].open
            && forall j :: 0 <= j < |s.peers| && j != k ==> t.peers[j] == s.peers[j]
  {
    assert s.peers[k] in s.peers;
  }

  // What a step puts into the queue, in order: a piece its peer cannot take, or fails the check of, or leaves behind.
  function Entering(s: State, sha: Sha, step: Step): seq<int>
    requires WellFormed(s) && Enabled(s, sha, step)
  {
    match step
    case TryDownload =>
      OfferedPieces(s);
      var Params(index, k) := s.pending.value;
      var curr, queue := Current(s, k, index), Offered(s, k, index);
      if !Fetches(s) then [index]
      else
        (if s.peers[k].currPiece == -1 then [] else [index])
        + (if Concludes(s, k, curr) && !s.pieces[curr].VerifyIntegrity(sha) then [curr] else [])
        + (if Announces(s, sha, k, curr) && Concludes(s, k, queue[0]) && !s.pieces[queue[0]].VerifyIntegrity(sha)
           then [queue[0]] else [])
    case Close(k) => if s.peers[k].currPiece == -1 then [] else [s.peers[k].currPiece]
    case _ => []
  }

  // What it takes out: the piece of an unchoke, or the one behind an announcement.
  function Leaving(s: State, sha: Sha, step: Step): seq<int>
    requires WellFormed(s) && Enabled(s, sha, step)
  {
    match step
    case Unchoke(_) => [s.queue[0]]
    case TryDownload =>
      OfferedPieces(s);
      var Params(index, k) := s.pending.value;
      if Fetches(s) && Announces(s, sha, k, Current(s, k, index)) then [Offered(s, k, index)[0]] else []
    case _ => []
  }

  lemma FetchQueues(s: State, sha: Sha, k: nat, index: int)
    requires WellFormed(s) && k < |s.peers| && IsPiece(s, index)
    ensures var curr := Current(s, k, index);
            && IsPiece(s, curr)
            && Fetch(s, sha, k, index).0.queue
               == s.queue + (if s.peers[k].currPiece == -1 then [] else [index])
                  + (if Concludes(s, k, curr) && !s.pieces[curr].VerifyIntegrity(sha) then [curr] else [])
  {
    hide PieceState.Pipeline, PieceState.VerifyIntegrity;
    assert s.peers[k] in s.peers;
    assert s.queue + [] == s.queue && s.queue + [index] + [] == s.queue + [index];
  }

  lemma ServingQueues(s: State, sha: Sha)
    requires WellFormed(s) && Enabled(s, sha, TryDownload)
    ensures s.queue + Entering(s, sha, TryDownload) == Leaving(s, sha, TryDownload) + Next(s, sha, TryDownload).queue
  {
    hide Fetch, Overreads, Concludes, PieceState.VerifyIntegrity, WellFormed, Next;
    OfferedPieces(s);
    TryCases(s, sha);
    var Params(index, k) := s.pending.value;
    var idle := s.(pending := None);
    if Fetches(s) {
      var curr := Current(s, k, index);
      FetchQueues(idle, sha, k, index);
      SameConclusion(s, idle, sha, k, curr);
      var (fetched, r) := Fetch(idle, sha, k, index);
      var a := if s.peers[k].currPiece == -1 then [] else [index];
      var b := if Concludes(s, k, curr) && !s.pieces[curr].VerifyIntegrity(sha) then [curr] else [];
      assert fetched.queue == s.queue + a + b;
      if r == -1 {
        assert s.queue + (a + b + []) == [] + fetched.queue;
      } else {
        var popped := fetched.(saved := fetched.saved + [r], queue := fetched.queue[1..]);
        var next := fetched.queue[0];
        FetchQueues(popped, sha, k, next);
        SameConclusion(s, popped, sha, k, next);
        var c := if Concludes(s, k, next) && !s.pieces[next].VerifyIntegrity(sha) then [next] else [];
        assert s.queue + (a + b + c) == fetched.queue + c;
        assert fetched.queue + c == [next] + (popped.queue + [] + c);
      }
    }
  }

  /** First in, first out, step by step: what enters goes behind what is queued, and what leaves was in front. */
  lemma QueueStep(s: State, sha: Sha, step: Step)
    requires WellFormed(s) && Enabled(s, sha, step)
    ensures s.queue + Entering(s, sha, step) == Leaving(s, sha, step) + Next(s, sha, step).queue
    ensures step.Unchoke? ==>
              Next(s, sha, step).pending == Some(Params(Leaving(s, sha, step)[0], step.peer))
  {
    hide AfterTry;
    if step.TryDownload? {
      ServingQueues(s, sha);
    } else {
      assert s.queue + [] == [] + s.queue;
      if step.Unchoke? { assert s.queue + [] == [s.queue[0]] + s.queue[1..]; }
    }
  }

  // A run, each step enabled where it is taken.
  ghost predicate Allowed(s: State, sha: Sha, steps: seq<Step>)
    requires WellFormed(s)
    decreases |steps|
  {
    steps == [] ||
    (Enabled(s, sha, steps[0]) && (StepWellFormed(s, sha, steps[0]); Allowed(Next(s, sha, steps[0]), sha, steps[1..])))
  }

  ghost function RunFrom(s: State, sha: Sha, steps: seq<Step>): State
    requires WellFormed(s) && Allowed(s, sha, steps)
    decreases |steps|
  {
    if steps == [] then s else StepWellFormed(s, sha, steps[0]); RunFrom(Next(s, sha, steps[0]), sha, steps[1..])
  }

  ghost predicate AllHarmless(s: State, sha: Sha, steps: seq<Step>)
    requires WellFormed(s) && Allowed(s, sha, steps)
    decreases |steps|
  {
    steps == [] ||
    (Harmless(s, sha, steps[0]) &&
     (StepWellFormed(s, sha, steps[0]); AllHarmless(Next(s, sha, steps[0]), sha, steps[1..])))
  }

  // Whatever part of the run has been taken, every piece is in view.
  ghost predicate NeverLost(s: State, sha: Sha, steps: seq<Step>)
    requires WellFormed(s) && Allowed(s, sha, steps)
    decreases |steps|
  {
    && NoneLost(s)
    && (steps != [] ==> (StepWellFormed(s, sha, steps[0]); NeverLost(Next(s, sha, steps[0]), sha, steps[1..])))
  }

  lemma {:induction false} HarmlessRunsLoseNothing(s: State, sha: Sha, steps: seq<Step>)
    requires WellFormed(s) && NoneLost(s) && Allowed(s, sha, steps)
    ensures NeverLost(s, sha, steps) <==> AllHarmless(s, sha, steps)
    decreases |steps|
  {
    hide Next, Harmless, NoneLost, Enabled;
    if steps != [] {
      StepWellFormed(s, sha, steps[0]);
      HarmlessExactly(s, sha, steps[0]);
      if NoneLost(Next(s, sha, steps[0])) {
        HarmlessRunsLoseNothing(Next(s, sha, steps[0]), sha, steps[1..]);
      }
    }
  }

  ghost predicate NoneBringsBack(s: State, sha: Sha, steps: seq<Step>, i: int)
    requires WellFormed(s) && Allowed(s, sha, steps) && IsPiece(s, i)
    decreases |steps|
  {
    steps == [] ||
    (!BringsBack(s, sha, steps[0], i) &&
     (StepWellFormed(s, sha, steps[0]); NoneBringsBack(Next(s, sha, steps[0]), sha, steps[1..], i)))
  }

  ghost predicate NeverSeen(s: State, sha: Sha, steps: seq<Step>, i: int)
    requires WellFormed(s) && Allowed(s, sha, steps)
    decreases |steps|
  {
    && !Seen(s, i)
    && (steps != [] ==> (StepWellFormed(s, sha, steps[0]); NeverSeen(Next(s, sha, steps[0]), sha, steps[1..], i)))
  }

  /** Over every run, a lost piece stays out of view if and only if no step brings it back. */
  lemma {:induction false} LostStaysLost(s: State, sha: Sha, steps: seq<Step>, i: int)
    requires WellFormed(s) && Allowed(s, sha, steps) && IsPiece(s, i) && !Seen(s, i)
    ensures NeverSeen(s, sha, steps, i) <==> NoneBringsBack(s, sha, steps, i)
    decreases |steps|
  {
    hide Next, Enabled, Seen, BringsBack;
    if steps != [] {
      StepWellFormed(s, sha, steps[0]);
      LostComesBack(s, sha, steps[0], i);
      if !Seen(Next(s, sha, steps[0]), i) {
        LostStaysLost(Next(s, sha, steps[0]), sha, steps[1..], i);
      }
    }
  }

  lemma {:induction false} RunWellFormed(s: State, sha: Sha, steps: seq<Step>)
    requires WellFormed(s) && Allowed(s, sha, steps)
    ensures var t := RunFrom(s, sha, steps);
            && WellFormed(t) && |t.pieces| == |s.pieces| && |t.peers| == |s.peers|
            && (NeverLost(s, sha, steps) ==> NoneLost(t))
    decreases |steps|
  {
    hide Next, Enabled, NoneLost;
    if steps != [] {
      StepWellFormed(s, sha, steps[0]);
      RunWellFormed(Next(s, sha, steps[0]), sha, steps[1..]);
    }
  }

  ghost function AllEntering(s: State, sha: Sha, steps: seq<Step>): seq<int>
    requires WellFormed(s) && Allowed(s, sha, steps)
    decreases |steps|
  {
    if steps == [] then []
    else
      StepWellFormed(s, sha, steps[0]);
      Entering(s, sha, steps[0]) + AllEntering(Next(s, sha, steps[0]), sha, steps[1..])
  }

  ghost function AllLeaving(s: State, sha: Sha, steps: seq<Step>): seq<int>
    requires WellFormed(s) && Allowed(s, sha, steps)
    decreases |steps|
  {
    if steps == [] then []
    else
      StepWellFormed(s, sha, steps[0]);
      Leaving(s, sha, steps[0]) + AllLeaving(Next(s, sha, steps[0]), sha, steps[1..])
  }

  /** Over every run pieces leave the queue in the order they entered it, whatever steps put them there. */
  lemma {:induction false} FirstInFirstOut(s: State, sha: Sha, steps: seq<Step>)
    requires WellFormed(s) && Allowed(s, sha, steps)
    ensures s.queue + AllEntering(s, sha, steps) == AllLeaving(s, sha, steps) + RunFrom(s, sha, steps).queue
    decreases |steps|
  {
    hide Next, Enabled, Entering, Leaving;
    if steps == [] {
      assert s.queue + [] == [] + s.queue;
    } else {
      StepWellFormed(s, sha, steps[0]);
      QueueStep(s, sha, steps[0]);
      var t := Next(s, sha, steps[0]);
      FirstInFirstOut(t, sha, steps[1..]);
      var e, l := Entering(s, sha, steps[0]), Leaving(s, sha, steps[0]);
      var es, ls := AllEntering(t, sha, steps[1..]), AllLeaving(t, sha, steps[1..]);
      assert s.queue + (e + es) == (s.queue + e) + es == (l + t.queue) + es == l + (t.queue + es);
      var q := RunFrom(t, sha, steps[1..]).queue;
      assert l + (ls + q) == (l + ls) + q;
    }
  }

  /** From the start: the pieces of the torrent in order, and then whatever has entered. */
  lemma QueueFromTheStart(hashes: seq<seq<byte>>, length: nat, peers: nat, sha: Sha, steps: seq<Step>)
    ensures WellFormed(Start(hashes, length, peers))
    ensures var s := Start(hashes, length, peers);
            Allowed(s, sha, steps) ==>
              && |s.queue| == |hashes| && (forall i :: 0 <= i < |hashes| ==> s.queue[i] == i)
              && AllLeaving(s, sha, steps) <= s.queue + AllEntering(s, sha, steps)
  {
    StartIsGood(hashes, length, peers);
    hide Allowed, RunFrom, AllEntering, AllLeaving;
    if Allowed(Start(hashes, length, peers), sha, steps) {
      FirstInFirstOut(Start(hashes, length, peers), sha, steps);
    }
  }

  /**
   * Over every run, at every moment, every piece is in the queue, in the parameters under way, with an open peer that
   * has it, or announced: if and only if every step of the run is harmless.
   */
  lemma NoPieceIsEverLost(hashes: seq<seq<byte>>, length: nat, peers: nat, sha: Sha, steps: seq<Step>)
    ensures WellFormed(Start(hashes, length, peers))
    ensures var s := Start(hashes, length, peers);
            Allowed(s, sha, steps) ==>
              && (NeverLost(s, sha, steps) <==> AllHarmless(s, sha, steps))
              && var t := RunFrom(s, sha, steps);
              |t.pieces| == |hashes| && (AllHarmless(s, sha, steps) ==> forall i :: 0 <= i < |hashes| ==> Seen(t, i))
  {
    hide Allowed, RunFrom, AllHarmless, NeverLost;
    var s := Start(hashes, length, peers);
    StartIsGood(hashes, length, peers);
    if Allowed(s, sha, steps) {
      HarmlessRunsLoseNothing(s, sha, steps);
      RunWellFormed(s, sha, steps);
      var t := RunFrom(s, sha, steps);
      assert forall i :: 0 <= i < |hashes| ==> IsPiece(t, i);
    }
  }

  lemma RunStarts(s: State, sha: Sha, step: Step, rest: seq<Step>)
    requires WellFormed(s) && Enabled(s, sha, step)
    requires WellFormed(Next(s, sha, step)) && Allowed(Next(s, sha, step), sha, rest)
    ensures Allowed(s, sha, [step] + rest) && RunFrom(s, sha, [step] + rest) == RunFrom(Next(s, sha, step), sha, rest)
  {
    hide Next, Enabled, WellFormed;
    assert ([step] + rest)[1..] == rest;
  }

  // Runs of a few steps.
  lemma RunOfTwo(s: State, sha: Sha, a: Step, b: Step)
    requires WellFormed(s) && Enabled(s, sha, a) && WellFormed(Next(s, sha, a)) && Enabled(Next(s, sha, a), sha, b)
    ensures Allowed(s, sha, [a, b]) && RunFrom(s, sha, [a, b]) == Next(Next(s, sha, a), sha, b)
  {
    hide Next, Enabled, WellFormed, RunFrom, Allowed;
    StepWellFormed(s, sha, a);
    StepWellFormed(Next(s, sha, a), sha, b);
    assert Allowed(Next(Next(s, sha, a), sha, b), sha, []) && RunFrom(Next(Next(s, sha, a), sha, b), sha, [])
           == Next(Next(s, sha, a), sha, b) by { RunOfNone(Next(Next(s, sha, a), sha, b), sha); }
    RunStarts(Next(s, sha, a), sha, b, []);
    assert [b] + [] == [b];
    RunStarts(s, sha, a, [b]);
    assert [a] + [b] == [a, b];
  }

  lemma RunOfNone(s: State, sha: Sha)
    requires WellFormed(s)
    ensures Allowed(s, sha, []) && RunFrom(s, sha, []) == s
  {
  }

  /** It happens at once: two peers unchoke this side before the first `try_download` has been served. */
  lemma TwoUnchokesLoseAPiece(hashes: seq<seq<byte>>, length: nat, peers: nat, sha: Sha)
    requires |hashes| >= 2 && peers >= 2
    ensures WellFormed(Start(hashes, length, peers))
    ensures var s, steps := Start(hashes, length, peers), [Unchoke(0), Unchoke(1)];
            Allowed(s, sha, steps) && !Seen(RunFrom(s, sha, steps), 0)
  {
    hide WellFormed, Allowed, RunFrom;
    var s := Start(hashes, length, peers);
    StartIsGood(hashes, length, peers);
    StepWellFormed(s, sha, Unchoke(0));
    RunOfTwo(s, sha, Unchoke(0), Unchoke(1));
    var s2 := Next(Next(s, sha, Unchoke(0)), sha, Unchoke(1));
    assert s2.pending == Some(Params(1, 1)) && 0 !in s2.queue && s2.announced == [];
  }

  /** A peer that unchokes this side and closes before it is served is handed a piece, and keeps it for ever. */
  lemma ClosedPeerIsServed(hashes: seq<seq<byte>>, length: nat, peers: nat, sha: Sha)
    requires |hashes| >= 1 && peers >= 1
    ensures WellFormed(Start(hashes, length, peers))
    ensures var s, steps := Start(hashes, length, peers), [Bitfield(0, {0}), Unchoke(0), Close(0), TryDownload];
            Allowed(s, sha, steps) && !Seen(RunFrom(s, sha, steps), 0)
  {
    hide WellFormed, Allowed, RunFrom, AfterTry;
    var s := Start(hashes, length, peers);
    StartIsGood(hashes, length, peers);
    StepWellFormed(s, sha, Bitfield(0, {0}));
    var s1 := Next(s, sha, Bitfield(0, {0}));
    StepWellFormed(s1, sha, Unchoke(0));
    var s2 := Next(s1, sha, Unchoke(0));
    StepWellFormed(s2, sha, Close(0));
    var s3 := Next(s2, sha, Close(0));
    assert s3.pending == Some(Params(0, 0)) && 0 !in s3.queue && s3.announced == [];
    assert s3.peers[0] == Peer(-1, false, false, Some({0})) && !s3.pieces[0].DownloadFinished();
    ServedForNothing(s3, sha);
    RunOfTwo(s2, sha, Close(0), TryDownload);
    RunStarts(s1, sha, Unchoke(0), [Close(0), TryDownload]);
    assert [Unchoke(0)] + [Close(0), TryDownload] == [Unchoke(0), Close(0), TryDownload];
    RunStarts(s, sha, Bitfield(0, {0}), [Unchoke(0), Close(0), TryDownload]);
    assert [Bitfield(0, {0})] + [Unchoke(0), Close(0), TryDownload]
           == [Bitfield(0, {0}), Unchoke(0), Close(0), TryDownload];
  }

  lemma ServedForNothing(s: State, sha: Sha)
    requires WellFormed(s) && s.pending == Some(Params(0, 0)) && 0 !in s.queue && s.announced == []
    requires |s.peers| > 0 && s.peers[0] == Peer(-1, false, false, Some({0}))
    requires forall j :: 0 < j < |s.peers| ==> s.peers[j].currPiece != 0
    requires IsPiece(s, 0) && !s.pieces[0].DownloadFinished()
    ensures Enabled(s, sha, TryDownload) && !Seen(Next(s, sha, TryDownload), 0)
  {
    hide Fetch, WellFormed;
    var idle := s.(pending := None);
    TryCases(s, sha);
    FetchKeepsInView(idle, sha, 0, 0, 0);
  }

  /** A peer that has been handed piece 0 and then says in a new BITFIELD that it lacks it keeps it out of view. */
  lemma BitfieldDropsAPiece(hashes: seq<seq<byte>>, length: nat, peers: nat, sha: Sha)
    requires |hashes| >= 1 && peers >= 1
    ensures WellFormed(Start(hashes, length, peers))
    ensures var s := Start(hashes, length, peers);
            var steps := [Bitfield(0, {0}), Unchoke(0), TryDownload, Choke(0), Bitfield(0, {})];
            Allowed(s, sha, steps) && !Seen(RunFrom(s, sha, steps), 0)
  {
    hide WellFormed, Allowed, RunFrom, AfterTry;
    var s := Start(hashes, length, peers);
    StartIsGood(hashes, length, peers);
    StepWellFormed(s, sha, Bitfield(0, {0}));
    var s1 := Next(s, sha, Bitfield(0, {0}));
    StepWellFormed(s1, sha, Unchoke(0));
    var s2 := Next(s1, sha, Unchoke(0));
    assert 0 !in s2.queue && !s2.pieces[0].DownloadFinished();
    HandedOver(s2, sha);
    StepWellFormed(s2, sha, TryDownload);
    var s3 := Next(s2, sha, TryDownload);
    StepWellFormed(s3, sha, Choke(0));
    var s4 := Next(s3, sha, Choke(0));
    assert !Seen(Next(s4, sha, Bitfield(0, {})), 0);
    RunOfTwo(s3, sha, Choke(0), Bitfield(0, {}));
    var last := [Choke(0), Bitfield(0, {})];
    RunStarts(s2, sha, TryDownload, last);
    assert [TryDownload] + last == [TryDownload, Choke(0), Bitfield(0, {})];
    RunStarts(s1, sha, Unchoke(0), [TryDownload] + last);
    assert [Unchoke(0)] + ([TryDownload] + last) == [Unchoke(0), TryDownload, Choke(0), Bitfield(0, {})];
    RunStarts(s, sha, Bitfield(0, {0}), [Unchoke(0)] + ([TryDownload] + last));
    assert [Bitfield(0, {0})] + ([Unchoke(0)] + ([TryDownload] + last))
           == [Bitfield(0, {0}), Unchoke(0), TryDownload, Choke(0), Bitfield(0, {})];
  }

  lemma HandedOver(s: State, sha: Sha)
    requires WellFormed(s) && s.pending == Some(Params(0, 0))
    requires |s.peers| > 0 && s.peers[0] == Peer(-1, false, true, Some({0}))
    requires IsPiece(s, 0) && !s.pieces[0].DownloadFinished()
    ensures Enabled(s, sha, TryDownload)
    ensures var t := Next(s, sha, TryDownload);
            && t.peers == s.peers[0 := Peer(0, false, true, Some({0}))]
            && t.queue == s.queue && t.announced == s.announced && t.pending == None
  {
    hide PieceState.Pipeline, WellFormed;
    TryCases(s, sha);
  }

  /** The pop after an announcement meets an empty queue exactly when the peer was idle and nothing else was queued. */
  lemma PopOnEmptyQueue(s: State, sha: Sha)
    requires WellFormed(s) && s.pending.Some? && Fetches(s)
    ensures var Params(index, k) := s.pending.value;
            IsPiece(s, Current(s, k, index)) &&
            (Announces(s, sha, k, Current(s, k, index)) ==>
              (Fetch(s.(pending := None), sha, k, index).0.queue == []
               <==> s.peers[k].currPiece == -1 && s.queue == []))
  {
    hide PieceState.Pipeline;
    OfferedPieces(s);
  }

  // `try_download` in the order it does things.
  lemma TryCases(s: State, sha: Sha)
    requires WellFormed(s) && Happens(s, TryDownload)
    ensures var Params(index, k) := s.pending.value;
            var idle := s.(pending := None);
            && k < |s.peers| && IsPiece(s, index) && WellFormed(idle) && IsPiece(s, Current(s, k, index))
            && if !Fetches(s) then
                 Survives(s, sha, TryDownload) && Next(s, sha, TryDownload) == idle.(queue := s.queue + [index])
               else
                 var (fetched, r) := Fetch(idle, sha, k, index);
                 && WellFormed(fetched)
                 && (r != -1 <==> Announces(s, sha, k, Current(s, k, index)))
                 && if r == -1 then
                      && (Survives(s, sha, TryDownload) <==> !Overreads(s, k, Current(s, k, index)))
                      && (Survives(s, sha, TryDownload) ==> Next(s, sha, TryDownload) == fetched)
                    else
                      && r == Current(s, k, index) && fetched.pieces == s.pieces
                      && !Overreads(s, k, Current(s, k, index))
                      && fetched.queue == Offered(s, k, index)
                      && fetched.peers == s.peers[k := s.peers[k].(currPiece := -1)]
                      && (fetched.queue != [] ==>
                            && IsPiece(fetched, fetched.queue[0]) && k < |fetched.peers|
                            && var popped := fetched.(saved := fetched.saved + [r], queue := fetched.queue[1..]);
                            && WellFormed(popped) && |popped.pieces| == |fetched.pieces|
                            && (Survives(s, sha, TryDownload) <==> !Overreads(s, k, fetched.queue[0]))
                            && (Survives(s, sha, TryDownload) ==>
                                  Next(s, sha, TryDownload) == Fetch(popped, sha, k, fetched.queue[0]).0))
                      && (fetched.queue == [] ==> !Survives(s, sha, TryDownload))
  {
    hide Fetch, NoneLost;
    var Params(index, k) := s.pending.value;
    var idle := s.(pending := None);
    OfferedPieces(s);
    if Fetches(s) {
      FetchWellFormed(idle, sha, k, index);
      FetchOffers(idle, sha, k, index);
      var (fetched, r) := Fetch(idle, sha, k, index);
      if r != -1 && fetched.queue != [] {
        assert fetched.queue[0] in fetched.queue && forall i <- fetched.queue[1..] :: i in fetched.queue;
      }
    }
  }

  // The branches of `fetch_piece`, from the state in which the peer has been given its piece.
  lemma FetchTurn(s: State, sha: Sha, k: nat, index: int)
    requires WellFormed(s) && k < |s.peers| && IsPiece(s, index)
    ensures var peer, curr := s.peers[k], Current(s, k, index);
            && IsPiece(s, curr) && s.pieces[curr].index == curr
            && var u := s.(queue := Offered(s, k, index), peers := s.peers[k := peer.(currPiece := curr)]);
            var p := u.pieces[curr];
            Fetch(s, sha, k, index) ==
              if (peer.bitfield.Some? && !peer.HasPiece(curr)) || p.backlog == MAX_BACKLOG then (u, -1)
              else if p.DownloadFinished() then
                var t := u.(peers := u.peers[k := u.peers[k].(currPiece := -1)]);
                if p.VerifyIntegrity(sha) then (t.(announced := t.announced + [curr]), curr)
                else (t.(queue := t.queue + [curr]), -1)
              else (u.(pieces := u.pieces[curr := p.Pipeline().0], sent := u.sent + p.Pipeline().1), -1)
  {
    hide PieceState.Pipeline, PieceState.VerifyIntegrity;
    var peer, curr := s.peers[k], Current(s, k, index);
    assert peer in s.peers;
    assert s.peers[k := peer.(currPiece := curr)][k := peer.(currPiece := -1)] == s.peers[k := peer.(currPiece := -1)];
  }

  // `try_download` as two fetches, one behind the other.
  lemma TryInTwo(s: State, sha: Sha)
    requires WellFormed(s) && Happens(s, TryDownload)
    ensures var Params(index, k) := s.pending.value;
            var idle := s.(pending := None);
            && k < |s.peers| && IsPiece(idle, index) && WellFormed(idle) && IsPiece(idle, Current(idle, k, index))
            && if !Fetches(s) then
                 Survives(s, sha, TryDownload) && Next(s, sha, TryDownload) == idle.(queue := s.queue + [index])
               else
                 var (fetched, r) := Fetch(idle, sha, k, index);
                 && WellFormed(fetched) && |fetched.peers| == |s.peers|
                 && if r == -1 then
                      && (Survives(s, sha, TryDownload) <==> !Overreads(idle, k, Current(idle, k, index)))
                      && (Survives(s, sha, TryDownload) ==> Next(s, sha, TryDownload) == fetched)
                    else
                      && fetched.peers[k].currPiece == -1 && !Overreads(idle, k, Current(idle, k, index))
                      && (fetched.queue != [] ==> IsPiece(fetched, fetched.queue[0]))
                      && (Survives(s, sha, TryDownload)
                          <==> fetched.queue != [] && !Overreads(fetched, k, fetched.queue[0]))
                      && (Survives(s, sha, TryDownload) ==> Next(s, sha, TryDownload) == OfferNext(fetched, sha, k, r))
  {
    hide Fetch, Survives, Next, Announces, Overreads, AfterTry;
    TryCases(s, sha);
    var Params(index, k) := s.pending.value;
    var idle := s.(pending := None);
    SameConclusion(s, idle, sha, k, Current(s, k, index));
    if Fetches(s) {
      var (fetched, r) := Fetch(idle, sha, k, index);
      FetchWellFormed(idle, sha, k, index);
      if r != -1 && fetched.queue != [] {
        SameConclusion(s, fetched, sha, k, fetched.queue[0]);
      }
    }
  }

  lemma FetchAnnounces(s: State, sha: Sha, k: nat, index: int)
    requires WellFormed(s) && k < |s.peers| && IsPiece(s, index)
    ensures var (t, r) := Fetch(s, sha, k, index);
            var curr := Current(s, k, index);
            && IsPiece(s, curr) && t.saved == s.saved
            && t.announced == s.announced + if Announces(s, sha, k, curr) then [curr] else []
  {
    hide PieceState.Pipeline, PieceState.VerifyIntegrity;
    assert s.peers[k] in s.peers;
  }

  // What serving the send announces, in order.
  function Announced(s: State, sha: Sha): seq<int>
    requires WellFormed(s) && Enabled(s, sha, TryDownload)
  {
    OfferedPieces(s);
    var Params(index, k) := s.pending.value;
    var curr, queue := Current(s, k, index), Offered(s, k, index);
    if !Fetches(s) || !Announces(s, sha, k, curr) then []
    else [curr] + if Announces(s, sha, k, queue[0]) then [queue[0]] else []
  }

  /**
   * One `try_download` announces the peer's own piece if it is finished and verified, and then the piece at the head
   * of the queue if that is so too. The first is handed over to be saved; a second announcement is never saved.
   */
  lemma OnlyVerifiedIsAnnounced(s: State, sha: Sha)
    requires WellFormed(s) && Enabled(s, sha, TryDownload)
    ensures var t := Next(s, sha, TryDownload);
            var announced := Announced(s, sha);
            && t.announced == s.announced + announced
            && t.saved == s.saved + (if announced == [] then [] else [announced[0]])
            && forall i <- announced ::
                 IsPiece(s, i) && s.pieces[i].DownloadFinished() && s.pieces[i].VerifyIntegrity(sha)
  {
    hide Fetch, Overreads, PieceState.VerifyIntegrity, WellFormed;
    TryCases(s, sha);
    OfferedPieces(s);
    var Params(index, k) := s.pending.value;
    var idle := s.(pending := None);
    assert s.saved + [] == s.saved && s.announced + [] == s.announced;
    if Fetches(s) {
      FetchAnnounces(idle, sha, k, index);
      var (fetched, r) := Fetch(idle, sha, k, index);
      if r != -1 {
        var popped := fetched.(saved := fetched.saved + [r], queue := fetched.queue[1..]);
        FetchAnnounces(popped, sha, k, fetched.queue[0]);
        assert fetched.queue[0] in Offered(s, k, index);
        SameConclusion(s, popped, sha, k, fetched.queue[0]);
        assert fetched.announced + [] == fetched.announced;
        assert s.announced + [r] + [fetched.queue[0]] == s.announced + ([r] + [fetched.queue[0]]);
      }
    }
  }

  // What a piece is called, how long it is and what it should hash to never change.
  predicate SamePiece(p: PieceState, q: PieceState) {
    p.index == q.index && p.hash == q.hash && p.Length() == q.Length()
  }

  lemma FetchKeepsPiece(s: State, sha: Sha, k: nat, index: int, i: int)
    requires WellFormed(s) && k < |s.peers| && IsPiece(s, index) && IsPiece(s, i)
    ensures var t := Fetch(s, sha, k, index).0; |t.pieces| == |s.pieces| && SamePiece(t.pieces[i], s.pieces[i])
  {
    FetchShape(s, sha, k, index);
    PipelineKeeps(s.pieces[Current(s, k, index)]);
  }

  lemma StepKeepsPiece(s: State, sha: Sha, step: Step, i: int)
    requires WellFormed(s) && Enabled(s, sha, step) && IsPiece(s, i)
    ensures var t := Next(s, sha, step); |t.pieces| == |s.pieces| && SamePiece(t.pieces[i], s.pieces[i])
  {
    hide Fetch, AfterTry, Announces, Overreads;
    if step.TryDownload? {
      TryCases(s, sha);
      hide Survives, WellFormed;
      var Params(index, k) := s.pending.value;
      var idle := s.(pending := None);
      FetchKeepsPiece(idle, sha, k, index, i);
      var (fetched, r) := Fetch(idle, sha, k, index);
      if Fetches(s) && r != -1 {
        var popped := fetched.(saved := fetched.saved + [r], queue := fetched.queue[1..]);
        FetchKeepsPiece(popped, sha, k, fetched.queue[0], i);
      }
    }
  }

  // ----- pieces that have been asked for in full

  predicate AskedInFull(p: PieceState) {
    p.totalRequested >= p.Length()
  }

  // All its blocks have come, or more, and its hash is not checked again or is wrong.
  predicate Spoilt(p: PieceState, sha: Sha) {
    AskedInFull(p) && p.receivedCount >= BLOCKS && !(p.DownloadFinished() && p.VerifyIntegrity(sha))
  }

  // A peer that is on piece `i` closes.
  predicate Frees(s: State, step: Step, i: int) {
    step.Close? && step.peer < |s.peers| && s.peers[step.peer].currPiece == i
  }

  lemma FetchKeepsAsked(s: State, sha: Sha, k: nat, index: int, i: int)
    requires WellFormed(s) && k < |s.peers| && IsPiece(s, index) && IsPiece(s, i) && AskedInFull(s.pieces[i])
    ensures var t := Fetch(s, sha, k, index).0;
            && |t.pieces| == |s.pieces| && t.pieces[i] == s.pieces[i]
            && RequestsFor(t.sent, i) == RequestsFor(s.sent, i)
            && (Spoilt(s.pieces[i], sha) ==> (i in t.announced <==> i in s.announced))
  {
    hide PieceState.Pipeline, PieceState.VerifyIntegrity, RequestsFor;
    assert s.peers[k] in s.peers;
    var curr := Current(s, k, index);
    var requests := s.pieces[curr].Pipeline().1;
    PipelineTurn(s.pieces[i]);
    PipelineNames(s.pieces[curr]);
    RequestsForSum(s.sent, requests, i);
    RequestsForOne(requests, i, curr);
    assert RequestsFor(s.sent, i) + [] == RequestsFor(s.sent, i);
  }

  lemma ServedKeepsAsked(s: State, sha: Sha, i: int)
    requires WellFormed(s) && Enabled(s, sha, TryDownload) && IsPiece(s, i) && AskedInFull(s.pieces[i])
    ensures var t := Next(s, sha, TryDownload);
            && |t.pieces| == |s.pieces| && t.pieces[i] == s.pieces[i]
            && RequestsFor(t.sent, i) == RequestsFor(s.sent, i)
            && (Spoilt(s.pieces[i], sha) ==> (i in t.announced <==> i in s.announced))
  {
    hide Fetch, Announces, Overreads, AfterTry, RequestsFor, Spoilt, AskedInFull;
    TryCases(s, sha);
    hide Survives, WellFormed;
    var Params(index, k) := s.pending.value;
    var idle := s.(pending := None);
    FetchKeepsAsked(idle, sha, k, index, i);
    var (fetched, r) := Fetch(idle, sha, k, index);
    if Fetches(s) && r != -1 {
      var popped := fetched.(saved := fetched.saved + [r], queue := fetched.queue[1..]);
      FetchKeepsAsked(popped, sha, k, fetched.queue[0], i);
    }
  }

  /**
   * A piece asked for in full is asked for again only after a peer on it has closed, whatever blocks still come for
   * it. That close, and no other step, throws the piece away and queues it.
   */
  lemma OnlyACloseFrees(s: State, sha: Sha, step: Step, i: int)
    requires WellFormed(s) && Enabled(s, sha, step) && IsPiece(s, i) && AskedInFull(s.pieces[i])
    ensures var t := Next(s, sha, step);
            && |t.pieces| == |s.pieces| && RequestsFor(t.sent, i) == RequestsFor(s.sent, i)
            && if Frees(s, step, i) then
                 && 0 <= s.pieces[i].receivedBytes <= s.pieces[i].Length()
                 && t.pieces[i] == s.pieces[i].Reset() && i in t.queue
               else AskedInFull(t.pieces[i])
    ensures Spoilt(s.pieces[i], sha) ==>
              var t := Next(s, sha, step);
              && (i in t.announced <==> i in s.announced)
              && (Spoilt(t.pieces[i], sha) <==> !Frees(s, step, i))
  {
    hide AfterTry, RequestsFor, PieceState.VerifyIntegrity;
    if step.TryDownload? {
      ServedKeepsAsked(s, sha, i);
    } else if step.Close? {
      assert s.peers[step.peer] in s.peers;
    }
  }

  /** A piece that has been freed is asked for from its first block on by the next fetch of a peer that has it. */
  lemma FreedIsFetchedAgain(s: State, sha: Sha, k: nat, i: int, j: nat, index: int)
    requires WellFormed(s) && Enabled(s, sha, Close(k)) && IsPiece(s, i) && Frees(s, Close(k), i)
    requires s.pieces[i].Length() > 0 && j < |s.peers| && IsPiece(s, index)
    ensures var t := Next(s, sha, Close(k));
            && WellFormed(t) && j < |t.peers| && IsPiece(t, index)
            && (Current(t, j, index) == i && t.peers[j].HasPiece(i) ==>
                  var requests := t.pieces[i].Pipeline().1;
                  && requests != [] && requests[0] == Tile(i, s.pieces[i].Length(), 0)
                  && Fetch(t, sha, j, index).0.sent == t.sent + requests)
  {
    hide PieceState.Pipeline;
    StepWellFormed(s, sha, Close(k));
    assert s.peers[k] in s.peers;
    PipelineTurn(s.pieces[i].Reset());
  }

  ghost predicate NeverFreed(s: State, sha: Sha, steps: seq<Step>, i: int)
    requires WellFormed(s) && Allowed(s, sha, steps)
    decreases |steps|
  {
    steps == [] ||
    (!Frees(s, steps[0], i) &&
     (StepWellFormed(s, sha, steps[0]); NeverFreed(Next(s, sha, steps[0]), sha, steps[1..], i)))
  }

  ghost predicate AlwaysSpoilt(s: State, sha: Sha, steps: seq<Step>, i: int)
    requires WellFormed(s) && Allowed(s, sha, steps)
    decreases |steps|
  {
    && IsPiece(s, i) && Spoilt(s.pieces[i], sha)
    && (steps != [] ==> (StepWellFormed(s, sha, steps[0]); AlwaysSpoilt(Next(s, sha, steps[0]), sha, steps[1..], i)))
  }

  /**
   * Over every run, a piece that has its blocks and a wrong hash stays so at every moment if and only if no peer on
   * it closes; and until one does it is neither asked for nor announced.
   */
  lemma {:induction false} CorruptPieceOverARun(s: State, sha: Sha, steps: seq<Step>, i: int)
    requires WellFormed(s) && Allowed(s, sha, steps) && IsPiece(s, i) && Spoilt(s.pieces[i], sha)
    ensures AlwaysSpoilt(s, sha, steps, i) <==> NeverFreed(s, sha, steps, i)
    ensures NeverFreed(s, sha, steps, i) ==>
              var t := RunFrom(s, sha, steps);
              RequestsFor(t.sent, i) == RequestsFor(s.sent, i) && (i in t.announced <==> i in s.announced)
    decreases |steps|
  {
    hide Next, Enabled, Spoilt, RequestsFor, Frees;
    if steps != [] {
      StepWellFormed(s, sha, steps[0]);
      SpoiltIsAsked(s.pieces[i], sha);
      OnlyACloseFrees(s, sha, steps[0], i);
      if !Frees(s, steps[0], i) {
        CorruptPieceOverARun(Next(s, sha, steps[0]), sha, steps[1..], i);
      }
    }
  }

  lemma SpoiltIsAsked(p: PieceState, sha: Sha)
    requires Spoilt(p, sha)
    ensures AskedInFull(p)
  {
  }
}
