/**
 * Runs in which every block answers a request made since the piece was last reset, once, with the bytes of one content.
 * Whether that content has the hash the torrent names is left open.
 */
module HonestSwarm {
  import opened Bytes
  import opened Pieces
  import opened Assembly
  import opened Swarm

  // `answered[i]`: the blocks of piece `i` answered since its last reset; `mark[i]`: the requests sent before it.
  datatype World = World(s: State, answered: seq<set<int>>, mark: seq<nat>)

  ghost predicate PieceGood(w: World, contents: seq<seq<byte>>, i: int)
    requires 0 <= i < |w.s.pieces| == |w.answered| == |w.mark| == |contents|
  {
    var p := w.s.pieces[i];
    && Consistent(p, contents[i], w.answered[i]) && p.index == i
    && w.mark[i] <= |w.s.sent|
    && RequestsFor(w.s.sent[w.mark[i]..], i) == FirstTiles(i, |contents[i]|, Tiles(p.totalRequested))
  }

  ghost predicate Good(w: World, contents: seq<seq<byte>>) {
    && WellFormed(w.s)
    && |w.s.pieces| == |w.answered| == |w.mark| == |contents|
    && forall i :: 0 <= i < |contents| ==> PieceGood(w, contents, i)
  }

  function StartWorld(hashes: seq<seq<byte>>, length: nat, peers: nat): World {
    World(Start(hashes, length, peers), seq(|hashes|, _ => {}), seq(|hashes|, _ => 0))
  }

  // An event honest peers can cause. Which peer answers does not matter, nor whether the last send has been served.
  ghost predicate Behaved(w: World, contents: seq<seq<byte>>, step: Step)
    requires |w.s.pieces| == |w.answered| == |contents|
  {
    && Happens(w.s, step)
    && (step.Block? ==>
          var k := step.offset / BLOCK_LENGTH;
          && IsPiece(w.s, step.index) && step.offset == k * BLOCK_LENGTH
          && k in Outstanding(w.s.pieces[step.index], w.answered[step.index])
          && 0 <= k < Tiles(|contents[step.index]|) && step.block == Slice(contents[step.index], k))
  }

  ghost predicate Honest(w: World, contents: seq<seq<byte>>, sha: Sha, step: Step)
    requires Good(w, contents)
  {
    Behaved(w, contents, step) && Survives(w.s, sha, step)
  }

  /** What honest peers cause ends the process in one way only: a piece is popped from an empty queue. */
  lemma OnlyPopsFail(w: World, contents: seq<seq<byte>>, sha: Sha, step: Step)
    requires Good(w, contents) && Behaved(w, contents, step)
    ensures step.TryDownload? ==>
              var Params(index, k) := w.s.pending.value;
              k < |w.s.peers| && IsPiece(w.s, Current(w.s, k, index))
    ensures Survives(w.s, sha, step) <==>
              match step
              case Unchoke(_) => w.s.queue != []
              case TryDownload =>
                var Params(index, k) := w.s.pending.value;
                Fetches(w.s) && Announces(w.s, sha, k, Current(w.s, k, index)) ==> Offered(w.s, k, index) != []
              case _ => true
  {
    hide Consistent, Outstanding, Tiles, Announces, PieceState.VerifyIntegrity;
    forall i | IsPiece(w.s, i) ensures w.s.pieces[i].receivedBytes <= w.s.pieces[i].Length() {
      assert PieceGood(w, contents, i);
      InBounds(w.s.pieces[i], contents[i], w.answered[i]);
    }
    match step
    case TryDownload =>
      OfferedPieces(w.s);
      var Params(index, k) := w.s.pending.value;
      if Offered(w.s, k, index) != [] { assert Offered(w.s, k, index)[0] in Offered(w.s, k, index); }
    case Block(_, index, offset, _) =>
      assert PieceGood(w, contents, index);
      AnswerIsConsistent(w.s.pieces[index], contents[index], w.answered[index], offset / BLOCK_LENGTH);
    case Close(k) =>
      assert w.s.peers[k] in w.s.peers;
    case _ =>
  }

  ghost function NextWorld(w: World, contents: seq<seq<byte>>, sha: Sha, step: Step): World
    requires Good(w, contents) && Honest(w, contents, sha, step)
  {
    var s' := Next(w.s, sha, step);
    match step
    case Block(_, index, offset, _) =>
      World(s', w.answered[index := w.answered[index] + {offset / BLOCK_LENGTH}], w.mark)
    case Close(k) =>
      var curr := w.s.peers[k].currPiece;
      assert w.s.peers[k] in w.s.peers;
      if curr == -1 then World(s', w.answered, w.mark)
      else World(s', w.answered[curr := {}], w.mark[curr := |w.s.sent|])
    case _ => World(s', w.answered, w.mark)
  }

  lemma StartIsGoodWorld(contents: seq<seq<byte>>, hashes: seq<seq<byte>>, length: nat, peers: nat)
    requires |hashes| == |contents| && forall content <- contents :: |content| == length
    ensures Good(StartWorld(hashes, length, peers), contents)
  {
    var w := StartWorld(hashes, length, peers);
    StartIsGood(hashes, length, peers);
    forall i | 0 <= i < |contents| ensures PieceGood(w, contents, i) {
      assert contents[i] in contents;
      NewIsConsistent(i, hashes[i], contents[i]);
      assert FirstTiles(i, length, 0) == [];
    }
  }

  lemma TilesOfOne(index: int, length: int, before: nat, sent: seq<Request>, after: nat)
    requires FirstTiles(index, length, after) == FirstTiles(index, length, before) + sent
    ensures forall r <- sent :: r.index == index
  {
    forall r <- sent ensures r.index == index {
      assert r in FirstTiles(index, length, after);
    }
  }

  // A fetch keeps every piece's books; it touches those of one piece at most.
  lemma FetchIsHonest(w: World, contents: seq<seq<byte>>, sha: Sha, k: nat, index: int)
    requires WellFormed(w.s) && k < |w.s.peers| && IsPiece(w.s, index)
    requires |w.s.pieces| == |w.answered| == |w.mark| == |contents|
    requires forall i :: 0 <= i < |contents| ==> PieceGood(w, contents, i)
    ensures var t := Fetch(w.s, sha, k, index).0;
            |t.pieces| == |contents| && forall i :: 0 <= i < |contents| ==> PieceGood(w.(s := t), contents, i)
  {
    hide Consistent, PieceState.Pipeline, Tiles;
    var curr := Current(w.s, k, index);
    assert w.s.peers[k] in w.s.peers;
    var p := w.s.pieces[curr];
    var (p', requests) := p.Pipeline();
    var t := Fetch(w.s, sha, k, index).0;
    assert PieceGood(w, contents, curr);
    PipelineIsConsistent(p, contents[curr], w.answered[curr]);
    TilesCounted(p, contents[curr], w.answered[curr]);
    TilesCounted(p', contents[curr], w.answered[curr]);
    TilesOfOne(curr, |contents[curr]|, Tiles(p.totalRequested), requests, Tiles(p'.totalRequested));
    forall i | 0 <= i < |contents| ensures PieceGood(w.(s := t), contents, i) {
      assert PieceGood(w, contents, i);
      if t.sent != w.s.sent {
        assert t.sent == w.s.sent + requests;
        assert t.sent[w.mark[i]..] == w.s.sent[w.mark[i]..] + requests;
        RequestsForSum(w.s.sent[w.mark[i]..], requests, i);
        RequestsForOne(requests, i, curr);
      }
    }
  }

  lemma TilesCounted(p: PieceState, content: seq<byte>, answered: set<int>)
    requires Consistent(p, content, answered)
    ensures Tiles(p.totalRequested) >= 0
  {
  }

  // Changes that leave pieces and requests alone keep every piece's books.
  lemma SameBooks(w: World, t: State, contents: seq<seq<byte>>)
    requires |w.s.pieces| == |w.answered| == |w.mark| == |contents|
    requires forall i :: 0 <= i < |contents| ==> PieceGood(w, contents, i)
    requires t.pieces == w.s.pieces && t.sent == w.s.sent
    ensures forall i :: 0 <= i < |contents| ==> PieceGood(w.(s := t), contents, i)
  {
    forall i | 0 <= i < |contents| ensures PieceGood(w.(s := t), contents, i) {
      assert PieceGood(w, contents, i);
    }
  }

  lemma TryIsHonest(w: World, contents: seq<seq<byte>>, sha: Sha)
    requires Good(w, contents) && Enabled(w.s, sha, TryDownload)
    ensures var t := AfterTry(w.s, sha);
            |t.pieces| == |contents| && forall i :: 0 <= i < |contents| ==> PieceGood(w.(s := t), contents, i)
  {
    hide Fetch, PieceGood, Announces, Overreads;
    var Params(index, k) := w.s.pending.value;
    var idle := w.s.(pending := None);
    SameBooks(w, idle, contents);
    TryCases(w.s, sha);
    hide Survives, WellFormed;
    if !Fetches(w.s) {
      SameBooks(w, idle.(queue := w.s.queue + [index]), contents);
    } else {
      FetchIsHonest(w.(s := idle), contents, sha, k, index);
      var (fetched, r) := Fetch(idle, sha, k, index);
      if r != -1 {
        var popped := fetched.(saved := fetched.saved + [r], queue := fetched.queue[1..]);
        SameBooks(w.(s := fetched), popped, contents);
        FetchIsHonest(w.(s := popped), contents, sha, k, fetched.queue[0]);
      }
    }
  }

  lemma BlockIsHonest(w: World, contents: seq<seq<byte>>, sha: Sha, step: Step)
    requires Good(w, contents) && Honest(w, contents, sha, step) && step.Block?
    ensures var v := NextWorld(w, contents, sha, step);
            |v.s.pieces| == |contents| == |v.answered| && forall i :: 0 <= i < |contents| ==> PieceGood(v, contents, i)
  {
    hide Consistent, PieceState.Pipeline, Tiles, Outstanding;
    var v := NextWorld(w, contents, sha, step);
    var k, index := step.offset / BLOCK_LENGTH, step.index;
    assert PieceGood(w, contents, index);
    AnswerIsConsistent(w.s.pieces[index], contents[index], w.answered[index], k);
    forall i | 0 <= i < |contents| ensures PieceGood(v, contents, i) {
      assert PieceGood(w, contents, i);
    }
  }

  lemma CloseIsHonest(w: World, contents: seq<seq<byte>>, sha: Sha, k: nat)
    requires Good(w, contents) && k < |w.s.peers| && w.s.peers[k].open
    ensures Honest(w, contents, sha, Close(k))
    ensures var v := NextWorld(w, contents, sha, Close(k));
            |v.s.pieces| == |contents| == |v.answered| == |v.mark|
            && forall i :: 0 <= i < |contents| ==> PieceGood(v, contents, i)
  {
    hide Consistent, PieceState.Pipeline, Tiles;
    OnlyPopsFail(w, contents, sha, Close(k));
    var v := NextWorld(w, contents, sha, Close(k));
    var curr := w.s.peers[k].currPiece;
    assert w.s.peers[k] in w.s.peers;
    if curr != -1 {
      assert PieceGood(w, contents, curr);
      ResetIsConsistent(w.s.pieces[curr], contents[curr], w.answered[curr]);
      NoTiles(curr, |contents[curr]|);
    }
    forall i | 0 <= i < |contents| ensures PieceGood(v, contents, i) {
      assert PieceGood(w, contents, i);
    }
  }

  lemma NoTiles(index: int, length: int)
    ensures Tiles(0) == 0 && FirstTiles(index, length, 0) == []
  {
  }

  /** Every honest step keeps every piece's books, and keeps the steps' own invariants. */
  lemma HonestStepIsGood(w: World, contents: seq<seq<byte>>, sha: Sha, step: Step)
    requires Good(w, contents) && Honest(w, contents, sha, step)
    ensures Good(NextWorld(w, contents, sha, step), contents)
  {
    hide PieceGood, AfterTry, Fetch;
    StepWellFormed(w.s, sha, step);
    match step
    case TryDownload => TryIsHonest(w, contents, sha);
    case Block(_, _, _, _) => BlockIsHonest(w, contents, sha, step);
    case Close(k) => CloseIsHonest(w, contents, sha, k);
    case _ => SameBooks(w, Next(w.s, sha, step), contents);
  }

  ghost predicate HonestRun(w: World, contents: seq<seq<byte>>, sha: Sha, steps: seq<Step>)
    requires Good(w, contents)
    decreases |steps|
  {
    steps == [] ||
    (Honest(w, contents, sha, steps[0]) &&
     (HonestStepIsGood(w, contents, sha, steps[0]);
      HonestRun(NextWorld(w, contents, sha, steps[0]), contents, sha, steps[1..])))
  }

  ghost function WorldAfter(w: World, contents: seq<seq<byte>>, sha: Sha, steps: seq<Step>): World
    requires Good(w, contents) && HonestRun(w, contents, sha, steps)
    decreases |steps|
  {
    if steps == [] then w
    else
      HonestStepIsGood(w, contents, sha, steps[0]);
      WorldAfter(NextWorld(w, contents, sha, steps[0]), contents, sha, steps[1..])
  }

  lemma {:induction false} HonestRunIsGood(w: World, contents: seq<seq<byte>>, sha: Sha, steps: seq<Step>)
    requires Good(w, contents) && HonestRun(w, contents, sha, steps)
    ensures var v := WorldAfter(w, contents, sha, steps);
            && Good(v, contents) && |v.s.pieces| == |w.s.pieces|
            && forall i :: 0 <= i < |v.s.pieces| ==> SamePiece(v.s.pieces[i], w.s.pieces[i])
    decreases |steps|
  {
    hide Good, NextWorld, Honest;
    if steps != [] {
      var v := NextWorld(w, contents, sha, steps[0]);
      HonestStepIsGood(w, contents, sha, steps[0]);
      HonestStepKeepsPieces(w, contents, sha, steps[0]);
      HonestRunIsGood(v, contents, sha, steps[1..]);
    }
  }

  lemma HonestStepKeepsPieces(w: World, contents: seq<seq<byte>>, sha: Sha, step: Step)
    requires Good(w, contents) && Honest(w, contents, sha, step)
    ensures var v := NextWorld(w, contents, sha, step);
            && |v.s.pieces| == |w.s.pieces|
            && forall i :: 0 <= i < |v.s.pieces| ==> SamePiece(v.s.pieces[i], w.s.pieces[i])
  {
    hide Next, SamePiece, Survives;
    StepWellFormed(w.s, sha, step);
    forall i | 0 <= i < |w.s.pieces| ensures SamePiece(Next(w.s, sha, step).pieces[i], w.s.pieces[i]) {
      StepKeepsPiece(w.s, sha, step, i);
    }
  }

  // The account of piece `i`: what has been asked for, what is open, what has come, and whether it can be trusted.
  ghost predicate Accounted(w: World, content: seq<byte>, sha: Sha, i: int)
    requires 0 <= i < |w.s.pieces| == |w.mark|
  {
    var p, length := w.s.pieces[i], |content|;
    // Since the last reset the requests are the first tiles; at most five are open, and none is unaccounted for.
    && w.mark[i] <= |w.s.sent| && Tiles(p.totalRequested) >= 0
    && RequestsFor(w.s.sent[w.mark[i]..], i) == FirstTiles(i, length, Tiles(p.totalRequested))
    && 0 <= p.backlog <= MAX_BACKLOG && Tiles(p.totalRequested) == p.backlog + p.receivedCount
    && 0 <= p.receivedBytes <= length == |p.data|
    // A piece of 16 blocks that counts as finished is its content, and passes its check if that has the right hash;
    // a piece of fewer blocks never counts as finished, and one of more does too soon.
    && (15 * BLOCK_LENGTH < length <= 16 * BLOCK_LENGTH && p.DownloadFinished() ==>
          p.data == content && p.receivedBytes == length && (p.VerifyIntegrity(sha) <==> sha(content) == p.hash))
    && (length <= 15 * BLOCK_LENGTH ==> !p.DownloadFinished())
    && (length > 16 * BLOCK_LENGTH && p.DownloadFinished() ==> p.receivedBytes < length)
  }

  /** Over every honest run from the start, whatever the order of blocks, fetches, chokes and closed connections. */
  lemma EveryFinishedPieceIsRight(contents: seq<seq<byte>>, hashes: seq<seq<byte>>, sha: Sha, length: nat, peers: nat,
                                  steps: seq<Step>, i: int)
    requires |hashes| == |contents| && (forall content <- contents :: |content| == length) && 0 <= i < |contents|
    ensures Good(StartWorld(hashes, length, peers), contents)
    ensures HonestRun(StartWorld(hashes, length, peers), contents, sha, steps) ==>
              var w := WorldAfter(StartWorld(hashes, length, peers), contents, sha, steps);
              Good(w, contents) && Accounted(w, contents[i], sha, i) && w.s.pieces[i].hash == hashes[i]
  {
    hide HonestRun, WorldAfter, Good, Accounted;
    var start := StartWorld(hashes, length, peers);
    StartIsGoodWorld(contents, hashes, length, peers);
    if HonestRun(start, contents, sha, steps) {
      HonestRunIsGood(start, contents, sha, steps);
      GoodPiece(WorldAfter(start, contents, sha, steps), contents, sha, i);
      assert SamePiece(WorldAfter(start, contents, sha, steps).s.pieces[i], start.s.pieces[i]);
    }
  }

  lemma GoodPiece(w: World, contents: seq<seq<byte>>, sha: Sha, i: int)
    requires Good(w, contents) && 0 <= i < |contents|
    ensures |w.s.pieces| == |w.mark| && i < |w.s.pieces| && Accounted(w, contents[i], sha, i)
  {
    hide FirstTiles, RequestsFor;
    assert PieceGood(w, contents, i);
    var p := w.s.pieces[i];
    InBounds(p, contents[i], w.answered[i]);
    SixteenBlocks(|contents[i]|);
    if p.DownloadFinished() {
      FinishedIsComplete(p, contents[i], w.answered[i], sha);
    }
  }

  /**
   * No stall: a fetch that goes on with a piece of 16 blocks the peer has, and that is not finished, leaves at
   * least one of its requests unanswered.
   */
  lemma FetchNeverStalls(w: World, contents: seq<seq<byte>>, sha: Sha, k: nat, index: int)
    requires WellFormed(w.s) && k < |w.s.peers| && IsPiece(w.s, index)
    requires |w.s.pieces| == |w.answered| == |w.mark| == |contents|
    requires IsPiece(w.s, Current(w.s, k, index)) && w.s.peers[k].HasPiece(Current(w.s, k, index))
    requires PieceGood(w, contents, Current(w.s, k, index))
    requires !w.s.pieces[Current(w.s, k, index)].DownloadFinished()
    requires Tiles(|contents[Current(w.s, k, index)]|) == BLOCKS
    ensures var curr := Current(w.s, k, index);
            var (t, r) := Fetch(w.s, sha, k, index);
            && r == -1 && |t.pieces| == |w.s.pieces| && t.pieces[curr].backlog >= 1
            && Outstanding(t.pieces[curr], w.answered[curr]) != {}
            && |t.peers| == |w.s.peers| && t.peers[k].currPiece == curr
  {
    hide Consistent, PieceState.Pipeline, Tiles, Outstanding;
    var curr := Current(w.s, k, index);
    var p := w.s.pieces[curr];
    PipelineIsConsistent(p, contents[curr], w.answered[curr]);
    NotAboveSixteen(p, contents[curr], w.answered[curr]);
    SomethingOutstanding(if p.backlog == MAX_BACKLOG then p else p.Pipeline().0, contents[curr], w.answered[curr]);
  }

  // Serving a send goes on with the peer's piece, and leaves a request for it unanswered.
  lemma ServedSendNeverStalls(w: World, contents: seq<seq<byte>>, sha: Sha)
    requires Good(w, contents) && w.s.pending.Some? && Fetches(w.s)
    requires var Params(index, k) := w.s.pending.value;
             var curr := Current(w.s, k, index);
             && IsPiece(w.s, curr) && w.s.peers[k].HasPiece(curr)
             && !w.s.pieces[curr].DownloadFinished() && Tiles(|contents[curr]|) == BLOCKS
    ensures Enabled(w.s, sha, TryDownload)
    ensures var Params(index, k) := w.s.pending.value;
            var curr := Current(w.s, k, index);
            var t := Next(w.s, sha, TryDownload);
            && |t.pieces| == |w.s.pieces| && |t.peers| == |w.s.peers| && t.peers[k].currPiece == curr
            && t.pieces[curr].backlog >= 1 && Outstanding(t.pieces[curr], w.answered[curr]) != {}
  {
    hide PieceGood, Fetch, Outstanding, Tiles;
    var Params(index, k) := w.s.pending.value;
    var idle := w.s.(pending := None);
    SameBooks(w, idle, contents);
    FetchNeverStalls(w.(s := idle), contents, sha, k, index);
    TryCases(w.s, sha);
  }

  /** The first unchoke of an idle peer that has the next queued piece ends, once served, in requests for that piece. */
  lemma UnchokeStartsADownload(w: World, contents: seq<seq<byte>>, sha: Sha, k: nat)
    requires Good(w, contents) && Enabled(w.s, sha, Unchoke(k))
    requires w.s.peers[k].currPiece == -1 && w.s.peers[k].HasPiece(w.s.queue[0])
    requires IsPiece(w.s, w.s.queue[0]) && !w.s.pieces[w.s.queue[0]].DownloadFinished()
    requires Tiles(|contents[w.s.queue[0]]|) == BLOCKS
    ensures Good(NextWorld(w, contents, sha, Unchoke(k)), contents)
    ensures Enabled(Next(w.s, sha, Unchoke(k)), sha, TryDownload)
    ensures var i := w.s.queue[0];
            var t := Next(Next(w.s, sha, Unchoke(k)), sha, TryDownload);
            && |t.pieces| == |w.s.pieces| && |t.peers| == |w.s.peers| && t.peers[k].currPiece == i
            && t.pieces[i].backlog >= 1 && Outstanding(t.pieces[i], w.answered[i]) != {}
  {
    hide PieceGood, Fetch, Outstanding, Tiles, AfterTry;
    HonestStepIsGood(w, contents, sha, Unchoke(k));
    ServedSendNeverStalls(NextWorld(w, contents, sha, Unchoke(k)), contents, sha);
  }

  /** A block short of the last is followed, once its send is served, by another open request for its piece. */
  lemma BlockKeepsADownloadGoing(w: World, contents: seq<seq<byte>>, sha: Sha, step: Step)
    requires Good(w, contents) && Honest(w, contents, sha, step) && step.Block?
    requires var peer := w.s.peers[step.peer];
             !peer.choked && peer.currPiece == step.index && peer.HasPiece(step.index)
    requires Tiles(|contents[step.index]|) == BLOCKS && w.s.pieces[step.index].receivedCount != BLOCKS - 1
    ensures var v := NextWorld(w, contents, sha, step);
            && Good(v, contents) && Enabled(v.s, sha, TryDownload)
            && v.s.pieces[step.index].receivedCount == w.s.pieces[step.index].receivedCount + 1
            && var t := Next(v.s, sha, TryDownload);
            && |t.pieces| == |w.s.pieces| && t.pieces[step.index].backlog >= 1
            && Outstanding(t.pieces[step.index], v.answered[step.index]) != {}
  {
    hide PieceGood, Fetch, Outstanding, Tiles, AfterTry;
    HonestStepIsGood(w, contents, sha, step);
    ServedSendNeverStalls(NextWorld(w, contents, sha, step), contents, sha);
  }

  lemma NotAboveSixteen(p: PieceState, content: seq<byte>, answered: set<int>)
    requires Consistent(p, content, answered) && Tiles(|content|) == BLOCKS && !p.DownloadFinished()
    ensures p.receivedCount < BLOCKS
  {
    AllAnswered(answered, BLOCKS);
  }

  /** Whatever an honest run announces, and so whatever it saves, is at that moment exactly its content. */
  lemma AnnouncedIsRight(w: World, contents: seq<seq<byte>>, sha: Sha, i: int)
    requires Good(w, contents) && Enabled(w.s, sha, TryDownload)
    requires (forall content <- contents :: Tiles(|content|) == BLOCKS) && IsPiece(w.s, i)
    ensures var t := Next(w.s, sha, TryDownload);
            && |t.announced| >= |w.s.announced| && |t.saved| >= |w.s.saved|
            && (i in t.announced[|w.s.announced|..] ==>
                  w.s.pieces[i].data == contents[i] && sha(contents[i]) == w.s.pieces[i].hash)
            && (i in t.saved[|w.s.saved|..] ==> i in t.announced[|w.s.announced|..])
  {
    hide PieceGood, Fetch, AfterTry, Tiles, Announced;
    OnlyVerifiedIsAnnounced(w.s, sha);
    var t, announced := Next(w.s, sha, TryDownload), Announced(w.s, sha);
    assert t.announced[|w.s.announced|..] == announced;
    assert t.saved[|w.s.saved|..] == if announced == [] then [] else [announced[0]];
    if i in announced {
      assert contents[i] in contents;
      SixteenBlocks(|contents[i]|);
      GoodPiece(w, contents, sha, i);
    }
  }
}
