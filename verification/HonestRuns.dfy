/**
 * One honest peer, a torrent of pieces of 16 blocks: the download from its start, piece after piece, in whatever
 * order blocks are answered and sends are served.
 */
module HonestRuns {
  import opened Bytes
  import opened Pieces
  import opened Assembly
  import opened Swarm
  import opened HonestSwarm

  // What the peer answers with, what the torrent's hashes are, and which pieces the peer has.
  datatype Scene = Scene(contents: seq<seq<byte>>, hashes: seq<seq<byte>>, has: set<int>, sha: Sha) {
    predicate Valid() {
      && |contents| == |hashes| > 0 && 0 in has
      && (forall content <- contents :: |content| == |contents[0]|)
      && Tiles(|contents[0]|) == BLOCKS
    }

    function Count(): nat { |contents| }

    predicate Right(i: int)
      requires |contents| == |hashes|
    {
      0 <= i < |contents| && sha(contents[i]) == hashes[i]
    }
  }

  function From(a: nat, b: nat): (s: seq<int>)
    requires a <= b
    ensures forall x :: x in s <==> a <= x < b
    decreases b - a
  {
    if a == b then [] else [a] + From(a + 1, b)
  }

  lemma {:induction false} FromSnoc(a: nat, b: nat)
    requires a <= b
    ensures From(a, b + 1) == From(a, b) + [b]
    decreases b - a
  {
    if a < b { FromSnoc(a + 1, b); }
  }

  lemma {:induction false} FromIs(a: nat, b: nat)
    requires a <= b
    ensures From(a, b) == seq(b - a, k => a + k)
    decreases b - a
  {
    if a < b {
      FromIs(a + 1, b);
    }
  }

  // The peer is on piece `j`. Behind the queued pieces stand those that serving it while it was busy has put back.
  ghost predicate Scheduled(s: State, c: Scene, j: nat, junk: seq<int>, sent: bool) {
    && j < c.Count()
    && s.peers == [Peer(j, false, true, Some(c.has))]
    && s.queue == From(j + 1, c.Count()) + junk && (forall x <- junk :: 0 <= x <= j)
    && s.pending == (if sent then Some(Params(j, 0)) else None)
    && s.announced == s.saved == From(0, j)
  }

  // The pieces before `j` are complete, and those behind it have not been asked for.
  ghost predicate Booked(w: World, c: Scene, j: nat) {
    && c.Valid() && j < c.Count() && j in c.has && Good(w, c.contents)
    && (forall i :: 0 <= i < c.Count() ==> w.s.pieces[i].hash == c.hashes[i])
    && (forall i :: 0 <= i < j ==> w.answered[i] == Range(BLOCKS))
    && (forall i :: j < i < c.Count() ==> w.answered[i] == {} && w.s.pieces[i].totalRequested == 0)
  }

  ghost predicate OnPiece(w: World, c: Scene, j: nat, junk: seq<int>, sent: bool) {
    && Booked(w, c, j) && Scheduled(w.s, c, j, junk, sent)
    && (!sent ==> Outstanding(w.s.pieces[j], w.answered[j]) != {})
  }

  // Only the piece the peer is on has changed.
  lemma BooksKept(w: World, v: World, c: Scene, j: nat)
    requires Booked(w, c, j) && Good(v, c.contents)
    requires v.s.pieces == w.s.pieces[j := v.s.pieces[j]] && v.answered == w.answered[j := v.answered[j]]
    requires SamePiece(v.s.pieces[j], w.s.pieces[j])
    ensures Booked(v, c, j)
  {
    hide Consistent, Range, Tiles;
  }

  // The peer has gone on to the next piece.
  lemma BooksMoveOn(w: World, v: World, c: Scene, j: nat)
    requires Booked(w, c, j) && w.answered[j] == Range(BLOCKS) && j + 1 < c.Count() && j + 1 in c.has
    requires Good(v, c.contents) && v.answered == w.answered
    requires v.s.pieces == w.s.pieces[j + 1 := v.s.pieces[j + 1]] && SamePiece(v.s.pieces[j + 1], w.s.pieces[j + 1])
    ensures Booked(v, c, j + 1)
  {
    hide Consistent, Range, Tiles;
  }

  lemma PieceFacts(w: World, c: Scene, i: int)
    requires c.Valid() && Good(w, c.contents) && 0 <= i < c.Count()
    ensures |w.s.pieces| == |w.answered| == |w.mark| == c.Count() && WellFormed(w.s)
    ensures PieceGood(w, c.contents, i) && Consistent(w.s.pieces[i], c.contents[i], w.answered[i])
    ensures Tiles(|c.contents[i]|) == BLOCKS
    ensures w.s.pieces[i].receivedCount == |w.answered[i]| <= BLOCKS
    ensures w.s.pieces[i].DownloadFinished() <==> w.answered[i] == Range(BLOCKS)
  {
    hide Range;
    assert PieceGood(w, c.contents, i);
    assert c.contents[i] in c.contents;
    AnsweredAreTiles(w.s.pieces[i], c.contents[i], w.answered[i]);
    AllAnswered(w.answered[i], BLOCKS);
    RangeSize(BLOCKS);
  }

  lemma AnsweredAreTiles(p: PieceState, content: seq<byte>, answered: set<int>)
    requires Consistent(p, content, answered)
    ensures Tiles(p.totalRequested) <= Tiles(|content|) && answered <= Range(Tiles(|content|))
    ensures p.receivedCount == |answered| && p.backlog + p.receivedCount == Tiles(p.totalRequested)
  {
    hide Range;
  }

  // Only the piece the peer is on has requests that can be answered.
  lemma OnlyItsPiece(w: World, c: Scene, j: nat, junk: seq<int>, sent: bool, step: Step)
    requires OnPiece(w, c, j, junk, sent) && Honest(w, c.contents, c.sha, step) && (step.Block? || step.TryDownload?)
    ensures if step.Block? then step.index == j && step.peer == 0 else sent
  {
    hide Consistent, Range, Tiles;
    if step.Block? && step.index != j {
      PieceFacts(w, c, step.index);
      AnsweredAreTiles(w.s.pieces[step.index], c.contents[step.index], w.answered[step.index]);
      NoTiles(0, 0);
    }
  }

  // ----- one step at a time

  // Any outstanding block of its piece comes in.
  lemma BlockComes(w: World, c: Scene, j: nat, junk: seq<int>, sent: bool, k: int)
    requires OnPiece(w, c, j, junk, sent) && k in Outstanding(w.s.pieces[j], w.answered[j])
    ensures 0 <= k < Tiles(|c.contents[j]|)
    ensures var step := Block(0, j, k * BLOCK_LENGTH, Slice(c.contents[j], k));
            && Honest(w, c.contents, c.sha, step)
            && var v := NextWorld(w, c.contents, c.sha, step);
            && OnPiece(v, c, j, junk, true)
            && |v.answered[j]| == |w.answered[j]| + 1 && v.answered[j] == w.answered[j] + {k}
  {
    hide Consistent, Outstanding, Tiles, Slice, Range, Good, From, Booked;
    BookedMeans(w, c, j);
    PieceFacts(w, c, j);
    AnswerIsConsistent(w.s.pieces[j], c.contents[j], w.answered[j], k);
    assert k * BLOCK_LENGTH / BLOCK_LENGTH == k;
    NotAnswered(w.s.pieces[j], w.answered[j], k);
    var step := Block(0, j, k * BLOCK_LENGTH, Slice(c.contents[j], k));
    assert Honest(w, c.contents, c.sha, step);
    HonestStepIsGood(w, c.contents, c.sha, step);
    BooksKept(w, NextWorld(w, c.contents, c.sha, step), c, j);
  }

  lemma BookedMeans(w: World, c: Scene, j: nat)
    requires Booked(w, c, j)
    ensures c.Valid() && j < c.Count() && j in c.has && Good(w, c.contents)
    ensures |w.s.pieces| == c.Count() && forall i :: 0 <= i < c.Count() ==> w.s.pieces[i].hash == c.hashes[i]
  {
    hide Good, Range;
    assert Good(w, c.contents);
    GoodSizes(w, c.contents);
  }

  lemma GoodSizes(w: World, contents: seq<seq<byte>>)
    requires Good(w, contents)
    ensures WellFormed(w.s) && |w.s.pieces| == |w.answered| == |w.mark| == |contents|
  {
  }

  lemma NotAnswered(p: PieceState, answered: set<int>, k: int)
    requires k in Outstanding(p, answered)
    ensures k !in answered
  {
  }

  // A fetch that goes on with an unfinished piece changes nothing but that piece and the requests.
  lemma FetchGoesOn(s: State, sha: Sha, k: nat, index: int)
    requires WellFormed(s) && k < |s.peers| && IsPiece(s, index) && IsPiece(s, Current(s, k, index))
    requires s.peers[k].HasPiece(Current(s, k, index)) && !s.pieces[Current(s, k, index)].DownloadFinished()
    ensures var curr := Current(s, k, index);
            var (t, r) := Fetch(s, sha, k, index);
            && r == -1 && |t.pieces| == |s.pieces|
            && t == s.(queue := Offered(s, k, index), peers := s.peers[k := s.peers[k].(currPiece := curr)],
                       pieces := s.pieces[curr := t.pieces[curr]], sent := t.sent)
            && SamePiece(t.pieces[curr], s.pieces[curr])
  {
    FetchKeepsPiece(s, sha, k, index, Current(s, k, index));
    hide PieceState.Pipeline, SamePiece;
    var curr := Current(s, k, index);
    assert s.pieces == s.pieces[curr := s.pieces[curr]];
  }

  // A send is served, and the peer goes on with the piece it is on, or with the one it is handed.
  lemma ScheduleGoesOn(s: State, c: Scene, j: nat, k: int)
    requires WellFormed(s) && Enabled(s, c.sha, TryDownload)
    requires s.pending == Some(Params(j, 0)) && |s.pieces| == c.Count()
    requires s.peers == [Peer(k, false, true, Some(c.has))] && (k == j || k == -1)
    requires j in c.has && !s.pieces[j].DownloadFinished()
    ensures var t := Next(s, c.sha, TryDownload);
            && IsPiece(s, j) && |t.pieces| == |s.pieces| && t.pieces == s.pieces[j := t.pieces[j]]
            && t.pieces[j] == Fetch(s.(pending := None), c.sha, 0, j).0.pieces[j] && SamePiece(t.pieces[j], s.pieces[j])
            && t.peers == [Peer(j, false, true, Some(c.has))] && t.pending == None
            && t.queue == (if k == j then s.queue + [j] else s.queue)
            && t.announced == s.announced && t.saved == s.saved
  {
    hide Fetch, AfterTry, SamePiece;
    FetchGoesOn(s.(pending := None), c.sha, 0, j);
    TryCases(s, c.sha);
  }

  // A send is served before the last block has come.
  lemma ServedUnfinished(w: World, c: Scene, j: nat, junk: seq<int>)
    requires OnPiece(w, c, j, junk, true) && |w.answered[j]| < BLOCKS
    ensures Honest(w, c.contents, c.sha, TryDownload)
    ensures var v := NextWorld(w, c.contents, c.sha, TryDownload);
            OnPiece(v, c, j, junk + [j], false) && v.answered == w.answered
  {
    hide Consistent, Outstanding, Tiles, Range, Fetch, Next, Booked, Good, From, SamePiece;
    var idle := w.s.(pending := None);
    BookedMeans(w, c, j);
    PieceFacts(w, c, j);
    NothingPopped(w, c, j);
    ScheduleGoesOn(w.s, c, j, j);
    BooksOfAll(w, c);
    SameBooks(w, idle, c.contents);
    FetchNeverStalls(w.(s := idle), c.contents, c.sha, 0, j);
    HonestStepIsGood(w, c.contents, c.sha, TryDownload);
    BooksKept(w, NextWorld(w, c.contents, c.sha, TryDownload), c, j);
    assert From(j + 1, c.Count()) + junk + [j] == From(j + 1, c.Count()) + (junk + [j]);
  }

  lemma BooksOfAll(w: World, c: Scene)
    requires Good(w, c.contents)
    ensures |w.s.pieces| == |w.answered| == |w.mark| == |c.contents|
    ensures forall i :: 0 <= i < |c.contents| ==> PieceGood(w, c.contents, i)
  {
    hide PieceGood;
  }

  // A send for an unfinished piece can be served.
  lemma NothingPopped(w: World, c: Scene, j: nat)
    requires c.Valid() && Good(w, c.contents) && j < c.Count() && w.s.pending == Some(Params(j, 0)) && |w.s.peers| == 1
    requires w.s.peers[0].currPiece == j || w.s.peers[0].currPiece == -1
    requires |w.s.pieces| == c.Count() && !w.s.pieces[j].DownloadFinished()
    ensures Honest(w, c.contents, c.sha, TryDownload)
  {
    hide Consistent, PieceState.VerifyIntegrity, Tiles, Range;
    OnlyPopsFail(w, c.contents, c.sha, TryDownload);
  }

  // When the last block has come, the piece's data is its content.
  lemma PieceIsRight(w: World, c: Scene, i: int)
    requires c.Valid() && Good(w, c.contents) && 0 <= i < c.Count() && w.answered[i] == Range(BLOCKS)
    requires w.s.pieces[i].hash == c.hashes[i]
    ensures w.s.pieces[i].DownloadFinished() && w.s.pieces[i].backlog == 0 && AskedInFull(w.s.pieces[i])
    ensures w.s.pieces[i].VerifyIntegrity(c.sha) <==> c.Right(i)
  {
    hide Range;
    PieceFacts(w, c, i);
    FinishedIsComplete(w.s.pieces[i], c.contents[i], w.answered[i], c.sha);
    AnsweredAreTiles(w.s.pieces[i], c.contents[i], w.answered[i]);
    RangeSize(BLOCKS);
  }

  // The send behind the last block of a right piece is served: it is announced, and the head of the queue popped.
  lemma ServedAnnounces(w: World, c: Scene, j: nat, junk: seq<int>) returns (popped: State)
    requires OnPiece(w, c, j, junk, true) && |w.answered[j]| == BLOCKS && c.Right(j)
    ensures Honest(w, c.contents, c.sha, TryDownload)
    ensures var queue := From(j + 1, c.Count()) + (junk + [j]);
            && popped == w.s.(pending := None, queue := queue[1..], peers := [Peer(-1, false, true, Some(c.has))],
                              announced := From(0, j + 1), saved := From(0, j + 1))
            && WellFormed(popped) && IsPiece(popped, queue[0])
            && Next(w.s, c.sha, TryDownload) == Fetch(popped, c.sha, 0, queue[0]).0
  {
    hide Consistent, Outstanding, Tiles, Range, Fetch, AfterTry, PieceState.VerifyIntegrity, From, Good, Booked;
    var s := w.s;
    BookedMeans(w, c, j);
    PieceFacts(w, c, j);
    AllAnswered(w.answered[j], BLOCKS);
    PieceIsRight(w, c, j);
    OnlyPopsFail(w, c.contents, c.sha, TryDownload);
    TryCases(s, c.sha);
    FetchOffers(s.(pending := None), c.sha, 0, j);
    FromSnoc(0, j);
    assert s.queue + [j] == From(j + 1, c.Count()) + (junk + [j]);
    var fetched := Fetch(s.(pending := None), c.sha, 0, j).0;
    popped := fetched.(saved := fetched.saved + [j], queue := fetched.queue[1..]);
  }

  // It is the next piece of the torrent, and the peer has it.
  lemma ServedNextPiece(w: World, c: Scene, j: nat, junk: seq<int>)
    requires OnPiece(w, c, j, junk, true) && |w.answered[j]| == BLOCKS && c.Right(j)
    requires j + 1 < c.Count() && j + 1 in c.has
    ensures Honest(w, c.contents, c.sha, TryDownload)
    ensures var v := NextWorld(w, c.contents, c.sha, TryDownload);
            OnPiece(v, c, j + 1, junk + [j], false) && v.answered == w.answered
  {
    hide Consistent, Outstanding, Tiles, Range, Fetch, Next, Booked, Good, SamePiece, OfferNext;
    var popped := ServedAnnounces(w, c, j, junk);
    assert (From(j + 1, c.Count()) + (junk + [j]))[1..] == From(j + 2, c.Count()) + (junk + [j]);
    hide From;
    HandedNext(w, c, j, popped);
    HonestStepIsGood(w, c.contents, c.sha, TryDownload);
    PieceFacts(w, c, j);
    AllAnswered(w.answered[j], BLOCKS);
    BooksMoveOn(w, NextWorld(w, c.contents, c.sha, TryDownload), c, j);
  }

  // An idle peer that has the next piece is handed it and asks for its first blocks.
  lemma HandedNext(w: World, c: Scene, j: nat, popped: State)
    requires Booked(w, c, j) && j + 1 < c.Count() && j + 1 in c.has
    requires WellFormed(popped) && popped.pieces == w.s.pieces && popped.sent == w.s.sent
    requires popped.peers == [Peer(-1, false, true, Some(c.has))] && IsPiece(popped, j + 1)
    ensures Good(w, c.contents) && |w.s.pieces| == |w.answered| == c.Count() && c.Valid()
    ensures var t := Fetch(popped, c.sha, 0, j + 1).0;
            && t == popped.(peers := [Peer(j + 1, false, true, Some(c.has))],
                            pieces := w.s.pieces[j + 1 := t.pieces[j + 1]], sent := t.sent)
            && |t.pieces| == c.Count() && SamePiece(t.pieces[j + 1], w.s.pieces[j + 1])
            && Outstanding(t.pieces[j + 1], w.answered[j + 1]) != {}
  {
    hide Consistent, Outstanding, Tiles, Range, Fetch, Booked, Good, SamePiece;
    BookedMeans(w, c, j);
    NotStarted(w, c, j);
    BooksOfAll(w, c);
    SameBooks(w, popped, c.contents);
    FetchGoesOn(popped, c.sha, 0, j + 1);
    FetchNeverStalls(w.(s := popped), c.contents, c.sha, 0, j + 1);
  }

  lemma NotStarted(w: World, c: Scene, j: nat)
    requires Booked(w, c, j) && j + 1 < c.Count()
    ensures |w.s.pieces| == c.Count() && !w.s.pieces[j + 1].DownloadFinished() && Tiles(|c.contents[j + 1]|) == BLOCKS
  {
    hide Consistent, Tiles, Range;
    PieceFacts(w, c, j + 1);
    EmptyIsNotAll();
  }

  lemma EmptyIsNotAll()
    ensures Range(BLOCKS) != {}
  {
    assert 0 in Range(BLOCKS);
  }

  // Everything is complete and announced, and the peer idle; `queue` is what is left in the work queue.
  ghost predicate AllDone(w: World, c: Scene, queue: seq<int>) {
    && c.Valid() && Good(w, c.contents)
    && (forall i :: 0 <= i < c.Count() ==> w.s.pieces[i].hash == c.hashes[i] && w.answered[i] == Range(BLOCKS))
    && w.s.peers == [Peer(-1, false, true, Some(c.has))]
    && w.s.queue == queue && (forall x <- queue :: 0 <= x < c.Count())
    && (forall i :: 0 <= i < c.Count() ==> i in w.s.announced)
  }

  // The download has just ended: every piece has been saved, in order, and one announced twice.
  ghost predicate Complete(w: World, c: Scene) {
    && AllDone(w, c, w.s.queue) && w.s.pending == None
    && w.s.saved == From(0, c.Count()) && exists x :: w.s.announced == w.s.saved + [x]
  }

  // Every piece is right and the peer has them all.
  predicate Sound(c: Scene) {
    c.Valid() && forall i :: 0 <= i < c.Count() ==> c.Right(i) && i in c.has
  }

  // There is no next piece: what is popped is a finished piece, which is announced once more and not saved.
  lemma ServedLastPiece(w: World, c: Scene, j: nat, junk: seq<int>)
    requires OnPiece(w, c, j, junk, true) && |w.answered[j]| == BLOCKS && j + 1 == c.Count() && Sound(c)
    ensures Honest(w, c.contents, c.sha, TryDownload)
    ensures var v := NextWorld(w, c.contents, c.sha, TryDownload);
            Complete(v, c) && v.s.queue == (junk + [j])[1..]
  {
    hide Consistent, Outstanding, Tiles, Range, Fetch, Next, Booked, Good, PieceState.VerifyIntegrity;
    var popped := ServedAnnounces(w, c, j, junk);
    var next := (junk + [j])[0];
    assert From(j + 1, c.Count()) + (junk + [j]) == junk + [j];
    hide From;
    LastIsAnswered(w, c, j);
    BookedMeans(w, c, j);
    PieceIsRight(w, c, next);
    FetchOffers(popped, c.sha, 0, next);
    HonestStepIsGood(w, c.contents, c.sha, TryDownload);
    var v := NextWorld(w, c.contents, c.sha, TryDownload);
    assert v.s.announced == v.s.saved + [next];
  }

  lemma LastIsAnswered(w: World, c: Scene, j: nat)
    requires Booked(w, c, j) && |w.answered[j]| == BLOCKS && j + 1 == c.Count()
    ensures |w.answered| == c.Count() && forall i :: 0 <= i < c.Count() ==> w.answered[i] == Range(BLOCKS)
  {
    hide Consistent, Range, Tiles;
    PieceFacts(w, c, j);
    AllAnswered(w.answered[j], BLOCKS);
  }

  // ----- the run from the start

  function Opening(c: Scene): World
    requires c.Valid()
  {
    StartWorld(c.hashes, |c.contents[0]|, 1)
  }

  // An honest run of these steps leads from the start to `v`.
  ghost predicate ReachedBy(c: Scene, steps: seq<Step>, v: World) {
    && c.Valid() && Good(Opening(c), c.contents) && Good(v, c.contents)
    && HonestRun(Opening(c), c.contents, c.sha, steps) && WorldAfter(Opening(c), c.contents, c.sha, steps) == v
  }

  ghost predicate Reached(c: Scene, v: World) {
    exists steps :: ReachedBy(c, steps, v)
  }

  lemma StartIsReached(c: Scene)
    requires c.Valid()
    ensures ReachedBy(c, [], Opening(c))
  {
    StartIsGoodWorld(c.contents, c.hashes, |c.contents[0]|, 1);
  }

  lemma {:induction false} RunInTwo(w: World, contents: seq<seq<byte>>, sha: Sha, a: seq<Step>, b: seq<Step>)
    requires Good(w, contents)
    ensures HonestRun(w, contents, sha, a + b) <==>
              && HonestRun(w, contents, sha, a)
              && Good(WorldAfter(w, contents, sha, a), contents)
              && HonestRun(WorldAfter(w, contents, sha, a), contents, sha, b)
    ensures HonestRun(w, contents, sha, a + b) ==>
              WorldAfter(w, contents, sha, a + b) == WorldAfter(WorldAfter(w, contents, sha, a), contents, sha, b)
    decreases |a|
  {
    hide Good, Honest, NextWorld;
    if a == [] {
      assert [] + b == b;
    } else if Honest(w, contents, sha, a[0]) {
      HonestStepIsGood(w, contents, sha, a[0]);
      RunInTwo(NextWorld(w, contents, sha, a[0]), contents, sha, a[1..], b);
      assert (a + b)[0] == a[0] && (a + b)[1..] == a[1..] + b;
    } else {
      assert (a + b)[0] == a[0];
    }
  }

  lemma RunOfOne(w: World, contents: seq<seq<byte>>, sha: Sha, step: Step)
    requires Good(w, contents) && Honest(w, contents, sha, step)
    ensures HonestRun(w, contents, sha, [step])
    ensures WorldAfter(w, contents, sha, [step]) == NextWorld(w, contents, sha, step)
  {
    hide Good, Honest, NextWorld;
    HonestStepIsGood(w, contents, sha, step);
    assert [step][1..] == [];
  }

  lemma NextIsReachedBy(c: Scene, steps: seq<Step>, v: World, step: Step)
    requires ReachedBy(c, steps, v) && Honest(v, c.contents, c.sha, step)
    ensures ReachedBy(c, steps + [step], NextWorld(v, c.contents, c.sha, step))
  {
    hide Good, Honest, NextWorld, HonestRun, WorldAfter, Opening;
    HonestStepIsGood(v, c.contents, c.sha, step);
    RunOfOne(v, c.contents, c.sha, step);
    RunInTwo(Opening(c), c.contents, c.sha, steps, [step]);
  }

  lemma NextIsReached(c: Scene, v: World, step: Step)
    requires Reached(c, v) && Good(v, c.contents) && Honest(v, c.contents, c.sha, step)
    ensures Reached(c, NextWorld(v, c.contents, c.sha, step)) && Good(NextWorld(v, c.contents, c.sha, step), c.contents)
  {
    hide Good, Honest, NextWorld, ReachedBy;
    var steps :| ReachedBy(c, steps, v);
    NextIsReachedBy(c, steps, v, step);
    HonestStepIsGood(v, c.contents, c.sha, step);
  }

  function Beginning(c: Scene): seq<Step> { [Bitfield(0, c.has), Unchoke(0), TryDownload] }

  // The peer says what it has, unchokes this side and is served.
  lemma Begin(c: Scene) returns (v: World)
    requires c.Valid()
    ensures ReachedBy(c, Beginning(c), v) && OnPiece(v, c, 0, [], false) && v.answered[0] == {}
  {
    hide ReachedBy, Good, Fetch, AfterTry, Outstanding, Consistent, From, Booked, Tiles;
    StartIsReached(c);
    var start := Opening(c);
    StartIsBooked(c);
    BookedMeans(start, c, 0);
    GoodSizes(start, c.contents);
    NextIsReachedBy(c, [], start, Bitfield(0, c.has));
    var w := NextWorld(start, c.contents, c.sha, Bitfield(0, c.has));
    HonestStepIsGood(start, c.contents, c.sha, Bitfield(0, c.has));
    GoodSizes(w, c.contents);
    BooksKept(start, w, c, 0);
    NextIsReachedBy(c, [] + [Bitfield(0, c.has)], w, Unchoke(0));
    var u := NextWorld(w, c.contents, c.sha, Unchoke(0));
    HonestStepIsGood(w, c.contents, c.sha, Unchoke(0));
    BooksKept(w, u, c, 0);
    FromIs(1, c.Count());
    assert u.s.queue == From(1, c.Count());
    FirstServed(u, c);
    NextIsReachedBy(c, [] + [Bitfield(0, c.has)] + [Unchoke(0)], u, TryDownload);
    v := NextWorld(u, c.contents, c.sha, TryDownload);
    assert [] + [Bitfield(0, c.has)] + [Unchoke(0)] + [TryDownload] == Beginning(c);
  }

  lemma StartIsBooked(c: Scene)
    requires c.Valid()
    ensures Booked(Opening(c), c, 0) && Opening(c).answered[0] == {}
  {
    hide Good;
    StartIsGoodWorld(c.contents, c.hashes, |c.contents[0]|, 1);
  }

  lemma FirstServed(w: World, c: Scene)
    requires Booked(w, c, 0) && w.answered[0] == {}
    requires w.s.peers == [Peer(-1, false, true, Some(c.has))] && w.s.queue == From(1, c.Count())
    requires w.s.pending == Some(Params(0, 0)) && w.s.announced == w.s.saved == []
    ensures Honest(w, c.contents, c.sha, TryDownload)
    ensures var v := NextWorld(w, c.contents, c.sha, TryDownload);
            OnPiece(v, c, 0, [], false) && v.answered == w.answered
  {
    hide Consistent, Outstanding, Tiles, Range, Fetch, Next, Booked, Good, SamePiece;
    var idle := w.s.(pending := None);
    BookedMeans(w, c, 0);
    PieceFacts(w, c, 0);
    EmptyIsNotAll();
    NothingPopped(w, c, 0);
    ScheduleGoesOn(w.s, c, 0, -1);
    BooksOfAll(w, c);
    SameBooks(w, idle, c.contents);
    FetchNeverStalls(w.(s := idle), c.contents, c.sha, 0, 0);
    HonestStepIsGood(w, c.contents, c.sha, TryDownload);
    BooksKept(w, NextWorld(w, c.contents, c.sha, TryDownload), c, 0);
    assert From(1, c.Count()) + [] == From(1, c.Count());
  }

  // ----- every run of answers and sends

  predicate Answering(step: Step) { step.Block? || step.TryDownload? }

  ghost predicate InProgress(w: World, c: Scene) {
    Complete(w, c) || exists j: nat, junk: seq<int>, sent: bool :: OnPiece(w, c, j, junk, sent)
  }

  // The blocks still missing, twice, and one for a send that has not been served.
  ghost function Missing(w: World, c: Scene): int
    requires |w.s.peers| == 1 && |w.answered| == c.Count()
  {
    var j := w.s.peers[0].currPiece;
    if 0 <= j < c.Count() then 2 * (BLOCKS * (c.Count() - j) - |w.answered[j]|) + if w.s.pending.Some? then 1 else 0
    else 0
  }

  lemma InProgressMeans(w: World, c: Scene)
    requires InProgress(w, c)
    ensures Good(w, c.contents) && c.Valid() && |w.s.peers| == 1 && |w.answered| == |w.s.pieces| == c.Count()
  {
    hide Good, Range, From;
    if !Complete(w, c) {
      var j: nat, junk: seq<int>, sent: bool :| OnPiece(w, c, j, junk, sent);
      BookedMeans(w, c, j);
    }
    GoodSizes(w, c.contents);
  }

  // Once all is done no request is open.
  lemma NothingLeft(w: World, c: Scene, step: Step)
    requires Complete(w, c) && Answering(step)
    ensures !Honest(w, c.contents, c.sha, step)
  {
    hide Consistent, Range, Tiles, From;
    if step.Block? && IsPiece(w.s, step.index) {
      PieceFacts(w, c, step.index);
      AnsweredAreTiles(w.s.pieces[step.index], c.contents[step.index], w.answered[step.index]);
    }
  }

  // A step of a peer on piece `j`: what it leaves, and that less is missing.
  lemma StepOnPiece(w: World, c: Scene, j: nat, junk: seq<int>, sent: bool, step: Step)
    requires Sound(c) && OnPiece(w, c, j, junk, sent) && Answering(step) && Honest(w, c.contents, c.sha, step)
    ensures var v := NextWorld(w, c.contents, c.sha, step);
            InProgress(v, c) && |v.s.peers| == |w.s.peers| == 1 && |v.answered| == |w.answered| == c.Count()
            && Missing(v, c) < Missing(w, c)
  {
    hide Good, Booked, Outstanding, Tiles, Slice, Range, Consistent, From, Next, NextWorld;
    BookedMeans(w, c, j);
    GoodSizes(w, c.contents);
    OnlyItsPiece(w, c, j, junk, sent, step);
    PieceFacts(w, c, j);
    var v := NextWorld(w, c.contents, c.sha, step);
    if step.Block? {
      BlockComes(w, c, j, junk, sent, step.offset / BLOCK_LENGTH);
    } else if |w.answered[j]| < BLOCKS {
      ServedUnfinished(w, c, j, junk);
    } else if j + 1 < c.Count() {
      NotAskedFor(w, c, j);
      ServedNextPiece(w, c, j, junk);
    } else {
      ServedLastPiece(w, c, j, junk);
    }
    InProgressMeans(v, c);
  }

  lemma NotAskedFor(w: World, c: Scene, j: nat)
    requires Booked(w, c, j) && j + 1 < c.Count()
    ensures |w.answered| == c.Count() && w.answered[j + 1] == {}
  {
  }

  lemma StepAdvances(w: World, c: Scene, step: Step)
    requires Sound(c) && InProgress(w, c) && Answering(step) && Honest(w, c.contents, c.sha, step)
    ensures var v := NextWorld(w, c.contents, c.sha, step);
            InProgress(v, c) && |v.s.peers| == |w.s.peers| == 1 && |v.answered| == |w.answered| == c.Count()
            && Missing(v, c) < Missing(w, c)
  {
    hide OnPiece, Complete, Honest, Good, NextWorld, Missing, Sound;
    if Complete(w, c) {
      NothingLeft(w, c, step);
    } else {
      var j: nat, junk: seq<int>, sent: bool :| OnPiece(w, c, j, junk, sent);
      StepOnPiece(w, c, j, junk, sent, step);
    }
  }

  lemma AnyOf(open: set<int>) returns (k: int)
    requires open != {}
    ensures k in open
  {
    EmptyOrNot(open);
    k :| k in open;
  }

  lemma EmptyOrNot(open: set<int>)
    ensures open == {} || exists k :: k in open
  {
    if forall k :: k !in open { assert open == {}; }
  }

  // As long as something is missing there is a next step.
  lemma NextOnPiece(w: World, c: Scene, j: nat, junk: seq<int>, sent: bool) returns (step: Step)
    requires Sound(c) && OnPiece(w, c, j, junk, sent)
    ensures Answering(step) && Honest(w, c.contents, c.sha, step)
    ensures Missing(w, c) > 0 && j !in w.s.announced
  {
    hide Good, Booked, Outstanding, Tiles, Slice, Range, Consistent, Next, NextWorld;
    BookedMeans(w, c, j);
    GoodSizes(w, c.contents);
    PieceFacts(w, c, j);
    if !sent {
      var k := AnyOf(Outstanding(w.s.pieces[j], w.answered[j]));
      BlockComes(w, c, j, junk, sent, k);
      step := Block(0, j, k * BLOCK_LENGTH, Slice(c.contents[j], k));
      BookedMeans(NextWorld(w, c.contents, c.sha, step), c, j);
      PieceFacts(NextWorld(w, c.contents, c.sha, step), c, j);
    } else {
      step := TryDownload;
      if |w.answered[j]| < BLOCKS {
        ServedUnfinished(w, c, j, junk);
      } else {
        var popped := ServedAnnounces(w, c, j, junk);
      }
    }
  }

  ghost predicate AllAnnounced(w: World, c: Scene) {
    forall i :: 0 <= i < c.Count() ==> i in w.s.announced
  }

  // The run ends where everything has been announced, and nowhere else.
  lemma EndsWhenAnnounced(w: World, c: Scene)
    requires Sound(c) && InProgress(w, c)
    ensures Good(w, c.contents) && |w.s.peers| == 1 && |w.answered| == c.Count()
    ensures AllAnnounced(w, c) <==> !exists step :: Answering(step) && Honest(w, c.contents, c.sha, step)
    ensures AllAnnounced(w, c) <==> Complete(w, c)
    ensures Missing(w, c) >= 0
  {
    hide OnPiece, Honest, Good, Missing, Sound, From;
    InProgressMeans(w, c);
    if Complete(w, c) {
      forall step | Answering(step) ensures !Honest(w, c.contents, c.sha, step) { NothingLeft(w, c, step); }
      NothingMissing(w, c);
    } else {
      var j: nat, junk: seq<int>, sent: bool :| OnPiece(w, c, j, junk, sent);
      var step := NextOnPiece(w, c, j, junk, sent);
      OnPieceExists(w, c, j, junk, sent);
    }
  }

  lemma NothingMissing(w: World, c: Scene)
    requires Complete(w, c) && |w.answered| == c.Count()
    ensures |w.s.peers| == 1 && Missing(w, c) == 0
  {
  }

  lemma OnPieceExists(w: World, c: Scene, j: nat, junk: seq<int>, sent: bool)
    requires OnPiece(w, c, j, junk, sent)
    ensures j < c.Count()
  {
  }

  lemma {:induction false} AnsweringRun(w: World, c: Scene, steps: seq<Step>)
    requires Sound(c) && InProgress(w, c) && (forall step <- steps :: Answering(step))
    requires Good(w, c.contents) && HonestRun(w, c.contents, c.sha, steps)
    requires |w.s.peers| == 1 && |w.answered| == c.Count()
    ensures InProgress(WorldAfter(w, c.contents, c.sha, steps), c) && |steps| <= Missing(w, c)
    decreases |steps|
  {
    hide InProgress, Honest, Good, NextWorld, Missing, Sound;
    EndsWhenAnnounced(w, c);
    if steps != [] {
      assert steps[0] in steps && forall step <- steps[1..] :: step in steps;
      StepAdvances(w, c, steps[0]);
      HonestStepIsGood(w, c.contents, c.sha, steps[0]);
      AnsweringRun(NextWorld(w, c.contents, c.sha, steps[0]), c, steps[1..]);
    }
  }

  /**
   * The download completes, whatever order blocks are answered and sends are served in: after 32 steps for each piece
   * at most no step is left, and that is so exactly when every piece has been announced. Then every piece has been
   * saved, in order, with its content, and one announced twice.
   */
  lemma DownloadCompletes(c: Scene, steps: seq<Step>)
    requires Sound(c) && forall step <- steps :: Answering(step)
    ensures Good(Opening(c), c.contents)
    ensures HonestRun(Opening(c), c.contents, c.sha, Beginning(c) + steps) ==>
              var w := WorldAfter(Opening(c), c.contents, c.sha, Beginning(c) + steps);
              && |steps| <= 2 * BLOCKS * c.Count() && Good(w, c.contents)
              && (AllAnnounced(w, c) <==> !exists step :: Answering(step) && Honest(w, c.contents, c.sha, step))
              && (AllAnnounced(w, c) ==>
                    && w.s.saved == From(0, c.Count()) && (exists x :: w.s.announced == w.s.saved + [x])
                    && |w.s.pieces| == c.Count()
                    && forall i :: 0 <= i < c.Count() ==> w.s.pieces[i].data == c.contents[i])
  {
    hide Good, Honest, HonestRun, WorldAfter, OnPiece, From, Opening;
    StartIsReached(c);
    var v := Begin(c);
    if HonestRun(Opening(c), c.contents, c.sha, Beginning(c) + steps) {
      RunInTwo(Opening(c), c.contents, c.sha, Beginning(c), steps);
      var w := WorldAfter(v, c.contents, c.sha, steps);
      assert InProgress(v, c);
      InProgressMeans(v, c);
      AtTheBeginning(v, c);
      AnsweringRun(v, c, steps);
      EndsWhenAnnounced(w, c);
      if Complete(w, c) { CompleteIsRight(w, c); }
    }
  }

  lemma AtTheBeginning(v: World, c: Scene)
    requires OnPiece(v, c, 0, [], false) && |v.answered| == c.Count() && v.answered[0] == {}
    ensures |v.s.peers| == 1 && Missing(v, c) == 2 * BLOCKS * c.Count()
  {
  }

  lemma CompleteIsRight(w: World, c: Scene)
    requires Complete(w, c)
    ensures |w.s.pieces| == c.Count() && forall i :: 0 <= i < c.Count() ==> w.s.pieces[i].data == c.contents[i]
  {
    hide Consistent, Range, Tiles, From;
    forall i | 0 <= i < c.Count() ensures |w.s.pieces| == c.Count() && w.s.pieces[i].data == c.contents[i] {
      PieceFacts(w, c, i);
      FinishedIsComplete(w.s.pieces[i], c.contents[i], w.answered[i], c.sha);
    }
  }

  // ----- one run in full: each block's send is served before the next block comes

  lemma SomeBlock(w: World, c: Scene, j: nat, junk: seq<int>) returns (v: World)
    requires Reached(c, w) && OnPiece(w, c, j, junk, false)
    ensures Reached(c, v) && OnPiece(v, c, j, junk, true)
    ensures |v.answered| == |w.answered| == c.Count() && |v.answered[j]| == |w.answered[j]| + 1 <= BLOCKS
    ensures forall i :: 0 <= i < c.Count() && i != j ==> v.answered[i] == w.answered[i]
  {
    hide Reached, Good, Booked, Outstanding, Tiles, Slice, Range, Consistent, Next, From;
    BookedMeans(w, c, j);
    GoodSizes(w, c.contents);
    var k := AnyOf(Outstanding(w.s.pieces[j], w.answered[j]));
    BlockComes(w, c, j, junk, false, k);
    var step := Block(0, j, k * BLOCK_LENGTH, Slice(c.contents[j], k));
    NextIsReached(c, w, step);
    v := NextWorld(w, c.contents, c.sha, step);
    BookedMeans(v, c, j);
    PieceFacts(v, c, j);
  }

  // Up to the last block of the first piece.
  lemma {:induction false} FirstPiece(c: Scene, w: World, junk: seq<int>) returns (v: World, junk': seq<int>)
    requires Reached(c, w) && OnPiece(w, c, 0, junk, false) && |w.answered| == c.Count()
    ensures Reached(c, v) && OnPiece(v, c, 0, junk', true) && |v.answered| == c.Count() && |v.answered[0]| == BLOCKS
    decreases BLOCKS - |w.answered[0]|
  {
    hide Reached, OnPiece, NextWorld;
    v := SomeBlock(w, c, 0, junk);
    junk' := junk;
    if |v.answered[0]| < BLOCKS {
      ServedUnfinished(v, c, 0, junk);
      OnPieceIsGood(v, c, 0, junk, true);
      NextIsReached(c, v, TryDownload);
      v, junk' := FirstPiece(c, NextWorld(v, c.contents, c.sha, TryDownload), junk + [0]);
    }
  }

  lemma OnPieceIsGood(w: World, c: Scene, j: nat, junk: seq<int>, sent: bool)
    requires OnPiece(w, c, j, junk, sent)
    ensures c.Valid() && j < c.Count() && Good(w, c.contents) && |w.answered| == c.Count()
  {
    hide Good;
    BookedMeans(w, c, j);
    GoodSizes(w, c.contents);
  }

  lemma Started(c: Scene) returns (v: World)
    requires c.Valid()
    ensures Reached(c, v) && OnPiece(v, c, 0, [], false) && |v.answered| == c.Count() && v.answered[0] == {}
  {
    hide OnPiece, ReachedBy;
    v := Begin(c);
    OnPieceIsGood(v, c, 0, [], false);
  }

  /**
   * Peers that answer with the wrong bytes: the piece has all its blocks, fails its check when the last send is
   * served, and is queued with nobody on it.
   */
  lemma CorruptPieceIsReached(c: Scene)
    requires c.Valid() && !c.Right(0)
    ensures exists v: World ::
              && Reached(c, v) && IsPiece(v.s, 0) && Spoilt(v.s.pieces[0], c.sha)
              && 0 in v.s.queue && 0 !in v.s.announced && forall p <- v.s.peers :: p.currPiece != 0
  {
    hide Reached, OnPiece, Good;
    var w := Started(c);
    var junk: seq<int>;
    w, junk := FirstPiece(c, w, []);
    ServedWrong(w, c, junk);
    OnPieceIsGood(w, c, 0, junk, true);
    NextIsReached(c, w, TryDownload);
  }

  lemma ServedWrong(w: World, c: Scene, junk: seq<int>)
    requires OnPiece(w, c, 0, junk, true) && |w.answered| == c.Count() && |w.answered[0]| == BLOCKS && !c.Right(0)
    ensures c.Valid() && Good(w, c.contents) && Honest(w, c.contents, c.sha, TryDownload)
    ensures var t := NextWorld(w, c.contents, c.sha, TryDownload).s;
            && IsPiece(t, 0) && Spoilt(t.pieces[0], c.sha) && 0 in t.queue && 0 !in t.announced
            && forall p <- t.peers :: p.currPiece != 0
  {
    hide Consistent, Outstanding, Tiles, Range, AfterTry, PieceState.VerifyIntegrity, PieceState.Pipeline, Good, Booked;
    BookedMeans(w, c, 0);
    PieceFacts(w, c, 0);
    AllAnswered(w.answered[0], BLOCKS);
    PieceIsRight(w, c, 0);
    OnlyPopsFail(w, c.contents, c.sha, TryDownload);
    TryCases(w.s, c.sha);
  }

  /** A peer that lacks the second piece is handed it behind the announcement of the first, and keeps it out of view. */
  lemma StrandedPieceIsReached(c: Scene)
    requires c.Valid() && c.Right(0) && c.Count() > 1 && 1 !in c.has
    ensures exists v: World ::
              && Reached(c, v) && IsPiece(v.s, 1) && !Seen(v.s, 1)
              && v.s.peers == [Peer(1, false, true, Some(c.has))]
  {
    hide Reached, OnPiece, Good;
    var w := Started(c);
    var junk: seq<int>;
    w, junk := FirstPiece(c, w, []);
    ServedToOneThatLacks(w, c, junk);
    OnPieceIsGood(w, c, 0, junk, true);
    NextIsReached(c, w, TryDownload);
  }

  lemma ServedToOneThatLacks(w: World, c: Scene, junk: seq<int>)
    requires OnPiece(w, c, 0, junk, true) && |w.answered| == c.Count() && |w.answered[0]| == BLOCKS && c.Right(0)
    requires c.Count() > 1 && 1 !in c.has
    ensures c.Valid() && Good(w, c.contents) && Honest(w, c.contents, c.sha, TryDownload)
    ensures var t := NextWorld(w, c.contents, c.sha, TryDownload).s;
            IsPiece(t, 1) && !Seen(t, 1) && t.peers == [Peer(1, false, true, Some(c.has))]
  {
    hide Consistent, Outstanding, Tiles, Range, AfterTry, PieceState.Pipeline, Good, Booked, Next;
    BookedMeans(w, c, 0);
    var popped := ServedAnnounces(w, c, 0, junk);
    assert (From(1, c.Count()) + (junk + [0]))[1..] == From(2, c.Count()) + (junk + [0]);
    assert 1 !in popped.queue;
  }

  // The whole download; behind it the queue holds what the busy peer has put back, but for one index.
  lemma {:induction false} ByTurns(c: Scene, w: World, j: nat, junk: seq<int>) returns (v: World)
    requires Sound(c) && Reached(c, w) && OnPiece(w, c, j, junk, false) && |w.answered| == c.Count() && j < c.Count()
    requires |junk| == BLOCKS * j + |w.answered[j]|
    ensures Reached(c, v) && Complete(v, c) && |v.s.queue| == BLOCKS * c.Count() - 1
    decreases BLOCKS * (c.Count() - j) - |w.answered[j]|
  {
    hide Reached, OnPiece, NextWorld, Complete, Sound;
    var u := SomeBlock(w, c, j, junk);
    OnPieceIsGood(u, c, j, junk, true);
    if |u.answered[j]| < BLOCKS {
      ServedUnfinished(u, c, j, junk);
      NextIsReached(c, u, TryDownload);
      v := ByTurns(c, NextWorld(u, c.contents, c.sha, TryDownload), j, junk + [j]);
    } else if j + 1 < c.Count() {
      SoundMeans(c, j);
      SoundMeans(c, j + 1);
      OnPieceAhead(u, c, j, junk, true);
      ServedNextPiece(u, c, j, junk);
      NextIsReached(c, u, TryDownload);
      v := ByTurns(c, NextWorld(u, c.contents, c.sha, TryDownload), j + 1, junk + [j]);
    } else {
      ServedLastPiece(u, c, j, junk);
      NextIsReached(c, u, TryDownload);
      v := NextWorld(u, c.contents, c.sha, TryDownload);
    }
  }

  lemma SoundMeans(c: Scene, i: int)
    requires Sound(c) && 0 <= i < c.Count()
    ensures c.Valid() && c.Right(i) && i in c.has
  {
  }

  lemma OnPieceAhead(w: World, c: Scene, j: nat, junk: seq<int>, sent: bool)
    requires OnPiece(w, c, j, junk, sent) && j + 1 < c.Count()
    ensures |w.answered| == c.Count() && w.answered[j + 1] == {}
  {
    hide Good;
    OnPieceIsGood(w, c, j, junk, sent);
  }

  /** The download can be carried through. */
  lemma CompletionIsReached(c: Scene) returns (v: World)
    requires Sound(c)
    ensures Reached(c, v) && Complete(v, c) && |v.s.queue| == BLOCKS * c.Count() - 1
  {
    hide Reached, OnPiece, Complete;
    v := Started(c);
    v := ByTurns(c, v, 0, []);
  }

  // ----- behind it

  // Another unchoke puts a finished piece into the slot; serving it announces it again, and the next one too.
  lemma UnchokedAgain(w: World, c: Scene, queue: seq<int>)
    requires AllDone(w, c, queue) && w.s.pending == None && queue != []
    ensures Honest(w, c.contents, c.sha, Unchoke(0))
    ensures var v := NextWorld(w, c.contents, c.sha, Unchoke(0));
            AllDone(v, c, queue[1..]) && v.s.pending == Some(Params(queue[0], 0))
  {
    hide Good, Range, Tiles, From;
    GoodSizes(w, c.contents);
    assert forall x <- queue[1..] :: x in queue;
    HonestStepIsGood(w, c.contents, c.sha, Unchoke(0));
  }

  lemma ServedAgain(w: World, c: Scene, queue: seq<int>, x: int)
    requires Sound(c) && AllDone(w, c, queue) && w.s.pending == Some(Params(x, 0)) && 0 <= x < c.Count()
    ensures WellFormed(w.s) && Happens(w.s, TryDownload)
    ensures if queue == [] then !Survives(w.s, c.sha, TryDownload)
            else
              && Honest(w, c.contents, c.sha, TryDownload)
              && var v := NextWorld(w, c.contents, c.sha, TryDownload);
              AllDone(v, c, queue[1..]) && v.s.pending == None
  {
    hide Good, Range, Tiles, From, Consistent, Fetch, AfterTry, PieceState.VerifyIntegrity;
    var s := w.s;
    GoodSizes(w, c.contents);
    PieceIsRight(w, c, x);
    OnlyPopsFail(w, c.contents, c.sha, TryDownload);
    if queue != [] {
      TryCases(s, c.sha);
      FetchOffers(s.(pending := None), c.sha, 0, x);
      var fetched := Fetch(s.(pending := None), c.sha, 0, x).0;
      var popped := fetched.(saved := fetched.saved + [x], queue := fetched.queue[1..]);
      PieceIsRight(w, c, queue[0]);
      FetchOffers(popped, c.sha, 0, queue[0]);
      HonestStepIsGood(w, c.contents, c.sha, TryDownload);
    }
  }

  lemma {:induction false} Drained(c: Scene, w: World, queue: seq<int>) returns (v: World)
    requires Sound(c) && Reached(c, w) && AllDone(w, c, queue) && w.s.pending == None && |queue| % 2 == 1
    ensures Reached(c, v) && WellFormed(v.s) && Happens(v.s, TryDownload) && !Survives(v.s, c.sha, TryDownload)
    decreases |queue|
  {
    hide Reached, Good, Range, Tiles, From, NextWorld, Survives, WellFormed;
    UnchokedAgain(w, c, queue);
    assert queue[0] in queue;
    NextIsReached(c, w, Unchoke(0));
    v := NextWorld(w, c.contents, c.sha, Unchoke(0));
    ServedAgain(v, c, queue[1..], queue[0]);
    if |queue| > 1 {
      NextIsReached(c, v, TryDownload);
      v := Drained(c, NextWorld(v, c.contents, c.sha, TryDownload), queue[2..]);
    }
  }

  /** A complete download, and the unchokes that empty the queue behind it: a piece is popped from an empty queue. */
  lemma EmptyPopIsReached(c: Scene) returns (v: World)
    requires Sound(c)
    ensures Reached(c, v) && WellFormed(v.s) && Happens(v.s, TryDownload) && !Survives(v.s, c.sha, TryDownload)
  {
    hide Reached, AllDone, WellFormed, Survives, Sound, From;
    v := CompletionIsReached(c);
    assert |v.s.queue| == 2 * (8 * c.Count() - 1) + 1;
    v := Drained(c, v, v.s.queue);
  }
}
