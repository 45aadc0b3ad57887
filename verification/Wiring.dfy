/**
 * What the messages of the connections do to the swarm: the splitter of each connection on one side, the steps that
 * peers, pieces and work queue take on the other.
 */
module Wiring {
  import opened Bytes
  import opened Pieces
  import opened Splitter = FrameSplitter
  import opened Wire = WireMessages
  import S = Swarm

  // Which pieces `has_piece` finds in the bytes of a bitfield. It does not test its index against their number.
  type Bits = seq<byte> -> set<int>

  // The step a handler takes on a message from peer `k`; other messages touch nothing that is shared.
  function StepOf(bits: Bits, k: nat, body: seq<byte>): Option<S.Step>
    requires |body| > 0
  {
    if body[0] == BITFIELD && |body| >= 6 then Some(S.Bitfield(k, bits(body[5..])))
    else if body[0] == UNCHOKE then Some(S.Unchoke(k))
    else if body[0] == CHOKE then Some(S.Choke(k))
    else if body[0] == PIECE && |body| >= 9 then Some(S.Block(k, Field(body, 0), Field(body, 1), body[9..]))
    else None
  }

  // What is known of the peer's pieces after a message.
  function Known(bits: Bits, before: Option<set<int>>, body: seq<byte>): Option<set<int>>
    requires |body| > 0
  {
    if body[0] == BITFIELD && |body| >= 6 then Some(bits(body[5..])) else before
  }

  function KnownAfter(bits: Bits, before: Option<set<int>>, bodies: seq<seq<byte>>): Option<set<int>>
    requires Framable(bodies)
    decreases |bodies|
  {
    if bodies == [] then before else KnownAfter(bits, Known(bits, before, bodies[0]), bodies[1..])
  }

  // A message that ends the process in its handler, whatever the swarm is like.
  predicate TooShort(body: seq<byte>)
    requires |body| > 0
  {
    (body[0] == BITFIELD && |body| < 6) || (body[0] == PIECE && |body| < 9)
  }

  // The process lives through the message.
  predicate Lives(s: S.State, sha: Sha, bits: Bits, k: nat, body: seq<byte>)
    requires S.WellFormed(s) && k < |s.peers| && s.peers[k].open && |body| > 0
  {
    var step := StepOf(bits, k, body);
    !TooShort(body) && (step.Some? ==> S.Survives(s, sha, step.value))
  }

  function AfterMessage(s: S.State, sha: Sha, bits: Bits, k: nat, body: seq<byte>): S.State
    requires S.WellFormed(s) && k < |s.peers| && s.peers[k].open && |body| > 0 && Lives(s, sha, bits, k, body)
  {
    var step := StepOf(bits, k, body);
    if step.Some? then S.Next(s, sha, step.value) else s
  }

  // `block` has come to lie at `offset` of piece `index`, and nothing else has changed but its counters and the slot.
  ghost predicate Landed(s: S.State, t: S.State, k: nat, index: int, offset: int, block: seq<byte>) {
    && 0 <= index < |s.pieces| == |t.pieces| && 0 <= offset && offset + |block| <= |s.pieces[index].data|
    && (forall i :: 0 <= i < |s.pieces| && i != index ==> t.pieces[i] == s.pieces[i])
    && var p, q := s.pieces[index], t.pieces[index];
    && |q.data| == |p.data|
    && (forall j :: 0 <= j < |block| ==> q.data[offset + j] == block[j])
    && (forall m :: 0 <= m < |p.data| && !(offset <= m < offset + |block|) ==> q.data[m] == p.data[m])
    && q.index == p.index && q.hash == p.hash && q.totalRequested == p.totalRequested
    && q.receivedCount == p.receivedCount + 1 && q.receivedBytes == p.receivedBytes + |block|
    && q.backlog == p.backlog - 1
    && t.pending == Some(S.Params(index, k)) && t.queue == s.queue && t.peers == s.peers
    && t.sent == s.sent && t.announced == s.announced && t.saved == s.saved
  }

  // Every PIECE the process lives through lands its bytes behind the ninth.
  lemma PieceLands(s: S.State, sha: Sha, bits: Bits, k: nat, body: seq<byte>)
    requires S.WellFormed(s) && k < |s.peers| && s.peers[k].open && |body| > 0 && body[0] == PIECE
    ensures Lives(s, sha, bits, k, body) <==>
              && |body| >= 9 && S.IsPiece(s, Field(body, 0)) && 0 <= Field(body, 1)
              && Field(body, 1) + |body| - 9 <= s.pieces[Field(body, 0)].Length()
    ensures Lives(s, sha, bits, k, body) ==>
              Landed(s, AfterMessage(s, sha, bits, k, body), k, Field(body, 0), Field(body, 1), body[9..])
  {
    hide Field, S.WellFormed;
  }

  // The connection expects blocks of these pieces.
  ghost predicate Fit(e: Expectation, s: S.State) {
    e.pieces == |s.pieces| && forall p <- s.pieces :: p.Length() == e.pieceLength
  }

  /** Splitter and swarm judge alike: a message is fatal for one exactly if the process does not live through it. */
  lemma JudgedAlike(e: Expectation, link: Link, s: S.State, sha: Sha, bits: Bits, k: nat, body: seq<byte>)
    requires S.WellFormed(s) && k < |s.peers| && s.peers[k].open && |body| > 0 && Fit(e, s)
    requires body[0] == UNCHOKE ==> (e.queued(link.unchokes) <==> s.queue != [])
    ensures Lives(s, sha, bits, k, body) <==> JudgeMessage(e, link, body) != Halt(Fatal)
    ensures Lives(s, sha, bits, k, body) && s.peers[k].choked == link.choked ==>
              var t := AfterMessage(s, sha, bits, k, body);
              |t.peers| == |s.peers| && t.peers[k].choked == link.After(body).choked
              && t.peers[k].bitfield == Known(bits, s.peers[k].bitfield, body)
  {
    hide Field, S.WellFormed;
    if body[0] == PIECE && |body| >= 9 {
      var index: int := Field(body, 0);
      if S.IsPiece(s, index) { assert s.pieces[index] in s.pieces; }
    }
  }

  // A step leaves every piece as long as it was.
  lemma StepKeepsLengths(e: Expectation, s: S.State, sha: Sha, step: S.Step)
    requires S.WellFormed(s) && S.Enabled(s, sha, step) && Fit(e, s)
    ensures S.WellFormed(S.Next(s, sha, step)) && Fit(e, S.Next(s, sha, step))
  {
    S.StepWellFormed(s, sha, step);
    var t := S.Next(s, sha, step);
    forall i | 0 <= i < |t.pieces| ensures t.pieces[i].Length() == s.pieces[i].Length() {
      S.StepKeepsPiece(s, sha, step, i);
    }
    forall p <- t.pieces ensures p.Length() == e.pieceLength {
      var i :| 0 <= i < |t.pieces| && t.pieces[i] == p;
      assert s.pieces[i] in s.pieces;
    }
  }

  // Serving a send and closing a connection choke and unchoke nobody.
  lemma QuietStep(s: S.State, sha: Sha, step: S.Step, k: nat)
    requires S.WellFormed(s) && S.Enabled(s, sha, step) && (step.TryDownload? || step.Close?) && k < |s.peers|
    ensures var t := S.Next(s, sha, step);
            && |t.peers| == |s.peers|
            && t.peers[k].choked == s.peers[k].choked && t.peers[k].bitfield == s.peers[k].bitfield
  {
    hide S.Fetch, S.AfterTry, S.Announces, S.Overreads;
    if step.TryDownload? {
      S.TryCases(s, sha);
      hide S.Survives;
      var Params(index, j) := s.pending.value;
      var idle := s.(pending := None);
      S.FetchShape(idle, sha, j, index);
      var (fetched, r) := S.Fetch(idle, sha, j, index);
      if S.Fetches(s) && r != -1 {
        S.FetchShape(fetched.(saved := fetched.saved + [r], queue := fetched.queue[1..]), sha, j, fetched.queue[0]);
      }
    }
  }

  // What the event loop does next: deliver a message a connection has dispatched, serve a send, or close a connection.
  datatype Event = Deliver(peer: nat, body: seq<byte>) | Serve | Shut(peer: nat)

  function Quiet(event: Event): S.Step
    requires !event.Deliver?
  {
    if event.Serve? then S.TryDownload else S.Close(event.peer)
  }

  /**
   * The events can occur one after the other, until a message ends the process; and what each connection is told
   * about the shared queue at its UNCHOKEs is how the run finds it.
   */
  ghost predicate Accords(es: seq<Expectation>, links: seq<Link>, s: S.State, sha: Sha, bits: Bits, events: seq<Event>)
    requires S.WellFormed(s) && |es| == |links| == |s.peers|
    decreases |events|
  {
    events == [] ||
    match events[0]
    case Deliver(k, body) =>
      && k < |s.peers| && s.peers[k].open && 0 < |body| <= INT_MAX
      && (body[0] == UNCHOKE ==> (es[k].queued(links[k].unchokes) <==> s.queue != []))
      && (Lives(s, sha, bits, k, body) ==>
            (MessageWellFormed(s, sha, bits, k, body);
             var t := AfterMessage(s, sha, bits, k, body);
             Accords(es, links[k := links[k].After(body)], t, sha, bits, events[1..])))
    case _ =>
      && S.Enabled(s, sha, Quiet(events[0]))
      && (S.StepWellFormed(s, sha, Quiet(events[0]));
          Accords(es, links, S.Next(s, sha, Quiet(events[0])), sha, bits, events[1..]))
  }

  lemma MessageWellFormed(s: S.State, sha: Sha, bits: Bits, k: nat, body: seq<byte>)
    requires S.WellFormed(s) && k < |s.peers| && s.peers[k].open && |body| > 0 && Lives(s, sha, bits, k, body)
    ensures var t := AfterMessage(s, sha, bits, k, body); S.WellFormed(t) && |t.peers| == |s.peers|
  {
    hide S.Next, S.Survives, S.WellFormed, Field;
    var step := StepOf(bits, k, body);
    if step.Some? { S.StepWellFormed(s, sha, step.value); }
  }

  // The state the events lead to, unless a message ends the process on the way.
  ghost function StateAfter(s: S.State, sha: Sha, bits: Bits, events: seq<Event>): (t: Option<S.State>)
    requires S.WellFormed(s)
    decreases |events|
  {
    if events == [] then Some(s)
    else
      match events[0]
      case Deliver(k, body) =>
        if k < |s.peers| && s.peers[k].open && |body| > 0 && Lives(s, sha, bits, k, body) then
          MessageWellFormed(s, sha, bits, k, body);
          StateAfter(AfterMessage(s, sha, bits, k, body), sha, bits, events[1..])
        else None
      case _ =>
        if S.Enabled(s, sha, Quiet(events[0])) then
          S.StepWellFormed(s, sha, Quiet(events[0]));
          StateAfter(S.Next(s, sha, Quiet(events[0])), sha, bits, events[1..])
        else None
  }

  /**
   * From bytes to bytes: a PIECE written for (index, offset, block) and delivered puts the block there and changes no
   * other byte, or ends the process, exactly if there is no such place.
   */
  lemma PieceArrives(s: S.State, sha: Sha, bits: Bits, k: nat, index: int32, offset: int32, block: seq<byte>)
    requires S.WellFormed(s) && k < |s.peers| && s.peers[k].open
    ensures var t := StateAfter(s, sha, bits, [Deliver(k, PieceMessage(index, offset, block))]);
            && (t.Some? <==>
                  S.IsPiece(s, index) && 0 <= offset && offset + |block| <= s.pieces[index].Length())
            && (t.Some? ==> Landed(s, t.value, k, index, offset, block))
  {
    hide Lives, AfterMessage, Landed, Field, PieceMessage;
    var body := PieceMessage(index, offset, block);
    PieceIsRead(index, offset, block);
    PieceLands(s, sha, bits, k, body);
    if Lives(s, sha, bits, k, body) {
      MessageWellFormed(s, sha, bits, k, body);
      assert [Deliver(k, body)][1..] == [];
    }
  }

  // What connection `k` delivers.
  function BodiesOf(k: nat, events: seq<Event>): seq<seq<byte>> {
    if events == [] then []
    else
      (match events[0] case Deliver(j, body) => if j == k then [body] else [] case _ => [])
      + BodiesOf(k, events[1..])
  }

  // The splitter finds none of the messages fatal.
  predicate NoneFatal(e: Expectation, link: Link, bodies: seq<seq<byte>>)
    requires Framable(bodies)
    decreases |bodies|
  {
    bodies == [] ||
    (JudgeMessage(e, link, bodies[0]) != Halt(Fatal) && NoneFatal(e, link.After(bodies[0]), bodies[1..]))
  }

  ghost predicate Tied(es: seq<Expectation>, links: seq<Link>, s: S.State) {
    && |es| == |links| == |s.peers|
    && forall k :: 0 <= k < |es| ==> Fit(es[k], s) && s.peers[k].choked == links[k].choked
  }

  ghost predicate AllFramable(events: seq<Event>) {
    forall e <- events :: e.Deliver? ==> 0 < |e.body| <= INT_MAX
  }

  lemma {:induction false} BodiesAreFramable(k: nat, events: seq<Event>)
    requires AllFramable(events)
    ensures Framable(BodiesOf(k, events))
    decreases |events|
  {
    if events != [] {
      assert events[0] in events && forall e <- events[1..] :: e in events;
      BodiesAreFramable(k, events[1..]);
    }
  }

  function Bitfields(s: S.State): (known: seq<Option<set<int>>>)
    ensures |known| == |s.peers|
  {
    seq(|s.peers|, k requires 0 <= k < |s.peers| => s.peers[k].bitfield)
  }

  // One message, on both sides.
  lemma MessageTied(es: seq<Expectation>, links: seq<Link>, s: S.State, sha: Sha, bits: Bits, k: nat, body: seq<byte>)
    requires S.WellFormed(s) && Tied(es, links, s) && k < |s.peers| && s.peers[k].open && |body| > 0
    requires body[0] == UNCHOKE ==> (es[k].queued(links[k].unchokes) <==> s.queue != [])
    ensures Lives(s, sha, bits, k, body) <==> JudgeMessage(es[k], links[k], body) != Halt(Fatal)
    ensures Lives(s, sha, bits, k, body) ==>
              var t := AfterMessage(s, sha, bits, k, body);
              && S.WellFormed(t) && Tied(es, links[k := links[k].After(body)], t)
              && Bitfields(t) == Bitfields(s)[k := Known(bits, s.peers[k].bitfield, body)]
  {
    hide S.WellFormed, JudgeMessage, Fit, Field, S.Survives, S.Next;
    JudgedAlike(es[k], links[k], s, sha, bits, k, body);
    if Lives(s, sha, bits, k, body) {
      MessageWellFormed(s, sha, bits, k, body);
      var t, links' := AfterMessage(s, sha, bits, k, body), links[k := links[k].After(body)];
      var step := StepOf(bits, k, body);
      forall j | 0 <= j < |es|
        ensures Fit(es[j], t) && t.peers[j].choked == links'[j].choked && (j != k ==> t.peers[j] == s.peers[j])
      {
        if step.Some? {
          StepKeepsLengths(es[j], s, sha, step.value);
          if j != k { OthersUntouched(s, sha, step.value, j); }
        }
      }
    }
  }

  lemma OthersUntouched(s: S.State, sha: Sha, step: S.Step, j: nat)
    requires S.WellFormed(s) && S.Enabled(s, sha, step) && !step.TryDownload? && !step.Close?
    requires j < |s.peers| && j != step.peer
    ensures |S.Next(s, sha, step).peers| == |s.peers| && S.Next(s, sha, step).peers[j] == s.peers[j]
  {
    hide S.WellFormed;
  }

  lemma QuietTied(es: seq<Expectation>, links: seq<Link>, s: S.State, sha: Sha, step: S.Step)
    requires S.WellFormed(s) && Tied(es, links, s) && S.Enabled(s, sha, step) && (step.TryDownload? || step.Close?)
    ensures S.WellFormed(S.Next(s, sha, step)) && Tied(es, links, S.Next(s, sha, step))
    ensures Bitfields(S.Next(s, sha, step)) == Bitfields(s)
  {
    hide S.WellFormed, Fit, S.Survives, S.Next;
    S.StepWellFormed(s, sha, step);
    forall j | 0 <= j < |es|
      ensures Fit(es[j], S.Next(s, sha, step)) && S.Next(s, sha, step).peers[j].choked == links[j].choked
              && S.Next(s, sha, step).peers[j].bitfield == s.peers[j].bitfield
    {
      StepKeepsLengths(es[j], s, sha, step);
      QuietStep(s, sha, step, j);
    }
  }

  lemma TiedMeans(es: seq<Expectation>, links: seq<Link>, s: S.State)
    requires Tied(es, links, s)
    ensures |es| == |links| == |s.peers| && forall k :: 0 <= k < |es| ==> s.peers[k].choked == links[k].choked
  {
  }

  lemma BodiesInFront(j: nat, k: nat, body: seq<byte>, events: seq<Event>)
    requires events != [] && events[0] == Deliver(k, body)
    ensures BodiesOf(j, events) == if j == k then [body] + BodiesOf(j, events[1..]) else BodiesOf(j, events[1..])
  {
    assert [] + BodiesOf(j, events[1..]) == BodiesOf(j, events[1..]);
  }

  // A message in front of the rest, for its own connection and for the others.
  lemma MessageOf(e: Expectation, link: Link, bits: Bits, before: Option<set<int>>, j: nat, k: nat, body: seq<byte>,
                  events: seq<Event>)
    requires events != [] && events[0] == Deliver(k, body) && AllFramable(events)
    ensures |body| > 0 && Framable(BodiesOf(j, events)) && Framable(BodiesOf(j, events[1..]))
    ensures var next := if j == k then link.After(body) else link;
            && (NoneFatal(e, link, BodiesOf(j, events))
                <==> (j == k ==> JudgeMessage(e, link, body) != Halt(Fatal))
                     && NoneFatal(e, next, BodiesOf(j, events[1..])))
            && LinkAfter(link, BodiesOf(j, events)) == LinkAfter(next, BodiesOf(j, events[1..]))
            && KnownAfter(bits, before, BodiesOf(j, events))
               == KnownAfter(bits, if j == k then Known(bits, before, body) else before, BodiesOf(j, events[1..]))
  {
    hide JudgeMessage, BodiesOf;
    assert events[0] in events && forall e <- events[1..] :: e in events;
    BodiesAreFramable(j, events);
    BodiesAreFramable(j, events[1..]);
    BodiesInFront(j, k, body, events);
    if j == k {
      assert BodiesOf(j, events)[1..] == BodiesOf(j, events[1..]);
    }
  }

  // What a run of events has come to, one connection at a time.
  ghost predicate Agrees(es: seq<Expectation>, links: seq<Link>, bits: Bits, known: seq<Option<set<int>>>,
                         t: Option<S.State>, events: seq<Event>)
    requires |es| == |links| == |known| && AllFramable(events)
  {
    && (forall k :: 0 <= k < |es| ==> Framable(BodiesOf(k, events)))
    && (t.Some? <==> forall k :: 0 <= k < |es| ==> NoneFatal(es[k], links[k], BodiesOf(k, events)))
    && (t.Some? ==>
          && |t.value.peers| == |es|
          && forall k :: 0 <= k < |es| ==>
               && t.value.peers[k].choked == LinkAfter(links[k], BodiesOf(k, events)).choked
               && t.value.peers[k].bitfield == KnownAfter(bits, known[k], BodiesOf(k, events)))
  }

  lemma NothingYet(es: seq<Expectation>, links: seq<Link>, bits: Bits, s: S.State)
    requires Tied(es, links, s)
    ensures Agrees(es, links, bits, Bitfields(s), Some(s), [])
  {
  }

  lemma AgreesOverMessage(es: seq<Expectation>, links: seq<Link>, bits: Bits, known: seq<Option<set<int>>>,
                          t: Option<S.State>, k: nat, body: seq<byte>, events: seq<Event>)
    requires |es| == |links| == |known| && k < |es| && events != [] && events[0] == Deliver(k, body)
    requires AllFramable(events) && AllFramable(events[1..]) && |body| > 0
    requires if JudgeMessage(es[k], links[k], body) == Halt(Fatal) then t.None?
             else Agrees(es, links[k := links[k].After(body)], bits, known[k := Known(bits, known[k], body)], t,
                         events[1..])
    ensures Agrees(es, links, bits, known, t, events)
  {
    hide JudgeMessage, Framable, NoneFatal, LinkAfter, KnownAfter, Known, BodiesOf;
    forall j: nat | j < |es|
      ensures Framable(BodiesOf(j, events)) && Framable(BodiesOf(j, events[1..]))
      ensures var next := links[k := links[k].After(body)][j];
              && (NoneFatal(es[j], links[j], BodiesOf(j, events))
                  <==> (j == k ==> JudgeMessage(es[j], links[j], body) != Halt(Fatal))
                       && NoneFatal(es[j], next, BodiesOf(j, events[1..])))
              && LinkAfter(links[j], BodiesOf(j, events)) == LinkAfter(next, BodiesOf(j, events[1..]))
              && KnownAfter(bits, known[j], BodiesOf(j, events))
                 == KnownAfter(bits, known[k := Known(bits, known[k], body)][j], BodiesOf(j, events[1..]))
    {
      MessageOf(es[j], links[j], bits, known[j], j, k, body, events);
    }
  }

  lemma AgreesOverQuiet(es: seq<Expectation>, links: seq<Link>, bits: Bits, known: seq<Option<set<int>>>,
                        t: Option<S.State>, events: seq<Event>)
    requires |es| == |links| == |known| && events != [] && !events[0].Deliver?
    requires AllFramable(events) && AllFramable(events[1..])
    requires Agrees(es, links, bits, known, t, events[1..])
    ensures Agrees(es, links, bits, known, t, events)
  {
    hide NoneFatal, LinkAfter, KnownAfter, Framable;
    forall k: nat ensures BodiesOf(k, events) == BodiesOf(k, events[1..]) {}
  }

  /**
   * Splitters and swarm agree over every run of events: no message ends the process if and only if no connection's
   * splitter finds one of its own messages fatal; who is choked, and what a peer has, is then what the messages say.
   */
  lemma {:induction false} RunsAgree(es: seq<Expectation>, links: seq<Link>, s: S.State, sha: Sha, bits: Bits,
                                       events: seq<Event>)
    requires S.WellFormed(s) && Tied(es, links, s) && Accords(es, links, s, sha, bits, events) && AllFramable(events)
    ensures |es| == |links| == |s.peers|
    ensures Agrees(es, links, bits, Bitfields(s), StateAfter(s, sha, bits, events), events)
    decreases |events|
  {
    hide S.WellFormed, Tied, S.Enabled, S.Next, Lives, AfterMessage, JudgeMessage, Agrees;
    TiedMeans(es, links, s);
    if events == [] {
      NothingYet(es, links, bits, s);
    } else {
      var rest := events[1..];
      assert events[0] in events && forall e <- rest :: e in events;
      match events[0]
      case Deliver(k, body) =>
        MessageTied(es, links, s, sha, bits, k, body);
        if Lives(s, sha, bits, k, body) {
          RunsAgree(es, links[k := links[k].After(body)], AfterMessage(s, sha, bits, k, body), sha, bits, rest);
        }
        AgreesOverMessage(es, links, bits, Bitfields(s), StateAfter(s, sha, bits, events), k, body, events);
      case _ =>
        QuietTied(es, links, s, sha, Quiet(events[0]));
        RunsAgree(es, links, S.Next(s, sha, Quiet(events[0])), sha, bits, rest);
        AgreesOverQuiet(es, links, bits, Bitfields(s), StateAfter(s, sha, bits, events), events);
    }
  }

  lemma {:induction false} AcceptedIsNotFatal(peer: Peer, link: Link, bodies: seq<seq<byte>>)
    requires Framable(bodies) && Accepted(peer, link, bodies)
    ensures NoneFatal(peer, link, bodies)
    decreases |bodies|
  {
    hide JudgeMessage;
    if bodies != [] {
      JudgeDispatches(peer, link, bodies[0]);
      AcceptedIsNotFatal(peer, link.After(bodies[0]), bodies[1..]);
    }
  }

  // The pieces a peer is known to have are what its last bits say.
  lemma {:induction false} KnownSnoc(bits: Bits, before: Option<set<int>>, bodies: seq<seq<byte>>, body: seq<byte>)
    requires Framable(bodies) && 0 < |body| <= INT_MAX
    ensures Framable(bodies + [body])
    ensures KnownAfter(bits, before, bodies + [body]) == Known(bits, KnownAfter(bits, before, bodies), body)
    decreases |bodies|
  {
    if bodies == [] {
      assert [] + [body] == [body] && [body][1..] == [];
    } else {
      assert (bodies + [body])[1..] == bodies[1..] + [body];
      KnownSnoc(bits, Known(bits, before, bodies[0]), bodies[1..], body);
    }
  }

  lemma {:induction false} KnownIsBits(bits: Bits, bodies: seq<seq<byte>>)
    requires Framable(bodies)
    ensures KnownAfter(bits, None, bodies) == if BitsOf(bodies) == [] then None else Some(bits(BitsOf(bodies)))
    decreases |bodies|
  {
    if bodies != [] {
      var last := |bodies| - 1;
      assert bodies[..last] + [bodies[last]] == bodies;
      KnownIsBits(bits, bodies[..last]);
      KnownSnoc(bits, None, bodies[..last], bodies[last]);
    }
  }

  // What the connections deliver is what their receive paths have dispatched of the bytes read.
  ghost predicate Dispatched(es: seq<Peer>, streams: seq<seq<byte>>, events: seq<Event>) {
    |es| == |streams| && forall k :: 0 <= k < |es| ==> BodiesOf(k, events) == Receive(es[k], streams[k]).messages
  }

  /**
   * From the start: whatever bytes the peers have sent, no message dispatched ends the process, and every
   * connection is choked exactly if its splitter says so and its peer has what its last BITFIELD says.
   */
  lemma DispatchedMessagesAreSafe(es: seq<Peer>, streams: seq<seq<byte>>, hashes: seq<seq<byte>>, length: nat, sha: Sha,
                                  bits: Bits, events: seq<Event>)
    requires forall e <- es :: e.pieces == |hashes| && e.pieceLength == length
    requires Dispatched(es, streams, events) && AllFramable(events)
    ensures S.WellFormed(S.Start(hashes, length, |es|))
    ensures var s := S.Start(hashes, length, |es|);
            Accords(es, seq(|es|, _ => FRESH), s, sha, bits, events) ==>
              var t := StateAfter(s, sha, bits, events);
              && t.Some? && |t.value.peers| == |es|
              && forall k :: 0 <= k < |es| ==>
                   && t.value.peers[k].choked == Receive(es[k], streams[k]).link.choked
                   && var kept := BitsOf(Receive(es[k], streams[k]).messages);
                   t.value.peers[k].bitfield == if kept == [] then None else Some(bits(kept))
  {
    hide Receive, NoneFatal, StateAfter, Accords;
    var s, links := S.Start(hashes, length, |es|), seq(|es|, _ => FRESH);
    S.StartIsGood(hashes, length, |es|);
    forall k | 0 <= k < |es| ensures Fit(es[k], s) { assert es[k] in es; }
    assert Tied(es, links, s);
    if Accords(es, links, s, sha, bits, events) {
      RunsAgree(es, links, s, sha, bits, events);
      forall k | 0 <= k < |es|
        ensures NoneFatal(es[k], links[k], BodiesOf(k, events))
                && LinkAfter(links[k], BodiesOf(k, events)) == Receive(es[k], streams[k]).link
                && var kept := BitsOf(Receive(es[k], streams[k]).messages);
                KnownAfter(bits, None, BodiesOf(k, events)) == if kept == [] then None else Some(bits(kept))
      {
        KnownIsBits(bits, BodiesOf(k, events));
        ReceiveAccepts(es[k], streams[k]);
        AcceptedIsNotFatal(es[k], FRESH, BodiesOf(k, events));
      }
    }
  }
}
