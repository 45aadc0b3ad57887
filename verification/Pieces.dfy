/** A piece and the blocks requested for it (include/piece.h, src/piece.cpp, the loop of `fetch_piece`). */
module Pieces {
  import opened Bytes

  const BLOCK_LENGTH := 16384
  const MAX_BACKLOG := 5
  const BLOCKS := 16

  // SHA-1, of which only that it is a function is used.
  type Sha = seq<byte> -> seq<byte>

  datatype Request = Request(index: int, offset: int, size: int)

  datatype PieceState = PieceState(
    index: int,
    hash: seq<byte>,
    data: seq<byte>,
    receivedCount: int,
    receivedBytes: int,
    backlog: int,
    totalRequested: int
  ) {
    function Length(): int { |data| }

    predicate DownloadFinished() { receivedCount == BLOCKS }

    // The hash is taken over as many bytes as have been received, from the front, if there are as many.
    predicate VerifyIntegrity(sha: Sha) {
      0 <= receivedBytes <= |data| && sha(data[..receivedBytes]) == hash
    }

    // What memory safety asks of a block: nothing in the code asks for it.
    predicate Fits(offset: int, block: seq<byte>) {
      0 <= offset && offset + |block| <= |data|
    }

    function Incoming(offset: int, block: seq<byte>): PieceState
      requires Fits(offset, block)
    {
      this.(data := data[..offset] + block + data[offset + |block|..],
            receivedCount := receivedCount + 1, receivedBytes := receivedBytes + |block|)
    }

    // Only the first `receivedBytes` bytes are cleared.
    function Reset(): PieceState
      requires 0 <= receivedBytes <= |data|
    {
      this.(data := seq(receivedBytes, _ => 0) + data[receivedBytes..],
            receivedCount := 0, receivedBytes := 0, backlog := 0, totalRequested := 0)
    }

    function NextRequest(): Request {
      Request(index, totalRequested,
              if totalRequested + BLOCK_LENGTH > Length() then Length() - totalRequested else BLOCK_LENGTH)
    }

    // The requests one `fetch_piece` sends, and the piece that has sent them.
    function Pipeline(): (PieceState, seq<Request>)
      decreases MAX_BACKLOG - backlog
    {
      if backlog < MAX_BACKLOG && totalRequested < Length() then
        var r := NextRequest();
        var (p, rest) := this.(backlog := backlog + 1, totalRequested := totalRequested + r.size).Pipeline();
        (p, [r] + rest)
      else (this, [])
    }
  }

  function NewPiece(index: int, hash: seq<byte>, length: nat): PieceState {
    PieceState(index, hash, seq(length, _ => 0), 0, 0, 0, 0)
  }

  /** A reset zeroes every byte that has been received and leaves those behind as they were. */
  lemma ResetClears(p: PieceState, at: int)
    requires 0 <= p.receivedBytes <= p.Length() && 0 <= at < p.Length()
    ensures var q := p.Reset();
            && q.Length() == p.Length() && q.data[at] == (if at < p.receivedBytes then 0 else p.data[at])
            && q.receivedCount == q.receivedBytes == q.backlog == q.totalRequested == 0
            && q.index == p.index && q.hash == p.hash
  {
  }

  function Requested(p: PieceState): PieceState {
    p.(backlog := p.backlog + 1, totalRequested := p.totalRequested + p.NextRequest().size)
  }

  lemma PipelineTurn(p: PieceState)
    ensures if p.backlog < MAX_BACKLOG && p.totalRequested < p.Length()
            then p.Pipeline() == (Requested(p).Pipeline().0, [p.NextRequest()] + Requested(p).Pipeline().1)
            else p.Pipeline() == (p, [])
  {
  }

  // All requests of a pipeline name its piece.
  lemma {:induction false} PipelineNames(p: PieceState)
    ensures forall r <- p.Pipeline().1 :: r.index == p.index
    decreases MAX_BACKLOG - p.backlog
  {
    PipelineTurn(p);
    if p.backlog < MAX_BACKLOG && p.totalRequested < p.Length() {
      PipelineNames(Requested(p));
    }
  }

  // ----- the requests for one piece among all that have been sent

  function RequestsFor(sent: seq<Request>, i: int): seq<Request> {
    if sent == [] then []
    else
      var last := sent[|sent| - 1];
      RequestsFor(sent[..|sent| - 1], i) + if last.index == i then [last] else []
  }

  lemma {:induction false} RequestsForSum(a: seq<Request>, b: seq<Request>, i: int)
    ensures RequestsFor(a + b, i) == RequestsFor(a, i) + RequestsFor(b, i)
    decreases |b|
  {
    if b == [] {
      assert a + b == a;
      assert RequestsFor(a, i) + [] == RequestsFor(a, i);
    } else {
      var last := |b| - 1;
      RequestsForSum(a, b[..last], i);
      assert (a + b)[..|a + b| - 1] == a + b[..last];
    }
  }

  lemma {:induction false} RequestsForOne(sent: seq<Request>, i: int, j: int)
    requires forall r <- sent :: r.index == j
    ensures RequestsFor(sent, i) == if i == j then sent else []
    decreases |sent|
  {
    if sent != [] {
      var last := |sent| - 1;
      assert forall r <- sent[..last] :: r in sent;
      RequestsForOne(sent[..last], i, j);
      assert sent[last] in sent;
      assert sent[..last] + [sent[last]] == sent;
    }
  }

  /** The object itself, with its bytes in place. */
  class Piece {
    const index: int
    const hash: seq<byte>
    const data: array<byte>
    var receivedCount: int
    var receivedBytes: int
    var backlog: int
    var totalRequested: int

    ghost function State(): PieceState
      reads this, data
    {
      PieceState(index, hash, data[..], receivedCount, receivedBytes, backlog, totalRequested)
    }

    constructor (index: int, hash: seq<byte>, length: nat)
      ensures State() == NewPiece(index, hash, length) && fresh(data)
      ensures this.index == index && this.hash == hash && data.Length == length
      ensures forall i :: 0 <= i < length ==> data[i] == 0
      ensures receivedCount == receivedBytes == backlog == totalRequested == 0
    {
      this.index, this.hash := index, hash;
      data := new byte[length](_ => 0);
      receivedCount, receivedBytes, backlog, totalRequested := 0, 0, 0, 0;
      new;
      assert data[..] == seq(length, _ => 0);
    }

    method VerifyIntegrity(sha: Sha) returns (ok: bool)
      requires 0 <= receivedBytes <= data.Length
      ensures ok == State().VerifyIntegrity(sha)
      ensures ok <==> sha(data[..receivedBytes]) == hash
    {
      assert data[..receivedBytes] == data[..][..receivedBytes];
      ok := sha(data[..receivedBytes]) == hash;
    }

    method IncomingBlock(offset: int, block: seq<byte>)
      requires State().Fits(offset, block)
      modifies this`receivedBytes, this`receivedCount, data
      ensures State() == old(State()).Incoming(offset, block)
    {
      receivedBytes := receivedBytes + |block|;
      forall i | 0 <= i < |block| { data[offset + i] := block[i]; }
      receivedCount := receivedCount + 1;
    }

    method Reset()
      requires 0 <= receivedBytes <= data.Length
      modifies this, data
      ensures State() == old(State()).Reset()
      ensures forall i :: 0 <= i < data.Length ==> data[i] == if i < old(receivedBytes) then 0 else old(data[i])
    {
      receivedCount := 0;
      backlog := 0;
      totalRequested := 0;
      forall i | 0 <= i < receivedBytes { data[i] := 0; }
      receivedBytes := 0;
    }

    /** The loop of `fetch_piece`: requests until five are outstanding or the piece has been asked for in full. */
    method RequestBlocks() returns (sent: seq<Request>)
      modifies this`backlog, this`totalRequested
      ensures State() == old(State()).Pipeline().0 && sent == old(State()).Pipeline().1
    {
      hide PieceState.Pipeline;
      sent := [];
      ghost var start := State();
      assert [] + start.Pipeline().1 == start.Pipeline().1;
      while backlog < MAX_BACKLOG && totalRequested < data.Length
        invariant data[..] == start.data && State() == start.(backlog := backlog, totalRequested := totalRequested)
        invariant start.Pipeline().0 == State().Pipeline().0
        invariant start.Pipeline().1 == sent + State().Pipeline().1
        decreases MAX_BACKLOG - backlog
      {
        var size := if totalRequested + BLOCK_LENGTH > data.Length then data.Length - totalRequested else BLOCK_LENGTH;
        ghost var before := State();
        PipelineTurn(before);
        ghost var already := sent;
        sent := sent + [Request(index, totalRequested, size)];
        backlog := backlog + 1;
        totalRequested := totalRequested + size;
        assert State() == Requested(before);
        assert sent + State().Pipeline().1 == already + ([before.NextRequest()] + State().Pipeline().1);
      }
      PipelineTurn(State());
      assert sent + [] == sent;
    }
  }

  // ----- blocks as tiles of the piece

  // How many blocks cover `n` bytes.
  function Tiles(n: int): int {
    (n + BLOCK_LENGTH - 1) / BLOCK_LENGTH
  }

  function TileSize(length: int, k: int): int {
    Min(BLOCK_LENGTH, length - k * BLOCK_LENGTH)
  }

  function Tile(index: int, length: int, k: int): Request {
    Request(index, k * BLOCK_LENGTH, TileSize(length, k))
  }

  function FirstTiles(index: int, length: int, n: nat): (rs: seq<Request>)
    ensures |rs| == n
  {
    seq(n, k => Tile(index, length, k))
  }

  predicate Covers(r: Request, at: int) {
    r.offset <= at < r.offset + r.size
  }

  ghost predicate CoveredBy(rs: seq<Request>, at: int) {
    exists k :: 0 <= k < |rs| && Covers(rs[k], at)
  }

  lemma TileBounds(length: int, k: int)
    requires 0 <= k < Tiles(length)
    ensures 1 <= TileSize(length, k) <= BLOCK_LENGTH && k * BLOCK_LENGTH + TileSize(length, k) <= length
    ensures k * BLOCK_LENGTH + TileSize(length, k) == if k + 1 < Tiles(length) then (k + 1) * BLOCK_LENGTH else length
  {
  }

  /**
   * The first `n` tiles partition the front of the piece: contiguous from 0, none empty or above 16 KiB,
   * every byte up to where they end in exactly one of them, and no byte past the end in any.
   */
  lemma TilesPartition(index: int, length: int, n: nat)
    requires n <= Tiles(length) && 0 <= length
    ensures var rs := FirstTiles(index, length, n);
            && (forall k :: 0 <= k < n ==> 1 <= rs[k].size <= BLOCK_LENGTH && rs[k].offset + rs[k].size <= length
                                           && rs[k].offset == if k == 0 then 0 else rs[k - 1].offset + rs[k - 1].size)
            && (forall at :: CoveredBy(rs, at) <==> 0 <= at < Min(n * BLOCK_LENGTH, length))
            && (forall j, k, at :: 0 <= j < k < n ==> !(Covers(rs[j], at) && Covers(rs[k], at)))
  {
    var rs := FirstTiles(index, length, n);
    forall k | 0 <= k < n ensures rs[k] == Tile(index, length, k) && 0 <= k < Tiles(length) {}
    forall k | 0 <= k < n
      ensures 1 <= rs[k].size <= BLOCK_LENGTH && rs[k].offset + rs[k].size <= length
              && rs[k].offset == if k == 0 then 0 else rs[k - 1].offset + rs[k - 1].size
    {
      TileBounds(length, k);
      if k > 0 { TileBounds(length, k - 1); }
    }
    forall at ensures CoveredBy(rs, at) <==> 0 <= at < Min(n * BLOCK_LENGTH, length) {
      TileOfByte(index, length, n, at);
    }
  }

  lemma TileOfByte(index: int, length: int, n: nat, at: int)
    requires n <= Tiles(length) && 0 <= length
    ensures CoveredBy(FirstTiles(index, length, n), at) <==> 0 <= at < Min(n * BLOCK_LENGTH, length)
  {
    var rs := FirstTiles(index, length, n);
    if 0 <= at < Min(n * BLOCK_LENGTH, length) {
      var k := at / BLOCK_LENGTH;
      assert Covers(rs[k], at);
    }
    if CoveredBy(rs, at) {
      var k :| 0 <= k < |rs| && Covers(rs[k], at);
      TileBounds(length, k);
    }
  }

  // The bytes in the tiles below `n` that have been answered.
  function BytesIn(length: int, answered: set<int>, n: nat): int {
    if n == 0 then 0 else BytesIn(length, answered, n - 1) + if n - 1 in answered then TileSize(length, n - 1) else 0
  }
}
