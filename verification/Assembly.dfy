/** What a piece holds while its blocks are requested, answered and thrown away. */
module Assembly {
  import opened Bytes
  import opened Pieces

  // The bytes of block `k` of the content.
  function Slice(content: seq<byte>, k: int): seq<byte>
    requires 0 <= k < Tiles(|content|)
  {
    TileBounds(|content|, k);
    content[k * BLOCK_LENGTH..k * BLOCK_LENGTH + TileSize(|content|, k)]
  }

  function Range(n: nat): (r: set<int>)
    ensures forall k :: k in r <==> 0 <= k < n
  {
    if n == 0 then {} else Range(n - 1) + {n - 1}
  }

  lemma {:induction false} RangeSize(n: nat)
    ensures |Range(n)| == n
  {
    if n > 0 {
      RangeSize(n - 1);
    }
  }

  // The blocks sent for and not answered.
  function Outstanding(p: PieceState, answered: set<int>): set<int> {
    Range(if p.totalRequested < 0 then 0 else Tiles(p.totalRequested)) - answered
  }

  /**
   * The books of one piece whose content is to be `content`, `answered` being the blocks answered since the
   * last reset: the requests are a front of the tiles, the counters count them, and the data agrees with the
   * content wherever a block has been answered (elsewhere it may hold anything).
   */
  ghost predicate Consistent(p: PieceState, content: seq<byte>, answered: set<int>) {
    var length, asked := |content|, Tiles(p.totalRequested);
    && |p.data| == length && 0 <= p.totalRequested <= length
    && (p.totalRequested == asked * BLOCK_LENGTH || p.totalRequested == length)
    && answered <= Range(asked)
    && p.receivedCount == |answered|
    && 0 <= p.backlog <= MAX_BACKLOG && p.backlog + p.receivedCount == asked
    && p.receivedBytes == BytesIn(length, answered, Tiles(length))
    && forall k <- answered :: Holds(p.data, content, k)
  }

  predicate Holds(data: seq<byte>, content: seq<byte>, k: int)
    requires |data| == |content|
  {
    0 <= k < Tiles(|content|) ==> Slice(data, k) == Slice(content, k)
  }

  lemma {:induction false} BytesInBound(length: int, answered: set<int>, n: nat)
    requires n <= Tiles(length) && 0 <= length
    ensures 0 <= BytesIn(length, answered, n) <= Min(n * BLOCK_LENGTH, length)
    ensures BytesIn(length, answered, n) == Min(n * BLOCK_LENGTH, length) <==> Range(n) <= answered
    decreases n
  {
    if n > 0 {
      BytesInBound(length, answered, n - 1);
      TileBounds(length, n - 1);
    }
  }

  lemma {:induction false} BytesInAdd(length: int, answered: set<int>, k: int, n: nat)
    requires k !in answered && 0 <= k
    ensures BytesIn(length, answered + {k}, n)
            == BytesIn(length, answered, n) + if k < n then TileSize(length, k) else 0
    decreases n
  {
    if n > 0 {
      BytesInAdd(length, answered, k, n - 1);
    }
  }

  lemma {:induction false} BytesInNone(length: int, n: nat)
    ensures BytesIn(length, {}, n) == 0
    decreases n
  {
    if n > 0 { BytesInNone(length, n - 1); }
  }

  lemma NewIsConsistent(index: int, hash: seq<byte>, content: seq<byte>)
    ensures Consistent(NewPiece(index, hash, |content|), content, {})
  {
    BytesInNone(|content|, Tiles(|content|));
  }

  lemma InBounds(p: PieceState, content: seq<byte>, answered: set<int>)
    requires Consistent(p, content, answered)
    ensures 0 <= p.receivedBytes <= |p.data|
  {
    BytesInBound(|content|, answered, Tiles(|content|));
  }

  /** A reset starts the books afresh, whatever bytes it leaves behind. */
  lemma ResetIsConsistent(p: PieceState, content: seq<byte>, answered: set<int>)
    requires Consistent(p, content, answered)
    ensures 0 <= p.receivedBytes <= |p.data| && Consistent(p.Reset(), content, {})
  {
    InBounds(p, content, answered);
    BytesInNone(|content|, Tiles(|content|));
  }

  lemma ConsistentLength(p: PieceState, content: seq<byte>, answered: set<int>)
    requires Consistent(p, content, answered)
    ensures |p.data| == |content| && 0 <= p.totalRequested <= |content| && p.backlog <= MAX_BACKLOG
  {
  }

  // One more request.
  lemma RequestIsConsistent(p: PieceState, content: seq<byte>, answered: set<int>)
    requires Consistent(p, content, answered) && p.backlog < MAX_BACKLOG && p.totalRequested < p.Length()
    ensures var r, asked := p.NextRequest(), Tiles(p.totalRequested);
            var q := p.(backlog := p.backlog + 1, totalRequested := p.totalRequested + r.size);
            && Consistent(q, content, answered) && r == Tile(p.index, |content|, asked)
            && asked >= 0 && Tiles(q.totalRequested) == asked + 1
  {
    hide Range;
    var asked := Tiles(p.totalRequested);
    TileBounds(|content|, asked);
    assert Range(asked) <= Range(asked + 1);
  }

  /** Requesting: the new requests are the next tiles, and something is outstanding unless every block is answered. */
  lemma {:induction false} PipelineIsConsistent(p: PieceState, content: seq<byte>, answered: set<int>)
    requires Consistent(p, content, answered)
    ensures var (p', sent) := p.Pipeline();
            && Consistent(p', content, answered) && p'.data == p.data && p'.index == p.index && p'.hash == p.hash
            && p'.receivedCount == p.receivedCount && p'.receivedBytes == p.receivedBytes
            && FirstTiles(p.index, |content|, Tiles(p'.totalRequested))
               == FirstTiles(p.index, |content|, Tiles(p.totalRequested)) + sent
            && (p'.backlog == MAX_BACKLOG || p'.totalRequested == |content|)
    decreases MAX_BACKLOG - p.backlog
  {
    hide Consistent, Tile, TileSize, Range;
    var asked := Tiles(p.totalRequested);
    ConsistentLength(p, content, answered);
    if p.backlog < MAX_BACKLOG && p.totalRequested < p.Length() {
      var r := p.NextRequest();
      var q := p.(backlog := p.backlog + 1, totalRequested := p.totalRequested + r.size);
      RequestIsConsistent(p, content, answered);
      PipelineIsConsistent(q, content, answered);
      var rest := q.Pipeline().1;
      assert FirstTiles(p.index, |content|, asked + 1) == FirstTiles(p.index, |content|, asked) + [r];
      assert FirstTiles(p.index, |content|, asked) + [r] + rest == FirstTiles(p.index, |content|, asked) + ([r] + rest);
    } else {
      assert FirstTiles(p.index, |content|, asked) + [] == FirstTiles(p.index, |content|, asked);
    }
  }

  lemma SliceKept(before: seq<byte>, after: seq<byte>, k: int, j: int, block: seq<byte>)
    requires 0 <= k < Tiles(|before|) && 0 <= j < Tiles(|before|) && j != k
    requires |block| == TileSize(|before|, k) && |after| == |before|
    requires k * BLOCK_LENGTH + |block| <= |before|
    requires after == before[..k * BLOCK_LENGTH] + block + before[k * BLOCK_LENGTH + |block|..]
    ensures Slice(after, j) == Slice(before, j)
  {
    TileBounds(|before|, k);
    TileBounds(|before|, j);
    var from, to := j * BLOCK_LENGTH, j * BLOCK_LENGTH + TileSize(|before|, j);
    assert to <= k * BLOCK_LENGTH || from >= k * BLOCK_LENGTH + |block|;
    assert forall i :: from <= i < to ==> after[i] == before[i];
  }

  /** An outstanding block answered with its slice of the content. */
  lemma AnswerIsConsistent(p: PieceState, content: seq<byte>, answered: set<int>, k: int)
    requires Consistent(p, content, answered) && k in Outstanding(p, answered)
    ensures 0 <= k < Tiles(|content|) && p.Fits(k * BLOCK_LENGTH, Slice(content, k))
    ensures var q := p.Incoming(k * BLOCK_LENGTH, Slice(content, k));
            Consistent(q.(backlog := q.backlog - 1), content, answered + {k})
  {
    hide Range;
    var length, block := |content|, Slice(content, k);
    assert 0 <= k < Tiles(p.totalRequested) <= Tiles(length);
    TileBounds(length, k);
    BytesInAdd(length, answered, k, Tiles(length));
    var q := p.Incoming(k * BLOCK_LENGTH, block);
    assert Slice(q.data, k) == block;
    forall j <- answered + {k} ensures Holds(q.data, content, j) {
      if j != k && 0 <= j < Tiles(length) {
        assert Holds(p.data, content, j);
        SliceKept(p.data, q.data, k, j, block);
      }
    }
    RangeSize(Tiles(p.totalRequested));
    Fewer(answered, k, Tiles(p.totalRequested));
  }

  lemma Fewer(answered: set<int>, k: int, n: nat)
    requires answered <= Range(n) && k in Range(n) - answered
    ensures |answered| < n
  {
    hide Range;
    RangeSize(n);
    assert answered < Range(n);
    SubsetSmaller(answered, Range(n));
  }

  lemma SubsetSmaller(a: set<int>, b: set<int>)
    requires a < b
    ensures |a| < |b|
  {
    assert b == a + (b - a);
    assert b - a != {};
  }

  // Pigeonhole: as many answered as there are, so all of them.
  lemma AllAnswered(answered: set<int>, n: nat)
    requires answered <= Range(n)
    ensures |answered| <= n && (|answered| == n ==> answered == Range(n))
  {
    hide Range;
    RangeSize(n);
    if answered != Range(n) { SubsetSmaller(answered, Range(n)); }
  }

  lemma SlicesAgree(data: seq<byte>, content: seq<byte>)
    requires |data| == |content|
    requires forall k :: 0 <= k < Tiles(|content|) ==> Holds(data, content, k)
    ensures data == content
  {
    forall i | 0 <= i < |data| ensures data[i] == content[i] {
      var k := i / BLOCK_LENGTH;
      TileBounds(|content|, k);
      assert Holds(data, content, k);
      var at := i - k * BLOCK_LENGTH;
      assert data[i] == Slice(data, k)[at];
      assert content[i] == Slice(content, k)[at];
    }
  }

  /**
   * A piece of 16 blocks that counts as finished is the content, whole, and passes its check. A piece of fewer
   * blocks never counts as finished; one of more counts as finished while bytes are missing.
   */
  lemma FinishedIsComplete(p: PieceState, content: seq<byte>, answered: set<int>, sha: Sha)
    requires Consistent(p, content, answered) && p.DownloadFinished()
    ensures Tiles(|content|) >= BLOCKS && 0 <= p.receivedBytes <= |p.data|
    ensures p.receivedBytes == |content| <==> Tiles(|content|) == BLOCKS
    ensures Tiles(|content|) == BLOCKS ==> p.data == content && (p.VerifyIntegrity(sha) <==> sha(content) == p.hash)
  {
    hide Range;
    var length := |content|;
    InBounds(p, content, answered);
    assert answered <= Range(Tiles(length));
    AllAnswered(answered, Tiles(length));
    BytesInBound(length, answered, Tiles(length));
    RangeSize(Tiles(length));
    if Range(Tiles(length)) <= answered {
      assert answered == Range(Tiles(length));
    }
    if Tiles(length) == BLOCKS {
      forall k | 0 <= k < Tiles(length) ensures Holds(p.data, content, k) {
        assert k in answered;
      }
      SlicesAgree(p.data, content);
      assert p.data[..p.receivedBytes] == content;
    }
  }

  /**
   * The answers must be to different requests: one block coming twice makes a piece of 16 blocks count as finished
   * while a block has never come, and the data is then right only if it was there already.
   */
  lemma RepeatedBlockFinishesEarly(p: PieceState, content: seq<byte>, answered: set<int>, k: int)
    requires Consistent(p, content, answered) && Tiles(|content|) == BLOCKS && p.receivedCount == BLOCKS - 1
    requires k in answered && 0 <= k < BLOCKS
    ensures p.Fits(k * BLOCK_LENGTH, Slice(content, k))
    ensures var q := p.Incoming(k * BLOCK_LENGTH, Slice(content, k));
            && q.DownloadFinished() && q.data == p.data
            && exists m :: 0 <= m < BLOCKS && m !in answered && (q.data == content <==> Holds(p.data, content, m))
  {
    hide Range, TileSize;
    RepeatChangesNothing(p, content, answered, k);
    var q := p.Incoming(k * BLOCK_LENGTH, Slice(content, k));
    hide PieceState.Incoming, Slice;
    RangeSize(BLOCKS);
    assert answered <= Range(BLOCKS);
    assert answered != Range(BLOCKS);
    assert !(Range(BLOCKS) <= answered);
    var m :| m in Range(BLOCKS) && m !in answered;
    OneMissing(answered, m, BLOCKS);
    if Holds(p.data, content, m) {
      forall j | 0 <= j < BLOCKS ensures Holds(p.data, content, j) {
        assert j in answered || j == m;
      }
      SlicesAgree(p.data, content);
    }
  }

  lemma RepeatChangesNothing(p: PieceState, content: seq<byte>, answered: set<int>, k: int)
    requires Consistent(p, content, answered) && k in answered && 0 <= k < Tiles(|content|)
    ensures p.Fits(k * BLOCK_LENGTH, Slice(content, k))
    ensures p.Incoming(k * BLOCK_LENGTH, Slice(content, k)).data == p.data
  {
    hide Range;
    TileBounds(|content|, k);
    assert Holds(p.data, content, k);
    assert p.data[k * BLOCK_LENGTH..k * BLOCK_LENGTH + TileSize(|content|, k)] == Slice(content, k);
  }

  lemma OneMissing(answered: set<int>, m: int, n: nat)
    requires answered <= Range(n) && |answered| == n - 1 && m in Range(n) - answered
    ensures Range(n) == answered + {m}
  {
    hide Range;
    RangeSize(n);
    if answered + {m} != Range(n) { SubsetSmaller(answered + {m}, Range(n)); }
  }

  /** The length that 16 blocks means. */
  lemma SixteenBlocks(length: int)
    requires 0 <= length
    ensures Tiles(length) == BLOCKS <==> 15 * BLOCK_LENGTH < length <= 16 * BLOCK_LENGTH
  {
  }

  /** No stall: after requesting, an unfinished piece of 16 blocks has a request outstanding. */
  lemma SomethingOutstanding(p: PieceState, content: seq<byte>, answered: set<int>)
    requires Consistent(p, content, answered) && Tiles(|content|) == BLOCKS && p.receivedCount < BLOCKS
    requires p.backlog == MAX_BACKLOG || p.totalRequested == |content|
    ensures p.backlog >= 1 && Outstanding(p, answered) != {}
    ensures |Outstanding(p, answered)| == p.backlog
  {
    hide Range;
    var asked := Tiles(p.totalRequested);
    RangeSize(asked);
    assert Range(asked) == answered + Outstanding(p, answered);
  }

  /** Answering outstanding blocks in any order, and requesting in between, completes the piece. */
  method Download(start: PieceState, content: seq<byte>, sha: Sha) returns (p: PieceState, answers: seq<int>)
    requires Consistent(start, content, {}) && Tiles(|content|) == BLOCKS && start.hash == sha(content)
    ensures p.DownloadFinished() && p.data == content && p.receivedBytes == |content| && p.VerifyIntegrity(sha)
    ensures |answers| == BLOCKS
  {
    hide Range;
    var answered: set<int> := {};
    answers := [];
    p := start;
    while !p.DownloadFinished()
      invariant Consistent(p, content, answered) && p.hash == start.hash && p.receivedCount == |answers| <= BLOCKS
      decreases BLOCKS - |answers|
    {
      PipelineIsConsistent(p, content, answered);
      AllAnswered(answered, Tiles(p.totalRequested));
      p := p.Pipeline().0;
      SomethingOutstanding(p, content, answered);
      var k :| k in Outstanding(p, answered);
      AnswerIsConsistent(p, content, answered, k);
      AllAnswered(answered + {k}, BLOCKS);
      p := p.Incoming(k * BLOCK_LENGTH, Slice(content, k));
      p := p.(backlog := p.backlog - 1);
      answered := answered + {k};
      answers := answers + [k];
    }
    FinishedIsComplete(p, content, answered, sha);
  }
}
