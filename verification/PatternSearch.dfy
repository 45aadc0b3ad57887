/** The rewinding substring search, as in `find_pattern` (src/torrent.cpp) and `get_body` (src/http_parser.cpp). */
module PatternSearch {
  import opened Bytes

  predicate Occurs(buff: seq<byte>, pattern: seq<byte>, at: int) {
    0 <= at && At(buff, at, pattern)
  }

  // The loop bound hides the matches that begin less than two pattern lengths before the end.
  predicate Visible(buff: seq<byte>, pattern: seq<byte>, at: int) {
    Occurs(buff, pattern, at) && at + 2 * |pattern| <= |buff|
  }

  // `r` is the least visible match, or -1 when there is none.
  ghost predicate FirstMatch(buff: seq<byte>, pattern: seq<byte>, r: int) {
    if r == -1 then forall at :: !Visible(buff, pattern, at)
    else Visible(buff, pattern, r) && forall at :: at < r ==> !Occurs(buff, pattern, at)
  }

  lemma OccursAt(buff: seq<byte>, pattern: seq<byte>, at: int, j: int)
    requires 0 <= j < |pattern| && Occurs(buff, pattern, at)
    ensures buff[at + j] == pattern[j]
  {
    assert buff[at..at + |pattern|][j] == buff[at + j];
  }

  // A least visible match is at `k`, where the pattern does occur, unless `k` is hidden or something comes first.
  lemma MatchAt(s: seq<byte>, pattern: seq<byte>, k: int, r: int)
    requires Occurs(s, pattern, k) && FirstMatch(s, pattern, r) && k >= 0
    ensures r == k <==> k + 2 * |pattern| <= |s| && forall at :: at < k ==> !Occurs(s, pattern, at)
  {
    hide Occurs;
    if k + 2 * |pattern| <= |s| && (forall at :: at < k ==> !Occurs(s, pattern, at)) {
      assert Visible(s, pattern, k);
      assert r != -1;
      assert Occurs(s, pattern, r);
      assert !(k < r);
    }
  }

  // Where the first occurrence is known, so is the answer.
  lemma FirstIs(s: seq<byte>, pattern: seq<byte>, k: int, r: int)
    requires Occurs(s, pattern, k) && k >= 0 && FirstMatch(s, pattern, r)
    requires forall at :: at < k ==> !Occurs(s, pattern, at)
    ensures r == if k + 2 * |pattern| <= |s| then k else -1
  {
    hide Occurs;
    MatchAt(s, pattern, k, r);
    if r != -1 {
      assert Visible(s, pattern, r);
    }
  }

  lemma NoneBelowZero(s: seq<byte>, pattern: seq<byte>, at: int)
    requires at < 0
    ensures !Occurs(s, pattern, at)
  {
  }

  method FindPattern(buff: seq<byte>, pattern: seq<byte>) returns (r: int)
    requires pattern != []
    ensures FirstMatch(buff, pattern, r)
  {
    var n, patternLen := |buff|, |pattern|;
    var i, j := 0, 0;
    while i < n - patternLen
      invariant 0 <= j < patternLen && 0 <= i - j && i <= n
      invariant buff[i - j..i] == pattern[..j]
      invariant forall at :: at < i - j ==> !Occurs(buff, pattern, at)
      decreases n - (i - j), patternLen - j
    {
      if buff[i] == pattern[j] {
        assert buff[i - j..i + 1] == buff[i - j..i] + [buff[i]] == pattern[..j + 1];
        j := j + 1;
        if j == patternLen {
          return i - j + 1;
        }
      } else {
        if Occurs(buff, pattern, i - j) { OccursAt(buff, pattern, i - j, j); }
        i := i - j;
        j := 0;
      }
      i := i + 1;
    }
    r := -1;
  }

  const END_OF_HEADER: seq<byte> := [13, 10, 13, 10]

  /** The offset of the body, or -1 where the source returns a null pointer. */
  method GetBody(msg: seq<byte>) returns (bodyOffset: int)
    ensures FirstMatch(msg, END_OF_HEADER, if bodyOffset == -1 then -1 else bodyOffset - 4)
    ensures bodyOffset == -1 || bodyOffset >= 4
  {
    var n := |msg|;
    var i, j := 0, 0;
    bodyOffset := -1;
    while i < n - 4
      invariant 0 <= j < 4 && 0 <= i - j && i <= n
      invariant msg[i - j..i] == END_OF_HEADER[..j]
      invariant forall at :: at < i - j ==> !Occurs(msg, END_OF_HEADER, at)
      invariant bodyOffset == -1
      decreases n - (i - j), 4 - j
    {
      if msg[i] == END_OF_HEADER[j] {
        assert msg[i - j..i + 1] == msg[i - j..i] + [msg[i]] == END_OF_HEADER[..j + 1];
        j := j + 1;
        if j == 4 {
          bodyOffset := i + 1;
          return;
        }
      } else {
        if Occurs(msg, END_OF_HEADER, i - j) { OccursAt(msg, END_OF_HEADER, i - j, j); }
        i := i - j;
        j := 0;
      }
      i := i + 1;
    }
  }
}
