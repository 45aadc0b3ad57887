/** Input that stops too early. */
module BencodeTruncation {
  import opened Bytes
  import opened Grammar = BencodeGrammar
  import opened Parser = BencodeParser

  // The input ends inside `t`, which begins at `i`.
  predicate Cut(s: seq<byte>, i: nat, t: seq<byte>) {
    i <= |s| && |s| - i < |t| && s[i..] == t[..|s| - i]
  }

  lemma CutSplit(s: seq<byte>, i: nat, t: seq<byte>, u: seq<byte>)
    requires Cut(s, i, t + u)
    ensures Cut(s, i, t) || (At(s, i, t) && Cut(s, i + |t|, u))
    ensures i < |s| && |t| > 0 ==> s[i] == t[0]
  {
    var w := s[i..];
    if |w| >= |t| {
      assert w[..|t|] == t;
      assert s[i..i + |t|] == w[..|t|];
      assert s[i + |t|..] == w[|t|..];
      assert w[|t|..] == (t + u)[|t|..][..|w| - |t|];
    } else {
      assert w == t[..|w|];
    }
    if i < |s| && |t| > 0 { assert w[0] == (t + u)[0]; }
  }

  lemma CutEnd(s: seq<byte>, i: nat, last: byte)
    requires Cut(s, i, [last])
    ensures i == |s|
  {
  }

  lemma {:induction false} ScanCut(wraps: bool, s: seq<byte>, i: nat, before: seq<byte>, ds: seq<byte>, stop: byte)
    requires Digits(before) && Digits(ds) && Safe(wraps, before) && !IsDigit(stop)
    requires Cut(s, i, ds + [stop])
    ensures Digits(before + ds)
    ensures var r := Scan(wraps, s, i, Number(before), stop);
            (r == NotANumber || r == TooLarge) && (Safe(wraps, before + ds) ==> r == NotANumber)
    decreases |ds|
  {
    hide Cut, Safe, Number, Trips;
    if ds == [] {
      assert [] + [stop] == [stop];
      CutEnd(s, i, stop);
      assert before + [] == before;
    } else {
      var d, rest := ds[0], ds[1..];
      assert d in ds && forall e <- rest :: e in ds;
      assert ds + [stop] == [d] + (rest + [stop]);
      CutSplit(s, i, [d], rest + [stop]);
      NumberSnoc(before, d);
      assert before + ds == before + [d] + rest;
      SafeFront(wraps, before + [d], rest);
      if Cut(s, i, [d]) {
        CutEnd(s, i, d);
      } else if Safe(wraps, before + [d]) {
        ScanCut(wraps, s, i + 1, before + [d], rest, stop);
      }
    }
  }

  // A truncated input fails; it fails by an exception unless a number in it is out of range.
  predicate Rejected(r: Outcome, readable: bool) {
    Fails(r) && (readable ==> r == Throws)
  }

  lemma {:induction false} CutPhrase(wraps: bool, s: seq<byte>, i: nat, p: Phrase)
    requires Shaped(p) && Cut(s, i, Render(p)) && i < |s|
    ensures Rejected(Parse(wraps, s, i), Readable(wraps, p))
    decreases p
  {
    hide Cut, At, Scan, Safe, Number, Parse, ParseItems, ParseEntries, RenderItems, RenderEntries, Digits;
    match p
    case IntP(digits) =>
      CutInt(wraps, s, i, digits);
    case StrP(length, body) =>
      CutStr(wraps, s, i, length, body);
    case ListP(items) =>
      CutOpen(s, i, LIST, RenderItems(items));
      ParseHead(wraps, s, i);
      CutItems(wraps, s, i + 1, items, []);
    case DictP(entries) =>
      CutOpen(s, i, DICT, RenderEntries(entries));
      ParseHead(wraps, s, i);
      CutEntries(wraps, s, i + 1, entries, map[]);
  }

  lemma CutOpen(s: seq<byte>, i: nat, open: byte, inner: seq<byte>)
    requires Cut(s, i, [open] + inner + [END]) && i < |s|
    ensures s[i] == open && Cut(s, i + 1, inner + [END])
  {
    hide At;
    assert [open] + inner + [END] == [open] + (inner + [END]);
    CutSplit(s, i, [open], inner + [END]);
  }

  lemma CutInt(wraps: bool, s: seq<byte>, i: nat, digits: seq<byte>)
    requires digits != [] && Digits(digits) && Cut(s, i, [INT] + digits + [END]) && i < |s|
    ensures Rejected(Parse(wraps, s, i), Safe(wraps, digits))
  {
    hide Cut, Safe, Number, Scan, Parse;
    CutOpen(s, i, INT, digits);
    EmptyNumber(wraps);
    ScanCut(wraps, s, i + 1, [], digits, END);
    assert [] + digits == digits;
    ParseHead(wraps, s, i);
  }

  lemma CutStr(wraps: bool, s: seq<byte>, i: nat, length: seq<byte>, body: seq<byte>)
    requires ShapedStr(length, body) && Cut(s, i, RenderStr(length, body)) && i < |s|
    ensures Rejected(Parse(wraps, s, i), Safe(wraps, length))
  {
    hide At, Safe, Number, Scan;
    CutSplit(s, i, length + [COLON], body);
    assert length[0] in length;
    assert (length + [COLON])[0] == length[0];
    EmptyNumber(wraps);
    assert [] + length == length;
    if Cut(s, i, length + [COLON]) {
      ScanCut(wraps, s, i, [], length, COLON);
    } else {
      ScanDigits(wraps, s, i, [], length, COLON);
    }
  }

  lemma {:induction false} CutItems(wraps: bool, s: seq<byte>, i: nat, items: Items, before: seq<Bnode>)
    requires ShapedItems(items) && Cut(s, i, RenderItems(items) + [END])
    ensures Rejected(ParseItems(wraps, s, i, before), ReadableItems(wraps, items))
    decreases items
  {
    hide Cut, At, Parse, Render, Meaning, Readable, Shaped;
    CutWithin(s, i, RenderItems(items) + [END]);
    match items
    case NoItem =>
      assert [] + [END] == [END];
      CutEnd(s, i, END);
    case Item(head, tail) =>
      if i < |s| {
        assert RenderItems(items) + [END] == Render(head) + (RenderItems(tail) + [END]);
        CutSplit(s, i, Render(head), RenderItems(tail) + [END]);
        PhraseHead(head);
        if Cut(s, i, Render(head)) {
          CutPhrase(wraps, s, i, head);
        } else {
          ParsePhrase(wraps, s, i, head);
          CutItems(wraps, s, i + |Render(head)|, tail, before + [Meaning(head)]);
        }
      }
  }

  lemma CutWithin(s: seq<byte>, i: nat, t: seq<byte>)
    requires Cut(s, i, t)
    ensures i <= |s|
  {
  }

  lemma {:induction false} CutEntries(wraps: bool, s: seq<byte>, i: nat, entries: Entries,
                                      before: map<seq<byte>, Bnode>)
    requires ShapedEntries(entries) && Cut(s, i, RenderEntries(entries) + [END])
    ensures Rejected(ParseEntries(wraps, s, i, before), ReadableEntries(wraps, entries))
    decreases entries, 1
  {
    hide Cut, At, Parse, Render, Meaning, Readable, Shaped, Safe, Number;
    CutWithin(s, i, RenderEntries(entries) + [END]);
    match entries
    case NoEntry =>
      assert [] + [END] == [END];
      CutEnd(s, i, END);
    case Entry(length, key, value, rest) =>
      if i < |s| {
        var name, after := RenderStr(length, key), Render(value) + (RenderEntries(rest) + [END]);
        assert RenderEntries(entries) + [END] == name + after;
        CutSplit(s, i, name, after);
        assert length[0] in length;
        assert name[0] == length[0];
        if Cut(s, i, name) {
          CutStr(wraps, s, i, length, key);
        } else {
          ParseStr(wraps, s, i, length, key);
          CutWithin(s, i + |name|, after);
          CutValue(wraps, s, i + |name|, entries, before);
        }
      }
  }

  // The cut falls behind the key: on its value, even directly in front of it, or later.
  lemma {:induction false} CutValue(wraps: bool, s: seq<byte>, j: nat, entries: Entries, before: map<seq<byte>, Bnode>)
    requires ShapedEntries(entries) && entries.Entry? && j <= |s|
    requires Cut(s, j, Render(entries.value) + (RenderEntries(entries.rest) + [END]))
    ensures Rejected(ParseValue(wraps, s, j, entries.key, before),
                     Readable(wraps, entries.value) && ReadableEntries(wraps, entries.rest))
    decreases entries, 0
  {
    hide Cut, At, Render, Meaning, Readable, Shaped, Safe, Number, ParseEntries;
    var value, rest := entries.value, entries.rest;
    CutSplit(s, j, Render(value), RenderEntries(rest) + [END]);
    if j < |s| {
      if Cut(s, j, Render(value)) {
        CutPhrase(wraps, s, j, value);
      } else {
        ParsePhrase(wraps, s, j, value);
        if Readable(wraps, value) {
          CutEntries(wraps, s, j + |Render(value)|, rest, before[entries.key := Meaning(value)]);
        }
      }
    }
  }

  /** Any non-empty proper prefix of a phrase, behind any bytes, is rejected; with readable numbers, by an exception. */
  lemma TruncationRejected(wraps: bool, front: seq<byte>, p: Phrase, n: nat)
    requires Shaped(p) && 0 < n < |Render(p)|
    ensures Rejected(Parse(wraps, front + Render(p)[..n], |front|), Readable(wraps, p))
  {
    hide Parse, Render;
    var s := front + Render(p)[..n];
    assert s[|front|..] == Render(p)[..n];
    CutPhrase(wraps, s, |front|, p);
  }
}
