/** Finding the bytes whose SHA-1 identifies a torrent (src/torrent.cpp). */
module Torrent {
  import opened Bytes
  import opened Grammar = BencodeGrammar
  import opened Parser = BencodeParser
  import opened PatternSearch

  const INFO: seq<byte> := [105, 110, 102, 111]                       // "info"
  const INFO_PATTERN: seq<byte> := [52, 58, 105, 110, 102, 111, 100]  // "4:infod"

  /** `find_info_dict`: from the value's `d` to the byte before the last one of the file; a miss ends the program. */
  method FindInfoDict(bencode: seq<byte>) returns (found: bool, start: int, size: int)
    ensures exists r :: FirstMatch(bencode, INFO_PATTERN, r) && (found <==> r != -1)
              && (found ==> start == r + 6 && size == |bencode| - 1 - start)
  {
    var r := FindPattern(bencode, INFO_PATTERN);
    if r == -1 { return false, 0, 0; }
    start := r + 6;
    var end := |bencode| - 2;
    return true, start, end - start + 1;
  }

  function Append(a: Entries, b: Entries): Entries {
    match a
    case NoEntry => b
    case Entry(length, key, value, rest) => Entry(length, key, value, Append(rest, b))
  }

  lemma {:induction false} AppendFacts(wraps: bool, a: Entries, b: Entries, before: map<seq<byte>, Bnode>)
    requires ShapedEntries(a) && ShapedEntries(b)
    ensures ShapedEntries(Append(a, b))
    ensures RenderEntries(Append(a, b)) == RenderEntries(a) + RenderEntries(b)
    ensures MeaningOfEntries(Append(a, b), before) == MeaningOfEntries(b, MeaningOfEntries(a, before))
    ensures ReadableEntries(wraps, a) && ReadableEntries(wraps, b) ==> ReadableEntries(wraps, Append(a, b))
    decreases a
  {
    hide Render, Meaning, Readable, Shaped, Safe, Number;
    match a
    case NoEntry =>
    case Entry(length, key, value, rest) =>
      AppendFacts(wraps, rest, b, before[key := Meaning(value)]);
      var name := RenderStr(length, key);
      assert name + (Render(value) + (RenderEntries(rest) + RenderEntries(b)))
          == name + (Render(value) + RenderEntries(rest)) + RenderEntries(b);
  }

  // A file that ends with the info dictionary: any entries, then key "info" with a dictionary of entries `info`.
  function Document(entries: Entries, info: Entries): Phrase {
    DictP(Append(entries, Entry([52], INFO, DictP(info), NoEntry)))
  }

  // Where "4:infod" of the last entry begins.
  function InfoKeyAt(entries: Entries): nat {
    1 + |RenderEntries(entries)|
  }

  lemma NumberOfFour()
    ensures ShapedStr([52], INFO) && forall wraps :: Safe(wraps, [52])
  {
    NumberSnoc([], 52);
    assert [] + [52] == [52];
    EmptyNumber(true);
    EmptyNumber(false);
  }

  lemma SingleEntry(wraps: bool, length: seq<byte>, key: seq<byte>, value: Phrase, before: map<seq<byte>, Bnode>)
    requires ShapedStr(length, key) && Shaped(value)
    ensures var last := Entry(length, key, value, NoEntry);
            && ShapedEntries(last) && RenderEntries(last) == RenderStr(length, key) + Render(value)
            && MeaningOfEntries(last, before) == before[key := Meaning(value)]
            && (Safe(wraps, length) && Readable(wraps, value) ==> ReadableEntries(wraps, last))
  {
    hide Number, Safe, Render, Shaped, Meaning, Readable;
    var name, v := RenderStr(length, key), Render(value);
    assert name + (v + []) == name + v;
  }

  // A dictionary with one more entry at its end.
  lemma LastEntry(wraps: bool, entries: Entries, length: seq<byte>, key: seq<byte>, value: Phrase)
    requires ShapedEntries(entries) && ShapedStr(length, key) && Shaped(value)
    ensures var p := DictP(Append(entries, Entry(length, key, value, NoEntry)));
            && Shaped(p)
            && Render(p) == [DICT] + RenderEntries(entries) + RenderStr(length, key) + Render(value) + [END]
            && Meaning(p) == Dict(MeaningOfEntries(entries, map[])[key := Meaning(value)])
            && (ReadableEntries(wraps, entries) && Safe(wraps, length) && Readable(wraps, value) ==> Readable(wraps, p))
  {
    hide RenderEntries, MeaningOfEntries, ReadableEntries, ShapedEntries, Append;
    var last := Entry(length, key, value, NoEntry);
    SingleEntry(wraps, length, key, value, MeaningOfEntries(entries, map[]));
    AppendFacts(wraps, entries, last, map[]);
    var name, v := RenderStr(length, key), Render(value);
    assert [DICT] + (RenderEntries(entries) + (name + v)) + [END] == [DICT] + RenderEntries(entries) + name + v + [END];
  }

  // The file around the dictionary: everything up to the key's `4`, the key, the dictionary, the end token.
  lemma DocumentRenders(entries: Entries, info: Entries)
    requires ShapedEntries(entries) && ShapedEntries(info)
    ensures Shaped(Document(entries, info))
    ensures Render(Document(entries, info)) ==
            [DICT] + RenderEntries(entries) + INFO_PATTERN[..6] + Render(DictP(info)) + [END]
  {
    hide Render, RenderEntries;
    NumberOfFour();
    LastEntry(true, entries, [52], INFO, DictP(info));
    assert RenderStr([52], INFO) == INFO_PATTERN[..6];
  }

  lemma InfoLayout(front: seq<byte>, v: seq<byte>, s: seq<byte>)
    requires |v| >= 2 && v[0] == DICT && s == front + INFO_PATTERN[..6] + v + [END]
    ensures |s| == |front| + 7 + |v| && s[|front| + 6..|s| - 1] == v
    ensures Occurs(s, INFO_PATTERN, |front|)
  {
    var k := |front|;
    assert s[k..k + 6] == INFO_PATTERN[..6];
    assert s[k + 6] == v[0];
    assert s[k..k + 7] == s[k..k + 6] + [s[k + 6]];
    assert INFO_PATTERN == INFO_PATTERN[..6] + [DICT];
  }

  lemma DocumentDecodes(wraps: bool, entries: Entries, info: Entries)
    requires ShapedEntries(entries) && ShapedEntries(info)
    requires ReadableEntries(wraps, entries) && ReadableEntries(wraps, info)
    ensures Shaped(Document(entries, info))
    ensures var s, v := Render(Document(entries, info)), DictP(info);
            && Parse(wraps, Render(v), 0) == Parsed(Meaning(v), |Render(v)|)
            && Parse(wraps, s, 0) == Parsed(Dict(MeaningOfEntries(entries, map[])[INFO := Meaning(v)]), |s|)
  {
    hide Parse, At, Render, RenderEntries, Number, Safe, Readable, Meaning, Shaped;
    NumberOfFour();
    var v := DictP(info);
    assert Shaped(v) && Readable(wraps, v) by { InfoIsReadable(wraps, info); }
    LastEntry(wraps, entries, [52], INFO, v);
    Alone(Render(v));
    ParsePhrase(wraps, Render(v), 0, v);
    Alone(Render(Document(entries, info)));
    ParsePhrase(wraps, Render(Document(entries, info)), 0, Document(entries, info));
  }

  lemma InfoIsReadable(wraps: bool, info: Entries)
    requires ShapedEntries(info) && ReadableEntries(wraps, info)
    ensures Shaped(DictP(info)) && Readable(wraps, DictP(info))
  {
  }

  // What the program hashes once the search has answered `r`.
  function HashedSlice(s: seq<byte>, r: int): seq<byte>
    requires 0 <= r && r + 6 < |s|
  {
    s[r + 6..|s| - 1]
  }

  /**
   * The hashed slice is the decoded value: on a file that ends with its info dictionary, the search hits that
   * dictionary exactly when it takes 7 bytes or more and "4:infod" stands nowhere before it. The slice is then
   * the text of the dictionary, which decodes alone to the node the whole file decodes to under "info".
   */
  lemma HashedSliceIsInfo(wraps: bool, entries: Entries, info: Entries, r: int)
    requires ShapedEntries(entries) && ShapedEntries(info)
    requires ReadableEntries(wraps, entries) && ReadableEntries(wraps, info)
    requires FirstMatch(Render(Document(entries, info)), INFO_PATTERN, r)
    ensures var s, k, v := Render(Document(entries, info)), InfoKeyAt(entries), DictP(info);
            && (r == k <==> |Render(v)| >= 7 && forall at :: at < k ==> !Occurs(s, INFO_PATTERN, at))
            && (r == k ==>
                 && k + 6 < |s| && HashedSlice(s, r) == Render(v)
                 && Parse(wraps, HashedSlice(s, r), 0) == Parsed(Meaning(v), |HashedSlice(s, r)|)
                 && Parse(wraps, s, 0).Parsed? && Parse(wraps, s, 0).next == |s|
                 && Parse(wraps, s, 0).node.Dict? && INFO in Parse(wraps, s, 0).node.entries
                 && Parse(wraps, s, 0).node.entries[INFO] == Meaning(v))
  {
    hide Parse, Occurs, FirstMatch, Document, Meaning, MeaningOfEntries;
    var s, v := Render(Document(entries, info)), Render(DictP(info));
    DocumentRenders(entries, info);
    InfoLayout([DICT] + RenderEntries(entries), v, s);
    MatchAt(s, INFO_PATTERN, InfoKeyAt(entries), r);
    DocumentDecodes(wraps, entries, info);
  }
}
