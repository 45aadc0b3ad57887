/** The decoder as a function of the input and the index it starts at, for every input. */
module BencodeParser {
  import opened Bytes
  import opened Grammar = BencodeGrammar

  datatype Outcome =
    | Parsed(node: Bnode, next: nat)
    | Null        // `decode` returned a null pointer and did not move
    | Throws
    | Undefined   // a number above LLONG_MAX: signed overflow
    | Hangs       // a list loop that never moves again
    | Crashes     // a null key is dereferenced

  datatype Scanned = Scanned(value: nat, at: nat) | NotANumber | TooLarge

  // The digits from `i` up to the byte `stop`, on top of what has been accumulated.
  function Scan(wraps: bool, s: seq<byte>, i: nat, accumulated: nat, stop: byte): (r: Scanned)
    requires i <= |s|
    ensures r.Scanned? ==> i <= r.at < |s|
    decreases |s| - i
  {
    if i == |s| then NotANumber
    else if s[i] == stop then Scanned(accumulated, i)
    else if !IsDigit(s[i]) || Trips(wraps, accumulated) then NotANumber
    else
      var next := accumulated * 10 + (s[i] as int - 48);
      if next > LLONG_MAX then TooLarge else Scan(wraps, s, i + 1, next, stop)
  }

  function Parse(wraps: bool, s: seq<byte>, i: nat): (r: Outcome)
    requires i <= |s|
    ensures r.Parsed? ==> i < r.next <= |s|
    decreases |s| - i, 0
  {
    if i == |s| || s[i] == 0xFF then Null
    else if s[i] == INT then
      match Scan(wraps, s, i + 1, 0, END)
      case Scanned(value, at) => if at == i + 1 then Throws else Parsed(Int(value), at + 1)
      case NotANumber => Throws
      case TooLarge => Undefined
    else if s[i] == LIST then ParseItems(wraps, s, i + 1, [])
    else if s[i] == DICT then ParseEntries(wraps, s, i + 1, map[])
    else if IsDigit(s[i]) then
      match Scan(wraps, s, i, 0, COLON)
      case Scanned(length, at) =>
        var from := at + 1;
        if from + length <= |s| then Parsed(Str(s[from..from + length]), from + length) else Throws
      case NotANumber => Throws
      case TooLarge => Undefined
    else Throws
  }

  function ParseItems(wraps: bool, s: seq<byte>, i: nat, items: seq<Bnode>): (r: Outcome)
    requires i <= |s|
    ensures !r.Null? && (r.Parsed? ==> i < r.next <= |s|)
    decreases |s| - i, 1
  {
    if i == |s| then Throws
    else if s[i] == END then Parsed(List(items), i + 1)
    else
      match Parse(wraps, s, i)
      case Parsed(node, next) => ParseItems(wraps, s, next, items + [node])
      case Null => Hangs
      case failure => failure
  }

  function ParseEntries(wraps: bool, s: seq<byte>, i: nat, entries: map<seq<byte>, Bnode>): (r: Outcome)
    requires i <= |s|
    ensures !r.Null? && (r.Parsed? ==> i < r.next <= |s|)
    decreases |s| - i, 1
  {
    if i == |s| then Throws
    else if s[i] == END then Parsed(Dict(entries), i + 1)
    else
      match Parse(wraps, s, i)
      case Parsed(Str(key), at) => ParseValue(wraps, s, at, key, entries)
      case Parsed(_, _) => Throws
      case Null => Crashes
      case failure => failure
  }

  function ParseValue(wraps: bool, s: seq<byte>, i: nat, key: seq<byte>, entries: map<seq<byte>, Bnode>): (r: Outcome)
    requires i <= |s|
    ensures !r.Null? && (r.Parsed? ==> i < r.next <= |s|)
    decreases |s| - i, 1
  {
    match Parse(wraps, s, i)
    case Parsed(node, next) => ParseEntries(wraps, s, next, entries[key := node])
    // A null value is stored; at the end of the input the loop then ends, elsewhere the next key is null.
    case Null => if i == |s| then Throws else Crashes
    case failure => failure
  }

  lemma EmptyNumber(wraps: bool)
    ensures Number([]) == 0 && Safe(wraps, [])
  {
  }

  // Reading digits that stand in front of the stop byte.
  lemma {:induction false} ScanDigits(wraps: bool, s: seq<byte>, i: nat, before: seq<byte>, ds: seq<byte>, stop: byte)
    requires Digits(before) && Digits(ds) && Safe(wraps, before) && !IsDigit(stop)
    requires At(s, i, ds + [stop])
    ensures Digits(before + ds)
    ensures var r := Scan(wraps, s, i, Number(before), stop);
            if Safe(wraps, before + ds) then r == Scanned(Number(before + ds), i + |ds|)
            else r == NotANumber || r == TooLarge
    decreases |ds|
  {
    hide At, Safe, Number, Trips;
    AtSplit(s, i, ds, [stop]);
    if ds == [] {
      assert before + [] == before;
    } else {
      var d, rest := ds[0], ds[1..];
      assert ds + [stop] == [d] + (rest + [stop]);
      AtSplit(s, i, [d], rest + [stop]);
      assert d in ds;
      assert forall e <- rest :: e in ds;
      NumberSnoc(before, d);
      assert before + ds == before + [d] + rest;
      if Safe(wraps, before + [d]) {
        ScanDigits(wraps, s, i + 1, before + [d], rest, stop);
      } else {
        SafeFront(wraps, before + [d], rest);
      }
    }
  }

  // A number whose beginning is not safe is not safe.
  lemma {:induction false} SafeFront(wraps: bool, front: seq<byte>, rest: seq<byte>)
    requires Digits(front) && Digits(rest)
    ensures Digits(front + rest) && (Safe(wraps, front + rest) ==> Safe(wraps, front))
    decreases |rest|
  {
    if rest == [] {
      assert front + rest == front;
    } else {
      var last := |rest| - 1;
      SafeFront(wraps, front, rest[..last]);
      assert front + rest == (front + rest[..last]) + [rest[last]];
      NumberSnoc(front + rest[..last], rest[last]);
    }
  }

  predicate Fails(r: Outcome) {
    r == Throws || r == Undefined
  }

  // What `decode` does on each token.
  lemma ParseHead(wraps: bool, s: seq<byte>, i: nat)
    requires i < |s|
    ensures s[i] == INT ==>
              Parse(wraps, s, i) ==
              match Scan(wraps, s, i + 1, 0, END)
              case Scanned(value, at) => if at == i + 1 then Throws else Parsed(Int(value), at + 1)
              case NotANumber => Throws
              case TooLarge => Undefined
    ensures s[i] == LIST ==> Parse(wraps, s, i) == ParseItems(wraps, s, i + 1, [])
    ensures s[i] == DICT ==> Parse(wraps, s, i) == ParseEntries(wraps, s, i + 1, map[])
    ensures IsDigit(s[i]) ==>
              Parse(wraps, s, i) ==
              match Scan(wraps, s, i, 0, COLON)
              case Scanned(length, at) =>
                var from := at + 1;
                if from + length <= |s| then Parsed(Str(s[from..from + length]), from + length) else Throws
              case NotANumber => Throws
              case TooLarge => Undefined
    ensures s[i] == 0xFF ==> Parse(wraps, s, i) == Null
    ensures s[i] != 0xFF && s[i] != INT && s[i] != LIST && s[i] != DICT && !IsDigit(s[i]) ==>
              Parse(wraps, s, i) == Throws
  {
    hide Scan, ParseItems, ParseEntries;
  }

  lemma ParseItemsEnd(wraps: bool, s: seq<byte>, i: nat, items: seq<Bnode>)
    requires i < |s| && s[i] == END
    ensures ParseItems(wraps, s, i, items) == Parsed(List(items), i + 1)
  {
    hide Parse;
  }

  lemma ParseEntriesEnd(wraps: bool, s: seq<byte>, i: nat, entries: map<seq<byte>, Bnode>)
    requires i < |s| && s[i] == END
    ensures ParseEntries(wraps, s, i, entries) == Parsed(Dict(entries), i + 1)
  {
    hide Parse, ParseValue;
  }

  /** The round trip in context, exact: a phrase is read back, to its end, if and only if its numbers are readable. */
  lemma {:induction false} ParsePhrase(wraps: bool, s: seq<byte>, i: nat, p: Phrase)
    requires Shaped(p) && At(s, i, Render(p))
    ensures var r := Parse(wraps, s, i);
            if Readable(wraps, p) then r == Parsed(Meaning(p), i + |Render(p)|) else Fails(r)
    decreases p
  {
    hide At, Scan, Safe, Number, Parse, ParseItems, ParseEntries, RenderItems, RenderEntries, Digits;
    match p
    case IntP(digits) =>
      ParseInt(wraps, s, i, digits);
    case StrP(length, body) =>
      ParseStr(wraps, s, i, length, body);
    case ListP(items) =>
      Delimited(s, i, LIST, RenderItems(items));
      ParseHead(wraps, s, i);
      ParseItemsPhrases(wraps, s, i + 1, items, []);
      assert [] + MeaningOfItems(items) == MeaningOfItems(items);
      ParseItemsEnd(wraps, s, i + 1 + |RenderItems(items)|, MeaningOfItems(items));
    case DictP(entries) =>
      Delimited(s, i, DICT, RenderEntries(entries));
      ParseHead(wraps, s, i);
      ParseEntriesPhrases(wraps, s, i + 1, entries, map[]);
      ParseEntriesEnd(wraps, s, i + 1 + |RenderEntries(entries)|, MeaningOfEntries(entries, map[]));
  }

  lemma ParseInt(wraps: bool, s: seq<byte>, i: nat, digits: seq<byte>)
    requires digits != [] && Digits(digits) && At(s, i, [INT] + digits + [END])
    ensures var r := Parse(wraps, s, i);
            if Safe(wraps, digits) then r == Parsed(Int(Number(digits)), i + |digits| + 2) else Fails(r)
  {
    hide At, Safe, Number, Scan, Parse;
    Delimited(s, i, INT, digits);
    EmptyNumber(wraps);
    ScanDigits(wraps, s, i + 1, [], digits, END);
    assert [] + digits == digits;
    ParseHead(wraps, s, i);
  }

  lemma LengthScanned(wraps: bool, s: seq<byte>, i: nat, length: seq<byte>)
    requires Digits(length) && At(s, i, length + [COLON]) && i <= |s|
    ensures var r := Scan(wraps, s, i, 0, COLON);
            if Safe(wraps, length) then r == Scanned(Number(length), i + |length|) else r == NotANumber || r == TooLarge
  {
    hide Safe, Number, Scan, At;
    EmptyNumber(wraps);
    ScanDigits(wraps, s, i, [], length, COLON);
    assert [] + length == length;
  }

  lemma ParseStr(wraps: bool, s: seq<byte>, i: nat, length: seq<byte>, body: seq<byte>)
    requires ShapedStr(length, body) && At(s, i, RenderStr(length, body))
    ensures var r := Parse(wraps, s, i);
            if Safe(wraps, length) then r == Parsed(Str(body), i + |RenderStr(length, body)|) else Fails(r)
  {
    hide Safe, Number, Scan, Parse, At;
    AtSplit(s, i, length + [COLON], body);
    AtBytes(s, i, length + [COLON]);
    AtBytes(s, i + |length| + 1, body);
    assert (length + [COLON])[0] == length[0] && length[0] in length;
    LengthScanned(wraps, s, i, length);
    ParseHead(wraps, s, i);
  }

  lemma {:induction false} ParseItemsPhrases(wraps: bool, s: seq<byte>, i: nat, items: Items, before: seq<Bnode>)
    requires ShapedItems(items) && At(s, i, RenderItems(items))
    ensures var r := ParseItems(wraps, s, i, before);
            if ReadableItems(wraps, items)
            then r == ParseItems(wraps, s, i + |RenderItems(items)|, before + MeaningOfItems(items))
            else Fails(r)
    decreases items
  {
    hide At, Parse, Render, Readable, Shaped, Meaning;
    match items
    case NoItem =>
      assert before + [] == before;
    case Item(head, tail) =>
      assert ShapedItems(tail) && Shaped(head);
      AtSplit(s, i, Render(head), RenderItems(tail));
      PhraseHead(head);
      ParsePhrase(wraps, s, i, head);
      if Readable(wraps, head) {
        var i' := i + |Render(head)|;
        ParseItemsPhrases(wraps, s, i', tail, before + [Meaning(head)]);
        assert before + [Meaning(head)] + MeaningOfItems(tail) == before + MeaningOfItems(items);
      }
  }

  // One turn of the dictionary loop.
  lemma EntryStep(wraps: bool, s: seq<byte>, i: nat, entries: map<seq<byte>, Bnode>)
    requires i < |s| && s[i] != END
    ensures Fails(Parse(wraps, s, i)) ==> ParseEntries(wraps, s, i, entries) == Parse(wraps, s, i)
    ensures var k := Parse(wraps, s, i);
            k.Parsed? && k.node.Str? ==>
              var v := Parse(wraps, s, k.next);
              && (Fails(v) ==> ParseEntries(wraps, s, i, entries) == v)
              && (v.Parsed? ==> ParseEntries(wraps, s, i, entries)
                                == ParseEntries(wraps, s, v.next, entries[k.node.bytes := v.node]))
  {
    hide Parse;
  }

  lemma {:induction false} ParseEntriesPhrases(wraps: bool, s: seq<byte>, i: nat, entries: Entries,
                                               before: map<seq<byte>, Bnode>)
    requires ShapedEntries(entries) && At(s, i, RenderEntries(entries))
    ensures var r := ParseEntries(wraps, s, i, before);
            if ReadableEntries(wraps, entries)
            then r == ParseEntries(wraps, s, i + |RenderEntries(entries)|, MeaningOfEntries(entries, before))
            else Fails(r)
    decreases entries
  {
    hide At, Parse, ParseEntries, Render, Readable, Shaped, Meaning, Safe, Number;
    match entries
    case NoEntry =>
    case Entry(length, key, value, rest) =>
      var name := RenderStr(length, key);
      AtSplit(s, i, name, Render(value) + RenderEntries(rest));
      AtSplit(s, i + |name|, Render(value), RenderEntries(rest));
      assert length[0] in length;
      assert name[0] == length[0];
      ParseStr(wraps, s, i, length, key);
      EntryStep(wraps, s, i, before);
      if Safe(wraps, length) {
        ParsePhrase(wraps, s, i + |name|, value);
        if Readable(wraps, value) {
          ParseEntriesPhrases(wraps, s, i + |name| + |Render(value)|, rest, before[key := Meaning(value)]);
        }
      }
  }

  // The phrase `p` stands at `s[i..j]`, can be read, and means `v`.
  ghost predicate Derives(wraps: bool, p: Phrase, s: seq<byte>, i: nat, v: Bnode, j: nat) {
    Shaped(p) && Readable(wraps, p) && Meaning(p) == v && At(s, i, Render(p)) && j == i + |Render(p)|
  }

  // What a successful scan has read.
  lemma {:induction false} ScanRead(wraps: bool, s: seq<byte>, i: nat, before: seq<byte>, stop: byte)
    returns (ds: seq<byte>)
    requires i <= |s| && Digits(before) && Safe(wraps, before)
    requires Scan(wraps, s, i, Number(before), stop).Scanned?
    ensures Digits(ds) && Digits(before + ds) && Safe(wraps, before + ds) && At(s, i, ds + [stop])
    ensures Scan(wraps, s, i, Number(before), stop) == Scanned(Number(before + ds), i + |ds|)
    decreases |s| - i
  {
    hide At, Safe, Number, Trips;
    AtOne(s, i);
    if s[i] == stop {
      ds := [];
      assert before + [] == before;
      assert [] + [stop] == [stop];
    } else {
      NumberSnoc(before, s[i]);
      var rest := ScanRead(wraps, s, i + 1, before + [s[i]], stop);
      ds := [s[i]] + rest;
      assert before + ds == before + [s[i]] + rest;
      assert ds + [stop] == [s[i]] + (rest + [stop]);
      AtJoin(s, i, [s[i]], rest + [stop]);
    }
  }

  lemma ReadInt(wraps: bool, s: seq<byte>, i: nat) returns (p: Phrase)
    requires i < |s| && s[i] == INT && Parse(wraps, s, i).Parsed?
    ensures Derives(wraps, p, s, i, Parse(wraps, s, i).node, Parse(wraps, s, i).next)
  {
    hide At, Safe, Number, Scan, Parse;
    ParseHead(wraps, s, i);
    EmptyNumber(wraps);
    var ds := ScanRead(wraps, s, i + 1, [], END);
    assert [] + ds == ds;
    p := IntP(ds);
    assert Render(p) == [INT] + (ds + [END]);
    AtOne(s, i);
    AtJoin(s, i, [INT], ds + [END]);
  }

  lemma ReadStr(wraps: bool, s: seq<byte>, i: nat) returns (length: seq<byte>, body: seq<byte>)
    requires i < |s| && IsDigit(s[i]) && Parse(wraps, s, i).Parsed?
    ensures ShapedStr(length, body) && Safe(wraps, length) && At(s, i, RenderStr(length, body))
    ensures Parse(wraps, s, i) == Parsed(Str(body), i + |RenderStr(length, body)|)
  {
    hide At, Safe, Number, Scan;
    EmptyNumber(wraps);
    length := ScanRead(wraps, s, i, [], COLON);
    assert [] + length == length;
    var from := i + |length| + 1;
    body := s[from..from + Number(length)];
    assert At(s, from, body) by { AtSlice(s, from, Number(length)); }
    AtJoin(s, i, length + [COLON], body);
    if length == [] {
      AtSplit(s, i, [], [COLON]);
    }
  }

  lemma NotNull(wraps: bool, s: seq<byte>, i: nat)
    requires i <= |s| && Parse(wraps, s, i).Parsed?
    ensures i < |s|
  {
  }

  lemma PhraseOfStr(wraps: bool, length: seq<byte>, body: seq<byte>)
    requires ShapedStr(length, body)
    ensures Shaped(StrP(length, body)) && Meaning(StrP(length, body)) == Str(body)
    ensures Readable(wraps, StrP(length, body)) <==> Safe(wraps, length)
  {
  }

  lemma PhraseOfItems(wraps: bool, items: Items)
    requires ShapedItems(items)
    ensures Shaped(ListP(items)) && Meaning(ListP(items)) == List([] + MeaningOfItems(items))
    ensures Readable(wraps, ListP(items)) <==> ReadableItems(wraps, items)
  {
    assert [] + MeaningOfItems(items) == MeaningOfItems(items);
  }

  lemma PhraseOfEntries(wraps: bool, entries: Entries)
    requires ShapedEntries(entries)
    ensures Shaped(DictP(entries)) && Meaning(DictP(entries)) == Dict(MeaningOfEntries(entries, map[]))
    ensures Readable(wraps, DictP(entries)) <==> ReadableEntries(wraps, entries)
  {
  }

  /** Whatever the decoder accepts is a phrase of the grammar, and the value it returns is what that phrase means. */
  lemma {:induction false} ReadPhrase(wraps: bool, s: seq<byte>, i: nat) returns (p: Phrase)
    requires i <= |s| && Parse(wraps, s, i).Parsed?
    ensures Derives(wraps, p, s, i, Parse(wraps, s, i).node, Parse(wraps, s, i).next)
    decreases |s| - i, 0
  {
    hide At, Scan, Safe, Number, Parse, Meaning, Readable, RenderItems, RenderEntries;
    NotNull(wraps, s, i);
    ParseHead(wraps, s, i);
    if s[i] == INT {
      p := ReadInt(wraps, s, i);
    } else if IsDigit(s[i]) {
      var length, body := ReadStr(wraps, s, i);
      p := StrP(length, body);
      PhraseOfStr(wraps, length, body);
    } else if s[i] == LIST {
      var items := ReadItems(wraps, s, i + 1, []);
      p := ListP(items);
      PhraseOfItems(wraps, items);
      assert Render(p) == [LIST] + (RenderItems(items) + [END]);
      AtOne(s, i);
      AtJoin(s, i, [LIST], RenderItems(items) + [END]);
    } else {
      var entries := ReadEntries(wraps, s, i + 1, map[]);
      p := DictP(entries);
      PhraseOfEntries(wraps, entries);
      assert Render(p) == [DICT] + (RenderEntries(entries) + [END]);
      AtOne(s, i);
      AtJoin(s, i, [DICT], RenderEntries(entries) + [END]);
    }
  }

  lemma {:induction false} ReadItems(wraps: bool, s: seq<byte>, i: nat, before: seq<Bnode>) returns (items: Items)
    requires i <= |s| && ParseItems(wraps, s, i, before).Parsed?
    ensures ShapedItems(items) && ReadableItems(wraps, items) && At(s, i, RenderItems(items) + [END])
    ensures ParseItems(wraps, s, i, before)
            == Parsed(List(before + MeaningOfItems(items)), i + |RenderItems(items)| + 1)
    decreases |s| - i, 1
  {
    hide At, Scan, Parse, Safe, Number, Render, Meaning, Readable, Shaped;
    AtOne(s, i);
    if s[i] == END {
      items := NoItem;
      assert before + [] == before;
      assert [] + [END] == [END];
    } else {
      var r := Parse(wraps, s, i);
      var head := ReadPhrase(wraps, s, i);
      var tail := ReadItems(wraps, s, r.next, before + [r.node]);
      items := Item(head, tail);
      assert before + [r.node] + MeaningOfItems(tail) == before + MeaningOfItems(items);
      assert RenderItems(items) + [END] == Render(head) + (RenderItems(tail) + [END]);
      AtJoin(s, i, Render(head), RenderItems(tail) + [END]);
    }
  }

  lemma {:induction false} ReadEntries(wraps: bool, s: seq<byte>, i: nat, before: map<seq<byte>, Bnode>)
    returns (entries: Entries)
    requires i <= |s| && ParseEntries(wraps, s, i, before).Parsed?
    ensures ShapedEntries(entries) && ReadableEntries(wraps, entries) && At(s, i, RenderEntries(entries) + [END])
    ensures ParseEntries(wraps, s, i, before)
            == Parsed(Dict(MeaningOfEntries(entries, before)), i + |RenderEntries(entries)| + 1)
    decreases |s| - i, 1
  {
    hide At, Scan, Parse, Safe, Number, Render, Meaning, Readable, Shaped;
    AtOne(s, i);
    if s[i] == END {
      entries := NoEntry;
      assert [] + [END] == [END];
    } else {
      EntryRead(wraps, s, i, before);
      StrAtDigit(wraps, s, i);
      hide ParseEntries, RenderEntries, RenderStr;
      var length, key := ReadStr(wraps, s, i);
      var j := i + |RenderStr(length, key)|;
      var r := Parse(wraps, s, j);
      var value := ReadPhrase(wraps, s, j);
      var rest := ReadEntries(wraps, s, r.next, before[key := r.node]);
      entries := Entry(length, key, value, rest);
      EntryStands(s, i, length, key, value, rest);
    }
  }

  lemma EntryStands(s: seq<byte>, i: nat, length: seq<byte>, key: seq<byte>, value: Phrase, rest: Entries)
    requires var j := i + |RenderStr(length, key)|;
             && At(s, i, RenderStr(length, key)) && At(s, j, Render(value))
             && At(s, j + |Render(value)|, RenderEntries(rest) + [END])
    ensures At(s, i, RenderEntries(Entry(length, key, value, rest)) + [END])
    ensures |RenderEntries(Entry(length, key, value, rest))|
            == |RenderStr(length, key)| + |Render(value)| + |RenderEntries(rest)|
  {
    hide At, RenderEntries, RenderStr, Render;
    var j := i + |RenderStr(length, key)|;
    RenderTurn(length, key, value, rest);
    AtJoin(s, j, Render(value), RenderEntries(rest) + [END]);
    AtJoin(s, i, RenderStr(length, key), Render(value) + (RenderEntries(rest) + [END]));
    assert |RenderEntries(Entry(length, key, value, rest)) + [END]|
           == |RenderStr(length, key) + (Render(value) + (RenderEntries(rest) + [END]))|;
  }

  // A successful turn has read a string and a value.
  lemma EntryRead(wraps: bool, s: seq<byte>, i: nat, entries: map<seq<byte>, Bnode>)
    requires i < |s| && s[i] != END && ParseEntries(wraps, s, i, entries).Parsed?
    ensures var k := Parse(wraps, s, i);
            && k.Parsed? && k.node.Str? && Parse(wraps, s, k.next).Parsed?
            && var v := Parse(wraps, s, k.next);
            ParseEntries(wraps, s, i, entries) == ParseEntries(wraps, s, v.next, entries[k.node.bytes := v.node])
  {
    hide Parse;
  }

  // A string can only come from a token that is a digit.
  lemma StrAtDigit(wraps: bool, s: seq<byte>, i: nat)
    requires i < |s|
    ensures Parse(wraps, s, i).Parsed? && Parse(wraps, s, i).node.Str? ==> IsDigit(s[i])
  {
    hide Scan;
    if s[i] == LIST { NodeOfItems(wraps, s, i + 1, []); }
    if s[i] == DICT { NodeOfEntries(wraps, s, i + 1, map[]); }
  }

  lemma {:induction false} NodeOfItems(wraps: bool, s: seq<byte>, i: nat, items: seq<Bnode>)
    requires i <= |s|
    ensures var r := ParseItems(wraps, s, i, items); r.Parsed? ==> r.node.List?
    decreases |s| - i
  {
    hide Parse;
    if i < |s| && s[i] != END && Parse(wraps, s, i).Parsed? {
      NodeOfItems(wraps, s, Parse(wraps, s, i).next, items + [Parse(wraps, s, i).node]);
    }
  }

  lemma {:induction false} NodeOfEntries(wraps: bool, s: seq<byte>, i: nat, entries: map<seq<byte>, Bnode>)
    requires i <= |s|
    ensures var r := ParseEntries(wraps, s, i, entries); r.Parsed? ==> r.node.Dict?
    decreases |s| - i
  {
    hide Parse;
    if i < |s| && s[i] != END && Parse(wraps, s, i).Parsed? && Parse(wraps, s, i).node.Str? {
      var r := Parse(wraps, s, i);
      if Parse(wraps, s, r.next).Parsed? {
        var v := Parse(wraps, s, r.next);
        NodeOfEntries(wraps, s, v.next, entries[r.node.bytes := v.node]);
      }
    }
  }

  /** The decoder succeeds with `v` having read `s[i..j]` if and only if the grammar derives `v` from those bytes. */
  lemma ParseIffDerives(wraps: bool, s: seq<byte>, i: nat, v: Bnode, j: nat)
    requires i <= |s|
    ensures Parse(wraps, s, i) == Parsed(v, j) <==> exists p :: Derives(wraps, p, s, i, v, j)
  {
    hide Parse;
    if Parse(wraps, s, i) == Parsed(v, j) {
      var p := ReadPhrase(wraps, s, i);
      assert Derives(wraps, p, s, i, v, j);
    }
    forall p | Derives(wraps, p, s, i, v, j) ensures Parse(wraps, s, i) == Parsed(v, j) {
      ParsePhrase(wraps, s, i, p);
    }
  }
}
