/**
 * What keeps the decoder from an answer, at any depth: byte 0xFF where it expects a token, and a number above
 * LLONG_MAX. Whatever else it cannot read it refuses by an exception.
 */
module BencodeStops {
  import opened Bytes
  import opened Grammar = BencodeGrammar
  import opened Parser = BencodeParser

  /**
   * The way to a token: lists and dictionaries opened and not yet closed, each with the items or entries that are
   * complete in front of it. A key may open a container too; the decoder notices only behind it that it is no string.
   */
  datatype Opening =
    | Token
    | InList(items: Items, inner: Opening)
    | AtKey(entries: Entries, inner: Opening)
    | AtValue(entries: Entries, length: seq<byte>, key: seq<byte>, inner: Opening)

  function RenderOpening(o: Opening): seq<byte> {
    match o
    case Token => []
    case InList(items, inner) => [LIST] + (RenderItems(items) + RenderOpening(inner))
    case AtKey(entries, inner) => [DICT] + (RenderEntries(entries) + RenderOpening(inner))
    case AtValue(entries, length, key, inner) =>
      [DICT] + (RenderEntries(entries) + (RenderStr(length, key) + RenderOpening(inner)))
  }

  predicate ShapedOpening(o: Opening) {
    match o
    case Token => true
    case InList(items, inner) => ShapedItems(items) && ShapedOpening(inner)
    case AtKey(entries, inner) => ShapedEntries(entries) && ShapedOpening(inner)
    case AtValue(entries, length, key, inner) =>
      ShapedEntries(entries) && ShapedStr(length, key) && ShapedOpening(inner)
  }

  predicate ReadableOpening(wraps: bool, o: Opening)
    requires ShapedOpening(o)
  {
    match o
    case Token => true
    case InList(items, inner) => ReadableItems(wraps, items) && ReadableOpening(wraps, inner)
    case AtKey(entries, inner) => ReadableEntries(wraps, entries) && ReadableOpening(wraps, inner)
    case AtValue(entries, length, _, inner) =>
      ReadableEntries(wraps, entries) && Safe(wraps, length) && ReadableOpening(wraps, inner)
  }

  datatype Container = NoContainer | OfItems | OfEntries

  // What the token stands in directly.
  function Innermost(o: Opening, outside: Container): Container {
    match o
    case Token => outside
    case InList(_, inner) => Innermost(inner, OfItems)
    case AtKey(_, inner) => Innermost(inner, OfEntries)
    case AtValue(_, _, _, inner) => Innermost(inner, OfEntries)
  }

  // A null node is what a call at the top returns, what a list loop hangs on, and what a dictionary crashes on.
  function NullIn(c: Container): Outcome {
    match c
    case NoContainer => Null
    case OfItems => Hangs
    case OfEntries => Crashes
  }

  // `o` stands in `s` at `i`, can be read, and is followed by `token`.
  ghost predicate Leads(wraps: bool, s: seq<byte>, i: nat, o: Opening, token: seq<byte>) {
    ShapedOpening(o) && ReadableOpening(wraps, o) && At(s, i, RenderOpening(o) + token)
  }

  // It leads to byte 0xFF.
  ghost predicate Reaches255(wraps: bool, s: seq<byte>, i: nat, o: Opening) {
    Leads(wraps, s, i, o, [255])
  }

  // Digits that are safe so far, and that the next digit takes above LLONG_MAX.
  predicate Oversized(wraps: bool, ds: seq<byte>, d: byte) {
    && Digits(ds) && IsDigit(d) && Safe(wraps, ds) && !Trips(wraps, Number(ds))
    && Number(ds) * 10 + (d as int - 48) > LLONG_MAX
  }

  // It leads to such a number, an integer or the length of a string.
  ghost predicate Overflows(wraps: bool, s: seq<byte>, i: nat, o: Opening, ds: seq<byte>, d: byte) {
    Oversized(wraps, ds, d) && (Leads(wraps, s, i, o, ds + [d]) || Leads(wraps, s, i, o, [INT] + (ds + [d])))
  }

  // Neither the end token nor empty.
  predicate Begins(token: seq<byte>) {
    token != [] && token[0] != END
  }

  // Null comes from nothing but the end of the input and byte 0xFF.
  lemma NullMeans(wraps: bool, s: seq<byte>, i: nat)
    requires i <= |s|
    ensures Parse(wraps, s, i).Null? <==> i == |s| || s[i] == 255
  {
    hide Scan;
  }

  // No value, and not the null that a loop may still pass on.
  predicate Stops(r: Outcome) {
    !r.Parsed? && !r.Null?
  }

  // One turn of the list loop.
  lemma ItemStep(wraps: bool, s: seq<byte>, i: nat, items: seq<Bnode>)
    requires i < |s| && s[i] != END
    ensures Parse(wraps, s, i).Null? ==> ParseItems(wraps, s, i, items) == Hangs
    ensures Stops(Parse(wraps, s, i)) ==> ParseItems(wraps, s, i, items) == Parse(wraps, s, i)
  {
    hide Parse;
  }

  lemma KeyStep(wraps: bool, s: seq<byte>, i: nat, entries: map<seq<byte>, Bnode>)
    requires i < |s| && s[i] != END
    ensures Parse(wraps, s, i).Null? ==> ParseEntries(wraps, s, i, entries) == Crashes
    ensures Stops(Parse(wraps, s, i)) ==> ParseEntries(wraps, s, i, entries) == Parse(wraps, s, i)
  {
    hide Parse;
  }

  lemma ValueStep(wraps: bool, s: seq<byte>, i: nat, entries: map<seq<byte>, Bnode>)
    requires i < |s| && s[i] != END && Parse(wraps, s, i).Parsed? && Parse(wraps, s, i).node.Str?
    ensures var v := Parse(wraps, s, Parse(wraps, s, i).next);
            && (v.Null? && Parse(wraps, s, i).next < |s| ==> ParseEntries(wraps, s, i, entries) == Crashes)
            && (Stops(v) ==> ParseEntries(wraps, s, i, entries) == v)
  {
    hide Parse;
  }

  // The byte an opening begins with, or the token's own.
  lemma OpeningHead(s: seq<byte>, i: nat, o: Opening, token: seq<byte>)
    requires At(s, i, RenderOpening(o) + token) && Begins(token)
    ensures i < |s| && s[i] != END && (o.Token? ==> At(s, i, token))
  {
    AtByte(s, i, RenderOpening(o) + token, 0);
    if o.Token? { assert [] + token == token; }
  }

  // Openings one level at a time: what the token in the container does, the container does.
  lemma ListStops(wraps: bool, s: seq<byte>, i: nat, items: Items, after: seq<byte>)
    requires ShapedItems(items) && ReadableItems(wraps, items) && At(s, i, [LIST] + (RenderItems(items) + after))
    ensures var j := i + 1 + |RenderItems(items)|;
            && j <= |s| && At(s, j, after)
            && (j < |s| && s[j] != END ==>
                  && (Parse(wraps, s, j).Null? ==> Parse(wraps, s, i) == Hangs)
                  && (Stops(Parse(wraps, s, j)) ==> Parse(wraps, s, i) == Parse(wraps, s, j)))
  {
    hide At, Parse, ParseItems, Scan, RenderItems, ShapedItems, ReadableItems;
    AtSplit(s, i, [LIST], RenderItems(items) + after);
    AtSplit(s, i + 1, RenderItems(items), after);
    AtBytes(s, i + 1, RenderItems(items));
    AtByte(s, i, [LIST] + (RenderItems(items) + after), 0);
    ParseHead(wraps, s, i);
    ParseItemsPhrases(wraps, s, i + 1, items, []);
    var j := i + 1 + |RenderItems(items)|;
    if j < |s| && s[j] != END {
      ItemStep(wraps, s, j, [] + MeaningOfItems(items));
    }
  }

  lemma DictStops(wraps: bool, s: seq<byte>, i: nat, entries: Entries, after: seq<byte>)
    requires ShapedEntries(entries) && ReadableEntries(wraps, entries)
    requires At(s, i, [DICT] + (RenderEntries(entries) + after))
    ensures var j := i + 1 + |RenderEntries(entries)|;
            && j <= |s| && At(s, j, after)
            && Parse(wraps, s, i) == ParseEntries(wraps, s, j, MeaningOfEntries(entries, map[]))
  {
    hide At, Parse, ParseEntries, Scan, RenderEntries, ShapedEntries, ReadableEntries;
    AtSplit(s, i, [DICT], RenderEntries(entries) + after);
    AtSplit(s, i + 1, RenderEntries(entries), after);
    AtBytes(s, i + 1, RenderEntries(entries));
    AtByte(s, i, [DICT] + (RenderEntries(entries) + after), 0);
    ParseHead(wraps, s, i);
    ParseEntriesPhrases(wraps, s, i + 1, entries, map[]);
  }

  // The outcome at the token, seen from the container it stands in.
  lemma NullInside(o: Opening, c: Container)
    ensures o.Token? ==> NullIn(Innermost(o, NoContainer)) == Null && Innermost(o, c) == c
    ensures !o.Token? ==> Stops(NullIn(Innermost(o, NoContainer))) && Innermost(o, NoContainer) == Innermost(o, c)
    decreases o
  {
    match o
    case Token =>
    case InList(_, inner) => NullInside(inner, OfItems);
    case AtKey(_, inner) => NullInside(inner, OfEntries);
    case AtValue(_, _, _, inner) => NullInside(inner, OfEntries);
  }

  // What a token stops with, the whole call stops with.
  predicate Carries(token: Outcome, whole: Outcome, o: Opening) {
    && (token.Null? ==> whole == NullIn(Innermost(o, NoContainer)))
    && (Stops(token) ==> whole == token)
  }

  // One container around an opening whose own outcome is known; `r` is the outcome at the token.
  lemma ListCarries(wraps: bool, s: seq<byte>, i: nat, items: Items, inner: Opening, after: seq<byte>, r: Outcome)
    requires ShapedItems(items) && ReadableItems(wraps, items) && At(s, i, [LIST] + (RenderItems(items) + after))
    requires var k := i + 1 + |RenderItems(items)|;
             k < |s| && s[k] != END && Carries(r, Parse(wraps, s, k), inner)
    ensures Carries(r, Parse(wraps, s, i), InList(items, inner))
  {
    hide At, Parse, RenderItems, ShapedItems, ReadableItems;
    ListStops(wraps, s, i, items, after);
    NullInside(inner, OfItems);
  }

  lemma KeyCarries(wraps: bool, s: seq<byte>, i: nat, entries: Entries, inner: Opening, after: seq<byte>, r: Outcome)
    requires ShapedEntries(entries) && ReadableEntries(wraps, entries)
    requires At(s, i, [DICT] + (RenderEntries(entries) + after))
    requires var k := i + 1 + |RenderEntries(entries)|;
             k < |s| && s[k] != END && Carries(r, Parse(wraps, s, k), inner)
    ensures Carries(r, Parse(wraps, s, i), AtKey(entries, inner))
  {
    hide At, Parse, ParseEntries, RenderEntries, ShapedEntries, ReadableEntries;
    DictStops(wraps, s, i, entries, after);
    KeyStep(wraps, s, i + 1 + |RenderEntries(entries)|, MeaningOfEntries(entries, map[]));
    NullInside(inner, OfEntries);
  }

  lemma ValueCarries(wraps: bool, s: seq<byte>, i: nat, o: Opening, after: seq<byte>, r: Outcome)
    requires o.AtValue? && ShapedOpening(o) && ReadableOpening(wraps, o)
    requires At(s, i, [DICT] + (RenderEntries(o.entries) + (RenderStr(o.length, o.key) + after)))
    requires var k := i + 1 + |RenderEntries(o.entries)| + |RenderStr(o.length, o.key)|;
             k < |s| && Carries(r, Parse(wraps, s, k), o.inner)
    ensures Carries(r, Parse(wraps, s, i), o)
  {
    hide At, Parse, ParseEntries, RenderEntries, RenderStr, ShapedEntries, ReadableEntries, Safe, Number, Digits;
    var name := RenderStr(o.length, o.key);
    DictStops(wraps, s, i, o.entries, name + after);
    var k := i + 1 + |RenderEntries(o.entries)|;
    AtSplit(s, k, name, after);
    StrHead(s, k, o.length, o.key);
    ParseStr(wraps, s, k, o.length, o.key);
    ValueStep(wraps, s, k, MeaningOfEntries(o.entries, map[]));
    NullInside(o.inner, OfEntries);
  }

  // The bytes of an opening in front of the one inside it.
  function Front(o: Opening): seq<byte> {
    match o
    case Token => []
    case InList(items, _) => [LIST] + RenderItems(items)
    case AtKey(entries, _) => [DICT] + RenderEntries(entries)
    case AtValue(entries, length, key, _) => [DICT] + (RenderEntries(entries) + RenderStr(length, key))
  }

  lemma FrontIs(o: Opening, token: seq<byte>)
    requires !o.Token?
    ensures RenderOpening(o) + token == Front(o) + (RenderOpening(o.inner) + token)
    ensures |RenderOpening(o)| == |Front(o)| + |RenderOpening(o.inner)| && |Front(o)| > 0
  {
    OpeningIs(o);
    hide RenderOpening, Front;
    Associative(Front(o), RenderOpening(o.inner), token);
  }

  lemma OpeningIs(o: Opening)
    requires !o.Token?
    ensures RenderOpening(o) == Front(o) + RenderOpening(o.inner) && |Front(o)| > 0
  {
    hide RenderItems, RenderEntries, RenderStr;
    var inner := RenderOpening(o.inner);
    match o
    case InList(items, _) => Associative([LIST], RenderItems(items), inner);
    case AtKey(entries, _) => Associative([DICT], RenderEntries(entries), inner);
    case AtValue(entries, length, key, _) =>
      var name := RenderStr(length, key);
      Associative([DICT], RenderEntries(entries) + name, inner);
      Associative(RenderEntries(entries), name, inner);
  }

  lemma FrontInParts(o: Opening, after: seq<byte>)
    ensures match o
            case Token => true
            case InList(items, _) => Front(o) + after == [LIST] + (RenderItems(items) + after)
            case AtKey(entries, _) => Front(o) + after == [DICT] + (RenderEntries(entries) + after)
            case AtValue(entries, length, key, _) =>
              Front(o) + after == [DICT] + (RenderEntries(entries) + (RenderStr(length, key) + after))
  {
    hide RenderItems, RenderEntries, RenderStr;
  }

  // What stands in front of the token, one container after the other.
  lemma InnerLeads(wraps: bool, s: seq<byte>, i: nat, o: Opening, token: seq<byte>)
    requires Leads(wraps, s, i, o, token) && !o.Token?
    ensures var k, after := i + |Front(o)|, RenderOpening(o.inner) + token;
            && i < k && k + |RenderOpening(o.inner)| == i + |RenderOpening(o)| && Leads(wraps, s, k, o.inner, token)
            && match o
               case Token => true
               case InList(items, _) =>
                 k == i + 1 + |RenderItems(items)| && At(s, i, [LIST] + (RenderItems(items) + after))
               case AtKey(entries, _) =>
                 k == i + 1 + |RenderEntries(entries)| && At(s, i, [DICT] + (RenderEntries(entries) + after))
               case AtValue(entries, length, key, _) =>
                 && k == i + 1 + |RenderEntries(entries)| + |RenderStr(length, key)|
                 && At(s, i, [DICT] + (RenderEntries(entries) + (RenderStr(length, key) + after)))
  {
    hide At, RenderOpening, RenderItems, RenderEntries, RenderStr, ShapedItems, ShapedEntries, ReadableItems,
         ReadableEntries, Safe, ShapedStr;
    FrontIs(o, token);
    FrontInParts(o, RenderOpening(o.inner) + token);
    AtSplit(s, i, Front(o), RenderOpening(o.inner) + token);
  }

  /** The outcome at the token of an opening that can be read decides that of the whole call. */
  lemma {:induction false} OpeningStops(wraps: bool, s: seq<byte>, i: nat, o: Opening, token: seq<byte>)
    requires Leads(wraps, s, i, o, token) && Begins(token)
    ensures var j := i + |RenderOpening(o)|;
            i <= j < |s| && At(s, j, token) && Carries(Parse(wraps, s, j), Parse(wraps, s, i), o)
    decreases o
  {
    hide At, Parse, Safe, Number, ShapedItems, ShapedEntries, ReadableItems, ReadableEntries, Digits, RenderOpening,
         RenderItems, RenderEntries, RenderStr, Front, Begins, Carries;
    OpeningHead(s, i, o, token);
    if o.Token? {
      NothingOpened(wraps);
      CarriesItself(Parse(wraps, s, i));
    } else {
      InnerLeads(wraps, s, i, o, token);
      var k := i + |Front(o)|;
      OpeningHead(s, k, o.inner, token);
      OpeningStops(wraps, s, k, o.inner, token);
      var r, after := Parse(wraps, s, i + |RenderOpening(o)|), RenderOpening(o.inner) + token;
      match o
      case InList(items, inner) => ListCarries(wraps, s, i, items, inner, after, r);
      case AtKey(entries, inner) => KeyCarries(wraps, s, i, entries, inner, after, r);
      case AtValue(_, _, _, _) => ValueCarries(wraps, s, i, o, after, r);
    }
  }

  lemma CarriesItself(r: Outcome)
    ensures Carries(r, r, Token)
  {
  }

  lemma NothingOpened(wraps: bool)
    ensures ShapedOpening(Token) && ReadableOpening(wraps, Token) && RenderOpening(Token) == []
  {
  }

  // Digits that pass LLONG_MAX stop the scan, whatever comes behind them.
  lemma {:induction false} ScanPasses(wraps: bool, s: seq<byte>, i: nat, before: seq<byte>, ds: seq<byte>,
      d: byte, stop: byte)
    requires Digits(before) && !IsDigit(stop) && Oversized(wraps, before + ds, d) && At(s, i, ds + [d])
    ensures i <= |s| && Scan(wraps, s, i, Number(before), stop) == TooLarge
    decreases |ds|
  {
    hide At, Safe, Number, Trips;
    AtBytes(s, i, ds + [d]);
    AtByte(s, i, ds + [d], 0);
    if ds == [] {
      assert before + [] == before;
    } else {
      var e, rest := ds[0], ds[1..];
      assert e in before + ds;
      assert ds + [d] == [e] + (rest + [d]);
      AtSplit(s, i, [e], rest + [d]);
      NumberSnoc(before, e);
      assert before + ds == before + [e] + rest;
      assert forall x <- rest :: x in before + ds;
      SafeFront(wraps, before + [e], rest);
      ScanPasses(wraps, s, i + 1, before + [e], rest, d, stop);
    }
  }

  // And where a scan stops so, there are such digits.
  lemma {:induction false} FindDigits(wraps: bool, s: seq<byte>, i: nat, before: seq<byte>, stop: byte)
    returns (ds: seq<byte>, d: byte)
    requires i <= |s| && Digits(before) && Safe(wraps, before) && Scan(wraps, s, i, Number(before), stop) == TooLarge
    ensures Oversized(wraps, before + ds, d) && At(s, i, ds + [d])
    decreases |s| - i
  {
    hide At, Safe, Number, Trips;
    AtOne(s, i);
    NumberSnoc(before, s[i]);
    if Number(before) * 10 + (s[i] as int - 48) > LLONG_MAX {
      ds, d := [], s[i];
      assert before + [] == before;
      assert [] + [d] == [s[i]];
    } else {
      var rest;
      rest, d := FindDigits(wraps, s, i + 1, before + [s[i]], stop);
      ds := [s[i]] + rest;
      assert before + ds == before + [s[i]] + rest;
      assert ds + [d] == [s[i]] + (rest + [d]);
      AtJoin(s, i, [s[i]], rest + [d]);
    }
  }

  // A number above LLONG_MAX, seen from its token.
  lemma TokenPasses(wraps: bool, s: seq<byte>, i: nat, ds: seq<byte>, d: byte)
    requires Oversized(wraps, ds, d) && (At(s, i, ds + [d]) || At(s, i, [INT] + (ds + [d])))
    ensures i < |s| && Parse(wraps, s, i) == Undefined && ds != []
    ensures Begins(ds + [d]) && Begins([INT] + (ds + [d]))
  {
    hide At, Safe, Number, Trips, Parse, Scan;
    EmptyNumber(wraps);
    assert [] + ds == ds;
    assert ds != [] && ds[0] in ds;
    if At(s, i, ds + [d]) {
      AtByte(s, i, ds + [d], 0);
      ScanPasses(wraps, s, i, [], ds, d, COLON);
    } else {
      AtByte(s, i, [INT] + (ds + [d]), 0);
      AtSplit(s, i, [INT], ds + [d]);
      ScanPasses(wraps, s, i + 1, [], ds, d, END);
    }
    ParseHead(wraps, s, i);
  }

  // The token that undefined behaviour comes from directly.
  lemma FindNumber(wraps: bool, s: seq<byte>, i: nat) returns (ds: seq<byte>, d: byte)
    requires i < |s| && Parse(wraps, s, i) == Undefined && s[i] != LIST && s[i] != DICT
    ensures Oversized(wraps, ds, d) && (At(s, i, ds + [d]) || At(s, i, [INT] + (ds + [d])))
  {
    hide At, Safe, Number, Trips, Parse, Scan, Oversized;
    EmptyNumber(wraps);
    ParseHead(wraps, s, i);
    if s[i] == INT {
      ds, d := FindDigits(wraps, s, i + 1, [], END);
      AtOne(s, i);
      AtJoin(s, i, [INT], ds + [d]);
    } else {
      ds, d := FindDigits(wraps, s, i, [], COLON);
    }
    assert [] + ds == ds;
  }

  lemma StrHead(s: seq<byte>, i: nat, length: seq<byte>, body: seq<byte>)
    requires ShapedStr(length, body) && At(s, i, RenderStr(length, body))
    ensures i < |s| && s[i] != END
  {
    hide Number;
    AtByte(s, i, RenderStr(length, body), 0);
    assert length[0] in length;
  }

  // An opening of a dictionary without its first byte, up to the end of its token.
  function Inside(o: Opening, token: seq<byte>): seq<byte> {
    match o
    case Token => []
    case InList(items, inner) => []
    case AtKey(entries, inner) => RenderEntries(entries) + (RenderOpening(inner) + token)
    case AtValue(entries, length, key, inner) =>
      RenderEntries(entries) + (RenderStr(length, key) + (RenderOpening(inner) + token))
  }

  lemma InsideOf(o: Opening, token: seq<byte>)
    requires o.AtKey? || o.AtValue?
    ensures RenderOpening(o) + token == [DICT] + Inside(o, token)
  {
  }

  lemma InListOf(wraps: bool, items: Items, inner: Opening, token: seq<byte>)
    requires ShapedItems(items) && ReadableItems(wraps, items) && ShapedOpening(inner) && ReadableOpening(wraps, inner)
    ensures var o := InList(items, inner);
            && ShapedOpening(o) && ReadableOpening(wraps, o)
            && RenderOpening(o) + token == [LIST] + (RenderItems(items) + (RenderOpening(inner) + token))
  {
    hide ShapedItems, ReadableItems, RenderItems;
  }

  // The tokens that leave the decoder without an answer.
  ghost predicate Fatal(wraps: bool, token: seq<byte>) {
    token == [255] || exists ds, d :: Oversized(wraps, ds, d) && (token == ds + [d] || token == [INT] + (ds + [d]))
  }

  lemma NumberIsFatal(wraps: bool, ds: seq<byte>, d: byte)
    requires Oversized(wraps, ds, d)
    ensures Fatal(wraps, ds + [d]) && Fatal(wraps, [INT] + (ds + [d]))
  {
  }

  // Null in a place where it stops a loop, or one of the outcomes that are no answer.
  predicate NoAnswer(r: Outcome) {
    r == Hangs || r == Crashes || r == Undefined
  }

  /** Whenever the decoder hangs, crashes or passes LLONG_MAX, an opening leads to the token that made it. */
  lemma {:induction false} FindOpening(wraps: bool, s: seq<byte>, i: nat) returns (o: Opening, token: seq<byte>)
    requires i < |s| && (Parse(wraps, s, i).Null? || NoAnswer(Parse(wraps, s, i)))
    ensures Leads(wraps, s, i, o, token) && Fatal(wraps, token)
    decreases |s| - i, 0
  {
    hide At, Parse, ParseItems, ParseEntries, Scan, RenderOpening, ShapedOpening, ReadableOpening, Inside, Oversized;
    NullMeans(wraps, s, i);
    ParseHead(wraps, s, i);
    AtOne(s, i);
    if s[i] == LIST {
      var items, inner;
      items, inner, token := FindInItems(wraps, s, i + 1, []);
      o := InList(items, inner);
      AtJoin(s, i, [LIST], RenderItems(items) + (RenderOpening(inner) + token));
      InListOf(wraps, items, inner, token);
    } else if s[i] == DICT {
      o, token := FindInEntries(wraps, s, i + 1, map[]);
      AtJoin(s, i, [DICT], Inside(o, token));
      InsideOf(o, token);
    } else {
      o := Token;
      NothingOpened(wraps);
      if s[i] == 255 {
        token := [255];
      } else {
        NotStuck(wraps, s, i);
        var ds, d := FindNumber(wraps, s, i);
        NumberIsFatal(wraps, ds, d);
        token := if At(s, i, ds + [d]) then ds + [d] else [INT] + (ds + [d]);
      }
      assert RenderOpening(o) + token == token;
    }
  }

  // Only a container hangs or crashes.
  lemma NotStuck(wraps: bool, s: seq<byte>, i: nat)
    requires i < |s| && s[i] != LIST && s[i] != DICT
    ensures Parse(wraps, s, i) != Hangs && Parse(wraps, s, i) != Crashes
  {
    hide Scan;
  }

  lemma {:induction false} FindInItems(wraps: bool, s: seq<byte>, i: nat, before: seq<Bnode>)
    returns (items: Items, inner: Opening, token: seq<byte>)
    requires i <= |s| && NoAnswer(ParseItems(wraps, s, i, before))
    ensures ShapedItems(items) && ReadableItems(wraps, items)
    ensures ShapedOpening(inner) && ReadableOpening(wraps, inner)
    ensures At(s, i, RenderItems(items) + (RenderOpening(inner) + token)) && Fatal(wraps, token)
    decreases |s| - i, 1
  {
    hide At, Parse, Scan, RenderOpening, Render, Shaped, Readable, Meaning, Fatal;
    NullMeans(wraps, s, i);
    var r := Parse(wraps, s, i);
    if r.Parsed? {
      var head := ReadPhrase(wraps, s, i);
      var tail;
      tail, inner, token := FindInItems(wraps, s, r.next, before + [r.node]);
      items := Item(head, tail);
      AtJoin(s, i, Render(head), RenderItems(tail) + (RenderOpening(inner) + token));
      assert RenderItems(items) + (RenderOpening(inner) + token)
          == Render(head) + (RenderItems(tail) + (RenderOpening(inner) + token));
    } else {
      items := NoItem;
      inner, token := FindOpening(wraps, s, i);
      assert [] + (RenderOpening(inner) + token) == RenderOpening(inner) + token;
    }
  }

  // The same opening behind one more entry.
  function Behind(length: seq<byte>, key: seq<byte>, value: Phrase, o: Opening): Opening {
    match o
    case AtKey(entries, inner) => AtKey(Entry(length, key, value, entries), inner)
    case AtValue(entries, length', key', inner) => AtValue(Entry(length, key, value, entries), length', key', inner)
    case _ => o
  }

  lemma InsideBehind(wraps: bool, length: seq<byte>, key: seq<byte>, value: Phrase, o: Opening, token: seq<byte>)
    requires ShapedStr(length, key) && Safe(wraps, length) && Shaped(value) && Readable(wraps, value)
    requires (o.AtKey? || o.AtValue?) && ShapedOpening(o) && ReadableOpening(wraps, o)
    ensures var b := Behind(length, key, value, o);
            && (b.AtKey? || b.AtValue?) && ShapedOpening(b) && ReadableOpening(wraps, b)
            && Inside(b, token) == RenderStr(length, key) + (Render(value) + Inside(o, token))
  {
    hide Safe, Number, Digits, RenderStr, Render, Readable, Shaped;
  }

  lemma InFirstEntry(wraps: bool, length: seq<byte>, key: seq<byte>, inner: Opening, token: seq<byte>)
    requires ShapedOpening(inner) && ReadableOpening(wraps, inner)
    ensures var o := AtKey(NoEntry, inner);
            ShapedOpening(o) && ReadableOpening(wraps, o) && Inside(o, token) == RenderOpening(inner) + token
    ensures ShapedStr(length, key) && Safe(wraps, length) ==>
              var o := AtValue(NoEntry, length, key, inner);
              && ShapedOpening(o) && ReadableOpening(wraps, o)
              && Inside(o, token) == RenderStr(length, key) + (RenderOpening(inner) + token)
  {
    hide Safe, Number, Digits, RenderStr;
    assert RenderEntries(NoEntry) == [];
    assert [] + (RenderOpening(inner) + token) == RenderOpening(inner) + token;
  }

  lemma {:induction false} FindInEntries(wraps: bool, s: seq<byte>, i: nat, before: map<seq<byte>, Bnode>)
    returns (o: Opening, token: seq<byte>)
    requires i <= |s| && NoAnswer(ParseEntries(wraps, s, i, before))
    ensures (o.AtKey? || o.AtValue?) && ShapedOpening(o) && ReadableOpening(wraps, o)
    ensures At(s, i, Inside(o, token)) && Fatal(wraps, token)
    decreases |s| - i, 1
  {
    hide At, Parse, Scan, Safe, Number, Digits, RenderOpening, Render, RenderStr, RenderEntries, Shaped, Readable,
         Meaning, Fatal, Inside, ShapedOpening, ReadableOpening, Behind;
    NullMeans(wraps, s, i);
    var k := Parse(wraps, s, i);
    if !k.Parsed? {
      var inner;
      inner, token := FindOpening(wraps, s, i);
      o := AtKey(NoEntry, inner);
      InFirstEntry(wraps, [], [], inner, token);
    } else {
      StrAtDigit(wraps, s, i);
      var length, key := ReadStr(wraps, s, i);
      var j := i + |RenderStr(length, key)|;
      NullMeans(wraps, s, j);
      var v := Parse(wraps, s, j);
      if v.Parsed? {
        var value := ReadPhrase(wraps, s, j);
        var rest;
        rest, token := FindInEntries(wraps, s, v.next, before[key := v.node]);
        o := Behind(length, key, value, rest);
        InsideBehind(wraps, length, key, value, rest, token);
        AtJoin(s, j, Render(value), Inside(rest, token));
        AtJoin(s, i, RenderStr(length, key), Render(value) + Inside(rest, token));
      } else {
        var inner;
        inner, token := FindOpening(wraps, s, j);
        o := AtValue(NoEntry, length, key, inner);
        InFirstEntry(wraps, length, key, inner, token);
        AtJoin(s, i, RenderStr(length, key), RenderOpening(inner) + token);
      }
    }
  }

  // What byte 0xFF does behind an opening.
  lemma NullStops(wraps: bool, s: seq<byte>, i: nat, o: Opening)
    requires Reaches255(wraps, s, i, o)
    ensures i < |s| && Parse(wraps, s, i) == NullIn(Innermost(o, NoContainer))
  {
    hide Parse, At, RenderOpening, ShapedOpening, ReadableOpening;
    OpeningStops(wraps, s, i, o, [255]);
    var j := i + |RenderOpening(o)|;
    AtByte(s, j, [255], 0);
    NullMeans(wraps, s, j);
  }

  // What a number above LLONG_MAX does behind an opening.
  lemma NumberStops(wraps: bool, s: seq<byte>, i: nat, o: Opening, ds: seq<byte>, d: byte)
    requires Overflows(wraps, s, i, o, ds, d)
    ensures i < |s| && Parse(wraps, s, i) == Undefined
  {
    hide Parse, At, RenderOpening, ShapedOpening, ReadableOpening, Oversized;
    BeginsWithDigit(wraps, ds, d);
    if Leads(wraps, s, i, o, ds + [d]) {
      OpeningStops(wraps, s, i, o, ds + [d]);
    } else {
      OpeningStops(wraps, s, i, o, [INT] + (ds + [d]));
    }
    TokenPasses(wraps, s, i + |RenderOpening(o)|, ds, d);
  }

  lemma BeginsWithDigit(wraps: bool, ds: seq<byte>, d: byte)
    requires Oversized(wraps, ds, d)
    ensures Begins(ds + [d]) && Begins([INT] + (ds + [d]))
  {
    hide Number, Safe;
    if ds != [] { assert ds[0] in ds; }
  }

  // Which token it is that leaves the decoder without an answer.
  lemma TokenFound(wraps: bool, s: seq<byte>, i: nat) returns (o: Opening, ds: seq<byte>, d: byte)
    requires i < |s| && (Parse(wraps, s, i).Null? || NoAnswer(Parse(wraps, s, i)))
    ensures if Parse(wraps, s, i) == Undefined then Overflows(wraps, s, i, o, ds, d) else Reaches255(wraps, s, i, o)
  {
    hide Parse, At, RenderOpening, ShapedOpening, ReadableOpening, Oversized, Leads;
    var token;
    o, token := FindOpening(wraps, s, i);
    ds, d := [], 0;
    if token == [255] {
      NullStops(wraps, s, i, o);
    } else {
      ds, d :| Oversized(wraps, ds, d) && (token == ds + [d] || token == [INT] + (ds + [d]));
      NumberStops(wraps, s, i, o, ds, d);
    }
  }

  /** The decoder loops for ever if and only if a readable opening, innermost a list, leads to a byte 0xFF. */
  lemma Byte255Hangs(wraps: bool, s: seq<byte>, i: nat)
    requires i <= |s|
    ensures Parse(wraps, s, i) == Hangs
            <==> exists o :: Reaches255(wraps, s, i, o) && Innermost(o, NoContainer) == OfItems
  {
    hide Parse, Reaches255, Overflows;
    NullMeans(wraps, s, i);
    if Parse(wraps, s, i) == Hangs {
      var o, ds, d := TokenFound(wraps, s, i);
      NullStops(wraps, s, i, o);
    }
    forall o | Reaches255(wraps, s, i, o) ensures Parse(wraps, s, i) == NullIn(Innermost(o, NoContainer)) {
      NullStops(wraps, s, i, o);
    }
  }

  /** It dereferences a null pointer if and only if one leads to a byte 0xFF directly in a dictionary, key or value. */
  lemma Byte255Crashes(wraps: bool, s: seq<byte>, i: nat)
    requires i <= |s|
    ensures Parse(wraps, s, i) == Crashes
            <==> exists o :: Reaches255(wraps, s, i, o) && Innermost(o, NoContainer) == OfEntries
  {
    hide Parse, Reaches255, Overflows;
    NullMeans(wraps, s, i);
    if Parse(wraps, s, i) == Crashes {
      var o, ds, d := TokenFound(wraps, s, i);
      NullStops(wraps, s, i, o);
    }
    forall o | Reaches255(wraps, s, i, o) ensures Parse(wraps, s, i) == NullIn(Innermost(o, NoContainer)) {
      NullStops(wraps, s, i, o);
    }
  }

  /**
   * The behaviour is undefined if and only if a readable opening leads to a number whose digits, safe so far, pass
   * LLONG_MAX at some digit.
   */
  lemma NumberOverflows(wraps: bool, s: seq<byte>, i: nat)
    requires i <= |s|
    ensures Parse(wraps, s, i) == Undefined <==> exists o, ds, d :: Overflows(wraps, s, i, o, ds, d)
  {
    hide Parse, Reaches255, Overflows;
    NullMeans(wraps, s, i);
    if Parse(wraps, s, i) == Undefined {
      var o, ds, d := TokenFound(wraps, s, i);
      assert Overflows(wraps, s, i, o, ds, d);
    }
    forall o, ds, d | Overflows(wraps, s, i, o, ds, d) ensures Parse(wraps, s, i) == Undefined {
      NumberStops(wraps, s, i, o, ds, d);
    }
  }

  // A value, an exception, or a number out of range.
  predicate Answers(r: Outcome) {
    r.Parsed? || Fails(r)
  }

  /**
   * The decoder answers if and only if there is input and no byte 0xFF at a token position. In the body of
   * a string the byte is as good as any other.
   */
  lemma AlwaysAnswers(wraps: bool, s: seq<byte>, i: nat)
    requires i <= |s|
    ensures Answers(Parse(wraps, s, i)) <==> i < |s| && !exists o :: Reaches255(wraps, s, i, o)
  {
    hide Parse, Reaches255, Overflows;
    NullMeans(wraps, s, i);
    if i < |s| && !Answers(Parse(wraps, s, i)) {
      var o, ds, d := TokenFound(wraps, s, i);
      assert Reaches255(wraps, s, i, o);
    }
    forall o | Reaches255(wraps, s, i, o) ensures Parse(wraps, s, i) == NullIn(Innermost(o, NoContainer)) {
      NullStops(wraps, s, i, o);
    }
  }

  // A phrase that can be read stands at `i`.
  ghost predicate Stands(wraps: bool, s: seq<byte>, i: nat, p: Phrase) {
    Shaped(p) && Readable(wraps, p) && At(s, i, Render(p))
  }

  /**
   * Everything else is an exception: input that opens with no readable phrase, has no byte 0xFF at a token position,
   * and no number that passes LLONG_MAX before something else is wrong.
   */
  lemma OtherwiseThrows(wraps: bool, s: seq<byte>, i: nat)
    requires i <= |s|
    ensures Parse(wraps, s, i) == Throws
            <==> && i < |s|
                 && !(exists p :: Stands(wraps, s, i, p))
                 && !(exists o :: Reaches255(wraps, s, i, o))
                 && !(exists o, ds, d :: Overflows(wraps, s, i, o, ds, d))
  {
    hide Parse, Reaches255, Overflows, Render;
    AlwaysAnswers(wraps, s, i);
    NumberOverflows(wraps, s, i);
    if Parse(wraps, s, i).Parsed? {
      var p := ReadPhrase(wraps, s, i);
      assert Stands(wraps, s, i, p);
    }
    forall p | Stands(wraps, s, i, p) ensures Parse(wraps, s, i).Parsed? { ParsePhrase(wraps, s, i, p); }
  }

  // What the decoder's own tests ask of it: a letter or a sign in a number is an exception.
  lemma NonNumericThrows(wraps: bool)
    ensures Parse(wraps, [INT, 49, 48, 97, 115, 100, 101], 0) == Throws
    ensures Parse(wraps, [INT, 45, 53, END], 0) == Throws
  {
    var s: seq<byte> := [INT, 49, 48, 97, 115, 100, 101];
    assert Scan(wraps, s, 3, 10, END) == NotANumber;
    assert Scan(wraps, s, 2, 1, END) == NotANumber;
  }

  // A string of one byte 0xFF in a list is read.
  lemma Byte255InAString(wraps: bool)
    ensures Parse(wraps, [LIST, 49, COLON, 255, END], 0) == Parsed(List([Str([255])]), 5)
  {
    hide Parse, At;
    NumberSnoc([], 49);
    assert [] + [49] == [49];
    var head := StrP([49], [255]);
    var items := Item(head, NoItem);
    assert Shaped(head) && Readable(wraps, head) && Meaning(head) == Str([255]);
    assert ShapedItems(items) && ReadableItems(wraps, items) && MeaningOfItems(items) == [Str([255])];
    var p := ListP(items);
    assert Render(p) == [LIST, 49, COLON, 255, END];
    Alone(Render(p));
    ParsePhrase(wraps, Render(p), 0, p);
  }
}
