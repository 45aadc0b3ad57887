/** The concrete syntax of bencoding as the decoder accepts it, and what each phrase means. */
module BencodeGrammar {
  import opened Bytes

  const END: byte := 101    // 'e'
  const INT: byte := 105    // 'i'
  const LIST: byte := 108   // 'l'
  const DICT: byte := 100   // 'd'
  const COLON: byte := 58   // ':'
  const LLONG_MAX: int := 0x7FFF_FFFF_FFFF_FFFF

  datatype Bnode =
    | Int(n: int)
    | Str(bytes: seq<byte>)
    | List(items: seq<Bnode>)
    | Dict(entries: map<seq<byte>, Bnode>)

  // A phrase keeps what its value forgets: leading zeros, the order of entries and repeated keys.
  datatype Phrase =
    | IntP(digits: seq<byte>)
    | StrP(length: seq<byte>, body: seq<byte>)
    | ListP(items: Items)
    | DictP(entries: Entries)
  datatype Items = NoItem | Item(head: Phrase, tail: Items)
  datatype Entries = NoEntry | Entry(length: seq<byte>, key: seq<byte>, value: Phrase, rest: Entries)

  function Render(p: Phrase): seq<byte> {
    match p
    case IntP(digits) => [INT] + digits + [END]
    case StrP(length, body) => RenderStr(length, body)
    case ListP(items) => [LIST] + RenderItems(items) + [END]
    case DictP(entries) => [DICT] + RenderEntries(entries) + [END]
  }

  function RenderStr(length: seq<byte>, body: seq<byte>): seq<byte> {
    length + [COLON] + body
  }

  function RenderItems(items: Items): seq<byte> {
    match items
    case NoItem => []
    case Item(head, tail) => Render(head) + RenderItems(tail)
  }

  function RenderEntries(entries: Entries): seq<byte> {
    match entries
    case NoEntry => []
    case Entry(length, key, value, rest) => RenderStr(length, key) + (Render(value) + RenderEntries(rest))
  }

  function Meaning(p: Phrase): Bnode
    requires Shaped(p)
  {
    match p
    case IntP(digits) => Int(Number(digits))
    case StrP(_, body) => Str(body)
    case ListP(items) => List(MeaningOfItems(items))
    case DictP(entries) => Dict(MeaningOfEntries(entries, map[]))
  }

  function MeaningOfItems(items: Items): seq<Bnode>
    requires ShapedItems(items)
  {
    match items
    case NoItem => []
    case Item(head, tail) => [Meaning(head)] + MeaningOfItems(tail)
  }

  // The last entry for a key wins.
  function MeaningOfEntries(entries: Entries, before: map<seq<byte>, Bnode>): map<seq<byte>, Bnode>
    requires ShapedEntries(entries)
  {
    match entries
    case NoEntry => before
    case Entry(_, key, value, rest) => MeaningOfEntries(rest, before[key := Meaning(value)])
  }

  lemma TokenText()
    ensures INT == 'i' as int && LIST == 'l' as int && DICT == 'd' as int && END == 'e' as int && COLON == ':' as int
    ensures forall b: byte :: IsDigit(b) <==> '0' as int <= b <= '9' as int
  {
  }

  // The entries of a dictionary by their places.
  function Count(entries: Entries): nat {
    match entries
    case NoEntry => 0
    case Entry(_, _, _, rest) => 1 + Count(rest)
  }

  function KeyAt(entries: Entries, n: nat): seq<byte>
    requires n < Count(entries)
  {
    if n == 0 then entries.key else KeyAt(entries.rest, n - 1)
  }

  function ValueAt(entries: Entries, n: nat): Phrase
    requires n < Count(entries)
  {
    if n == 0 then entries.value else ValueAt(entries.rest, n - 1)
  }

  predicate IsDigit(b: byte) { 48 <= b <= 57 }

  predicate Digits(ds: seq<byte>) {
    forall d <- ds :: IsDigit(d)
  }

  function Number(ds: seq<byte>): (n: nat)
    requires Digits(ds)
  {
    if ds == [] then 0 else
      var last := |ds| - 1;
      assert ds[last] in ds;
      assert forall d <- ds[..last] :: d in ds;
      Number(ds[..last]) * 10 + (ds[last] as int - 48)
  }

  predicate Shaped(p: Phrase) {
    match p
    case IntP(digits) => digits != [] && Digits(digits)
    case StrP(length, body) => ShapedStr(length, body)
    case ListP(items) => ShapedItems(items)
    case DictP(entries) => ShapedEntries(entries)
  }

  predicate ShapedStr(length: seq<byte>, body: seq<byte>) {
    length != [] && Digits(length) && Number(length) == |body|
  }

  predicate ShapedItems(items: Items) {
    match items
    case NoItem => true
    case Item(head, tail) => Shaped(head) && ShapedItems(tail)
  }

  predicate ShapedEntries(entries: Entries) {
    match entries
    case NoEntry => true
    case Entry(length, key, value, rest) => ShapedStr(length, key) && Shaped(value) && ShapedEntries(rest)
  }

  /**
   * The overflow guard takes its accumulator as an `int`. When the low 32 bits read as a negative number,
   * its subtraction from LLONG_MAX overflows, which C++ leaves undefined: `wraps` says that the compiled
   * subtraction wraps round (so the guard fires), as opposed to being taken not to overflow (so it does not).
   */
  predicate Trips(wraps: bool, accumulated: nat) {
    wraps && accumulated % 0x1_0000_0000 >= 0x8000_0000
  }

  // Every step of reading `ds` stays defined and below the guard.
  predicate Safe(wraps: bool, ds: seq<byte>)
    requires Digits(ds)
  {
    ds == [] ||
    var front := ds[..|ds| - 1];
    assert Digits(front) by { assert forall d <- front :: d in ds; }
    Safe(wraps, front) && !Trips(wraps, Number(front)) && Number(ds) <= LLONG_MAX
  }

  predicate Readable(wraps: bool, p: Phrase)
    requires Shaped(p)
  {
    match p
    case IntP(digits) => Safe(wraps, digits)
    case StrP(length, _) => Safe(wraps, length)
    case ListP(items) => ReadableItems(wraps, items)
    case DictP(entries) => ReadableEntries(wraps, entries)
  }

  predicate ReadableItems(wraps: bool, items: Items)
    requires ShapedItems(items)
  {
    match items
    case NoItem => true
    case Item(head, tail) => Readable(wraps, head) && ReadableItems(wraps, tail)
  }

  predicate ReadableEntries(wraps: bool, entries: Entries)
    requires ShapedEntries(entries)
  {
    match entries
    case NoEntry => true
    case Entry(length, _, value, rest) =>
      Safe(wraps, length) && Readable(wraps, value) && ReadableEntries(wraps, rest)
  }

  lemma NumberSnoc(ds: seq<byte>, d: byte)
    requires Digits(ds) && IsDigit(d)
    ensures Digits(ds + [d]) && Number(ds + [d]) == Number(ds) * 10 + (d as int - 48)
    ensures forall wraps :: Safe(wraps, ds + [d]) <==>
              Safe(wraps, ds) && !Trips(wraps, Number(ds)) && Number(ds + [d]) <= LLONG_MAX
  {
    assert (ds + [d])[..|ds|] == ds;
  }

  // A phrase never begins with the end token or with byte 0xFF.
  lemma PhraseHead(p: Phrase)
    requires Shaped(p)
    ensures |Render(p)| > 0
    ensures match p
            case IntP(_) => Render(p)[0] == INT
            case StrP(_, _) => IsDigit(Render(p)[0])
            case ListP(_) => Render(p)[0] == LIST
            case DictP(_) => Render(p)[0] == DICT
  {
    if p.StrP? {
      assert p.length[0] in p.length;
    }
  }

  lemma Delimited(s: seq<byte>, i: nat, open: byte, inner: seq<byte>)
    requires At(s, i, [open] + inner + [END])
    ensures i < |s| && s[i] == open && At(s, i + 1, inner) && At(s, i + 1, inner + [END])
    ensures i + 1 + |inner| < |s| && s[i + 1 + |inner|] == END
  {
    assert [open] + inner + [END] == [open] + (inner + [END]);
    AtSplit(s, i, [open], inner + [END]);
    AtSplit(s, i + 1, inner, [END]);
  }


  lemma NoLonger(s: seq<byte>, i: nat, ds: seq<byte>, es: seq<byte>, stop: byte)
    requires Digits(es) && !IsDigit(stop) && At(s, i, ds + [stop]) && At(s, i, es + [stop])
    ensures |es| <= |ds|
  {
    hide At;
    if |ds| < |es| {
      assert es[|ds|] in es;
      AtByte(s, i, es + [stop], |ds|);
      AtByte(s, i, ds + [stop], |ds|);
    }
  }

  // Digits in front of the same stop byte are the same digits.
  lemma SameDigits(s: seq<byte>, i: nat, ds: seq<byte>, es: seq<byte>, stop: byte)
    requires Digits(ds) && Digits(es) && !IsDigit(stop)
    requires At(s, i, ds + [stop]) && At(s, i, es + [stop])
    ensures ds == es
  {
    hide At;
    NoLonger(s, i, ds, es, stop);
    NoLonger(s, i, es, ds, stop);
    AtSplit(s, i, ds, [stop]);
    AtSplit(s, i, es, [stop]);
    AtBytes(s, i, ds);
    AtBytes(s, i, es);
  }

  lemma SameStr(s: seq<byte>, i: nat, length: seq<byte>, body: seq<byte>, length': seq<byte>, body': seq<byte>)
    requires ShapedStr(length, body) && ShapedStr(length', body')
    requires At(s, i, RenderStr(length, body)) && At(s, i, RenderStr(length', body'))
    ensures length == length' && body == body'
  {
    hide At, Number, Digits;
    AtSplit(s, i, length + [COLON], body);
    AtSplit(s, i, length' + [COLON], body');
    SameDigits(s, i, length, length', COLON);
    AtBytes(s, i + |length| + 1, body);
    AtBytes(s, i + |length| + 1, body');
  }

  /** Unique readability: at most one phrase stands at a place. */
  lemma {:induction false} SamePhrase(s: seq<byte>, i: nat, p: Phrase, q: Phrase)
    requires Shaped(p) && Shaped(q) && At(s, i, Render(p)) && At(s, i, Render(q))
    ensures p == q
    decreases p
  {
    hide At, Number, Digits, RenderItems, RenderEntries, RenderStr, IsDigit;
    PhraseHead(p);
    PhraseHead(q);
    AtByte(s, i, Render(p), 0);
    AtByte(s, i, Render(q), 0);
    TokensDiffer();
    match p
    case IntP(digits) =>
      Delimited(s, i, INT, digits);
      Delimited(s, i, INT, q.digits);
      SameDigits(s, i + 1, digits, q.digits, END);
    case StrP(length, body) =>
      SameStr(s, i, length, body, q.length, q.body);
    case ListP(items) =>
      Delimited(s, i, LIST, RenderItems(items));
      Delimited(s, i, LIST, RenderItems(q.items));
      SameItems(s, i + 1, items, q.items);
    case DictP(entries) =>
      Delimited(s, i, DICT, RenderEntries(entries));
      Delimited(s, i, DICT, RenderEntries(q.entries));
      SameEntries(s, i + 1, entries, q.entries);
  }

  lemma TokensDiffer()
    ensures !IsDigit(INT) && !IsDigit(LIST) && !IsDigit(DICT) && !IsDigit(END)
  {
  }

  // What opens a list of items, or of entries, with its end token behind it.
  lemma ItemsHead(s: seq<byte>, i: nat, items: Items)
    requires ShapedItems(items) && At(s, i, RenderItems(items) + [END])
    ensures i < |s| && (s[i] == END <==> items.NoItem?)
    ensures items.Item? ==>
              var head := Render(items.head);
              At(s, i, head) && At(s, i + |head|, RenderItems(items.tail) + [END])
  {
    hide At, Render;
    match items
    case NoItem =>
      AtByte(s, i, [] + [END], 0);
    case Item(head, tail) =>
      assert RenderItems(items) + [END] == Render(head) + (RenderItems(tail) + [END]);
      AtSplit(s, i, Render(head), RenderItems(tail) + [END]);
      PhraseHead(head);
      AtByte(s, i, Render(head), 0);
  }

  lemma {:induction false} SameItems(s: seq<byte>, i: nat, a: Items, b: Items)
    requires ShapedItems(a) && ShapedItems(b) && At(s, i, RenderItems(a) + [END]) && At(s, i, RenderItems(b) + [END])
    ensures a == b
    decreases a
  {
    hide At, RenderItems, Render;
    ItemsHead(s, i, a);
    ItemsHead(s, i, b);
    if a.Item? {
      SamePhrase(s, i, a.head, b.head);
      SameItems(s, i + |Render(a.head)|, a.tail, b.tail);
    }
  }

  lemma EntriesHead(s: seq<byte>, i: nat, entries: Entries)
    requires ShapedEntries(entries) && At(s, i, RenderEntries(entries) + [END])
    ensures i < |s| && (s[i] == END <==> entries.NoEntry?)
    ensures entries.Entry? ==>
              var name := RenderStr(entries.length, entries.key);
              var value := Render(entries.value);
              && At(s, i, name) && At(s, i + |name|, value)
              && At(s, i + |name| + |value|, RenderEntries(entries.rest) + [END])
  {
    hide At, Render, RenderEntries, Number;
    match entries
    case NoEntry =>
      assert RenderEntries(entries) == [] by { NoEntries(); }
      AtByte(s, i, [] + [END], 0);
    case Entry(length, key, value, rest) =>
      var name := RenderStr(length, key);
      RenderTurn(length, key, value, rest);
      AtSplit(s, i, name, Render(value) + (RenderEntries(rest) + [END]));
      AtSplit(s, i + |name|, Render(value), RenderEntries(rest) + [END]);
      AtByte(s, i, name, 0);
      assert name[0] == length[0] && length[0] in length;
  }

  lemma RenderTurn(length: seq<byte>, key: seq<byte>, value: Phrase, rest: Entries)
    ensures RenderEntries(Entry(length, key, value, rest)) + [END]
            == RenderStr(length, key) + (Render(value) + (RenderEntries(rest) + [END]))
  {
    hide Render, RenderStr;
    var name, v, r := RenderStr(length, key), Render(value), RenderEntries(rest);
    assert name + (v + r) + [END] == name + (v + (r + [END]));
  }

  lemma NoEntries()
    ensures RenderEntries(NoEntry) == []
  {
  }

  lemma {:induction false} SameEntries(s: seq<byte>, i: nat, a: Entries, b: Entries)
    requires ShapedEntries(a) && ShapedEntries(b)
    requires At(s, i, RenderEntries(a) + [END]) && At(s, i, RenderEntries(b) + [END])
    ensures a == b
    decreases a
  {
    hide At, RenderEntries, RenderStr, Render, Number, Digits;
    EntriesHead(s, i, a);
    EntriesHead(s, i, b);
    if a.Entry? {
      SameStr(s, i, a.length, a.key, b.length, b.key);
      var j := i + |RenderStr(a.length, a.key)|;
      SamePhrase(s, j, a.value, b.value);
      SameEntries(s, j + |Render(a.value)|, a.rest, b.rest);
    }
  }

  /** Phrases are prefix-free: of two phrases neither text begins the other, and equal texts are the same phrase. */
  lemma PrefixFree(p: Phrase, q: Phrase)
    requires Shaped(p) && Shaped(q) && Render(p) <= Render(q)
    ensures p == q
  {
    hide Render, Shaped, At;
    var s := Render(q);
    Alone(s);
    AtSlice(s, 0, |Render(p)|);
    assert s[0..|Render(p)|] == Render(p);
    SamePhrase(s, 0, p, q);
  }

  lemma {:induction false} ShapedValueAt(entries: Entries, n: nat)
    requires ShapedEntries(entries) && n < Count(entries)
    ensures Shaped(ValueAt(entries, n))
    decreases n
  {
    hide Shaped;
    if n > 0 { ShapedValueAt(entries.rest, n - 1); }
  }

  // A key that none of the entries writes keeps what was there before.
  lemma {:induction false} OtherKeysStay(entries: Entries, before: map<seq<byte>, Bnode>, key: seq<byte>)
    requires ShapedEntries(entries) && forall m: nat :: m < Count(entries) ==> KeyAt(entries, m) != key
    ensures var after := MeaningOfEntries(entries, before);
            (key in after <==> key in before) && (key in after ==> after[key] == before[key])
    decreases entries
  {
    hide Meaning, Shaped;
    match entries
    case NoEntry =>
    case Entry(_, k, value, rest) =>
      assert KeyAt(entries, 0) == k;
      forall m: nat | m < Count(rest) ensures KeyAt(rest, m) != key { assert KeyAt(entries, m + 1) == KeyAt(rest, m); }
      OtherKeysStay(rest, before[k := Meaning(value)], key);
  }

  /** Of several entries with one key the last is kept. */
  lemma {:induction false} LastEntryWins(entries: Entries, before: map<seq<byte>, Bnode>, n: nat)
    requires ShapedEntries(entries) && n < Count(entries)
    requires forall m: nat :: n < m < Count(entries) ==> KeyAt(entries, m) != KeyAt(entries, n)
    ensures var after := MeaningOfEntries(entries, before);
            && KeyAt(entries, n) in after && Shaped(ValueAt(entries, n))
            && after[KeyAt(entries, n)] == Meaning(ValueAt(entries, n))
    decreases n
  {
    hide Meaning, Shaped;
    ShapedValueAt(entries, n);
    var Entry(_, k, value, rest) := entries;
    forall m: nat | m < Count(rest) ensures KeyAt(rest, m) == KeyAt(entries, m + 1) {}
    if n == 0 {
      OtherKeysStay(rest, before[k := Meaning(value)], k);
    } else {
      LastEntryWins(rest, before[k := Meaning(value)], n - 1);
    }
  }
}
