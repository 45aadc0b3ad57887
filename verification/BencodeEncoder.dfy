/** The encoder bencoding is defined by, as the specification the decoder is held to (BEP 3, "bencoding"). */
module BencodeEncoder {
  import opened Bytes
  import opened Grammar = BencodeGrammar
  import opened Parser = BencodeParser

  // A value with the order its dictionaries are written in.
  datatype Tree =
    | IntT(n: nat)
    | StrT(bytes: seq<byte>)
    | ListT(items: Trees)
    | DictT(entries: Pairs)
  datatype Trees = NoTree | Tree(head: Tree, tail: Trees)
  datatype Pairs = NoPair | Pair(key: seq<byte>, value: Tree, rest: Pairs)

  function Decimal(n: nat): seq<byte> {
    if n < 10 then [48 + n] else Decimal(n / 10) + [48 + n % 10]
  }

  function EncodeStr(bytes: seq<byte>): seq<byte> {
    Decimal(|bytes|) + [COLON] + bytes
  }

  function Encode(t: Tree): seq<byte> {
    match t
    case IntT(n) => [INT] + Decimal(n) + [END]
    case StrT(bytes) => EncodeStr(bytes)
    case ListT(items) => [LIST] + EncodeTrees(items) + [END]
    case DictT(entries) => [DICT] + EncodePairs(entries) + [END]
  }

  function EncodeTrees(items: Trees): seq<byte> {
    match items
    case NoTree => []
    case Tree(head, tail) => Encode(head) + EncodeTrees(tail)
  }

  function EncodePairs(entries: Pairs): seq<byte> {
    match entries
    case NoPair => []
    case Pair(key, value, rest) => EncodeStr(key) + (Encode(value) + EncodePairs(rest))
  }

  function Value(t: Tree): Bnode {
    match t
    case IntT(n) => Int(n)
    case StrT(bytes) => Str(bytes)
    case ListT(items) => List(ValueOfTrees(items))
    case DictT(entries) => Dict(ValueOfPairs(entries))
  }

  function ValueOfTrees(items: Trees): seq<Bnode> {
    match items
    case NoTree => []
    case Tree(head, tail) => [Value(head)] + ValueOfTrees(tail)
  }

  // The keys are distinct, so that no entry hides another one.
  function ValueOfPairs(entries: Pairs): map<seq<byte>, Bnode> {
    match entries
    case NoPair => map[]
    case Pair(key, value, rest) => map[key := Value(value)] + ValueOfPairs(rest)
  }

  function Keys(entries: Pairs): set<seq<byte>> {
    match entries
    case NoPair => {}
    case Pair(key, _, rest) => {key} + Keys(rest)
  }

  // The low 32 bits of every number passed on the way to `n`, `n` itself apart, read as non-negative.
  predicate Narrow(n: nat) {
    n < 10 || (n / 10 % 0x1_0000_0000 < 0x8000_0000 && Narrow(n / 10))
  }

  predicate Fits(wraps: bool, n: nat) {
    n <= LLONG_MAX && (wraps ==> Narrow(n))
  }

  // Every number in the encoding can be read back; lengths count.
  predicate Storable(wraps: bool, t: Tree) {
    match t
    case IntT(n) => Fits(wraps, n)
    case StrT(bytes) => Fits(wraps, |bytes|)
    case ListT(items) => StorableTrees(wraps, items)
    case DictT(entries) => StorablePairs(wraps, entries)
  }

  predicate StorableTrees(wraps: bool, items: Trees) {
    match items
    case NoTree => true
    case Tree(head, tail) => Storable(wraps, head) && StorableTrees(wraps, tail)
  }

  predicate StorablePairs(wraps: bool, entries: Pairs) {
    match entries
    case NoPair => true
    case Pair(key, value, rest) => Fits(wraps, |key|) && Storable(wraps, value) && StorablePairs(wraps, rest)
  }

  function Phrased(t: Tree): Phrase {
    match t
    case IntT(n) => IntP(Decimal(n))
    case StrT(bytes) => StrP(Decimal(|bytes|), bytes)
    case ListT(items) => ListP(PhrasedTrees(items))
    case DictT(entries) => DictP(PhrasedPairs(entries))
  }

  function PhrasedTrees(items: Trees): Items {
    match items
    case NoTree => NoItem
    case Tree(head, tail) => Item(Phrased(head), PhrasedTrees(tail))
  }

  function PhrasedPairs(entries: Pairs): Entries {
    match entries
    case NoPair => NoEntry
    case Pair(key, value, rest) => Entry(Decimal(|key|), key, Phrased(value), PhrasedPairs(rest))
  }

  lemma {:induction false} DecimalIsNumber(wraps: bool, n: nat)
    ensures Decimal(n) != [] && Digits(Decimal(n)) && Number(Decimal(n)) == n
    ensures Safe(wraps, Decimal(n)) <==> Fits(wraps, n)
    decreases n
  {
    if n < 10 {
      EmptyNumber(wraps);
      NumberSnoc([], 48 + n);
      assert [] + [48 + n as byte] == [48 + n];
    } else {
      DecimalIsNumber(wraps, n / 10);
      NumberSnoc(Decimal(n / 10), 48 + n % 10);
    }
  }

  // The last entry for a key wins, here and in the decoder.
  lemma {:induction false} PhrasedMeans(wraps: bool, t: Tree)
    ensures var p := Phrased(t);
            && Shaped(p) && Render(p) == Encode(t) && Meaning(p) == Value(t)
            && (Readable(wraps, p) <==> Storable(wraps, t))
  {
    match t
    case IntT(n) => DecimalIsNumber(wraps, n);
    case StrT(bytes) => DecimalIsNumber(wraps, |bytes|);
    case ListT(items) => TreesMean(wraps, items);
    case DictT(entries) =>
      PairsMean(wraps, entries, map[]);
      assert map[] + ValueOfPairs(entries) == ValueOfPairs(entries);
  }

  lemma {:induction false} TreesMean(wraps: bool, items: Trees)
    ensures var ps := PhrasedTrees(items);
            && ShapedItems(ps) && RenderItems(ps) == EncodeTrees(items) && MeaningOfItems(ps) == ValueOfTrees(items)
            && (ReadableItems(wraps, ps) <==> StorableTrees(wraps, items))
  {
    match items
    case NoTree =>
    case Tree(head, tail) =>
      PhrasedMeans(wraps, head);
      TreesMean(wraps, tail);
  }

  lemma {:induction false} PairsMean(wraps: bool, entries: Pairs, before: map<seq<byte>, Bnode>)
    ensures var ps := PhrasedPairs(entries);
            && ShapedEntries(ps) && RenderEntries(ps) == EncodePairs(entries)
            && MeaningOfEntries(ps, before) == before + ValueOfPairs(entries)
            && (ReadableEntries(wraps, ps) <==> StorablePairs(wraps, entries))
  {
    hide Encode, Render, Meaning, Readable, Storable, Shaped, Value, Phrased, Decimal, Number, Safe, Fits;
    match entries
    case NoPair =>
      assert before + map[] == before;
    case Pair(key, value, rest) =>
      DecimalIsNumber(wraps, |key|);
      PhrasedMeans(wraps, value);
      PairsMean(wraps, rest, before[key := Value(value)]);
      AddFirst(before, key, Value(value), ValueOfPairs(rest));
  }

  lemma AddFirst(before: map<seq<byte>, Bnode>, key: seq<byte>, v: Bnode, rest: map<seq<byte>, Bnode>)
    ensures before[key := v] + rest == before + (map[key := v] + rest)
  {
  }

  /** The round trip in context: exactly the storable trees come back, each to its own end and no further. */
  lemma RoundTrip(wraps: bool, front: seq<byte>, t: Tree, back: seq<byte>)
    ensures var r := Parse(wraps, front + Encode(t) + back, |front|);
            if Storable(wraps, t) then r == Parsed(Value(t), |front + Encode(t)|) else Fails(r)
  {
    hide Parse, Encode, Render, Meaning, Readable, Storable;
    var s := front + Encode(t) + back;
    assert s[|front|..|front| + |Encode(t)|] == Encode(t);
    PhrasedMeans(wraps, t);
    ParsePhrase(wraps, s, |front|, Phrased(t));
  }

  lemma {:induction false} KeysOfValue(entries: Pairs)
    ensures ValueOfPairs(entries).Keys == Keys(entries)
  {
    match entries
    case NoPair =>
    case Pair(_, _, rest) => KeysOfValue(rest);
  }

  predicate Distinct(entries: Pairs) {
    match entries
    case NoPair => true
    case Pair(key, _, rest) => key !in Keys(rest) && Distinct(rest)
  }

  function Join(a: Pairs, b: Pairs): Pairs {
    match a
    case NoPair => b
    case Pair(key, value, rest) => Pair(key, value, Join(rest, b))
  }

  /** With distinct keys no entry is lost, wherever it is written. */
  lemma {:induction false} EveryEntryKept(a: Pairs, key: seq<byte>, value: Tree, b: Pairs)
    requires Distinct(Join(a, Pair(key, value, b)))
    ensures var m := ValueOfPairs(Join(a, Pair(key, value, b))); key in m && m[key] == Value(value)
  {
    match a
    case NoPair => KeysOfValue(b);
    case Pair(_, _, rest) => EveryEntryKept(rest, key, value, b);
  }

  /** Sizes held in an `int` are always read back, whatever the guard does. */
  lemma {:induction false} IntSizesFit(wraps: bool, n: nat)
    requires n <= INT_MAX
    ensures Fits(wraps, n)
  {
    if n >= 10 { IntSizesFit(wraps, n / 10); }
  }

  /** A file length of 20 GiB is below LLONG_MAX and refused all the same where the guard wraps. */
  lemma LargeFileLength()
    ensures !Fits(true, 21_474_836_480) && Fits(false, 21_474_836_480)
    ensures Fails(Parse(true, Encode(IntT(21_474_836_480)), 0))
  {
    var t := IntT(21_474_836_480);
    assert !Narrow(21_474_836_480) by { assert 21_474_836_480 / 10 == 0x8000_0000; }
    RoundTrip(true, [], t, []);
    assert [] + Encode(t) + [] == Encode(t);
  }
}
