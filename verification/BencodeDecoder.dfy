/** The decoder object (include/bencode.h, src/bencode.cpp): an index that only moves forward. */
module BencodeDecoder {
  import opened Bytes
  import opened Grammar = BencodeGrammar
  import opened Parser = BencodeParser

  class Decoder {
    var bencode: seq<byte>
    var index: nat
    var node: Option<Bnode>
    // How the guard's overflowing subtraction was compiled (see `Trips`), and the byte one past the end of the input.
    const wraps: bool
    const beyond: byte

    ghost predicate Valid()
      reads this
    {
      index <= |bencode| <= INT_MAX
    }

    constructor (bencode: seq<byte>, wraps: bool, beyond: byte)
      requires |bencode| <= INT_MAX
      ensures Valid() && this.bencode == bencode && index == 0 && this.wraps == wraps && this.beyond == beyond
    {
      this.bencode, this.wraps, this.beyond := bencode, wraps, beyond;
      index, node := 0, None;
    }

    method Step(count: nat)
      requires Valid()
      modifies this`index
      ensures Valid()
      ensures index == if old(index) + count <= |bencode| then old(index) + count else old(index)
    {
      if index + count <= |bencode| {
        index := index + count;
      }
    }

    // An exception may leave the index one past the end (see GetStrLen); the other outcomes do not.
    ghost predicate Left(r: Outcome)
      reads this
    {
      r.Parsed? || r.Null? ==> Valid()
    }

    method DecodeString(n: nat) returns (r: Outcome)
      requires index <= |bencode| + 1
      ensures r == if index + n <= |bencode| then Parsed(Str(bencode[index..index + n]), index + n) else Throws
    {
      if index + n <= |bencode| {
        var ans := [];
        var i := index;
        while i < index + n
          invariant index <= i <= index + n
          invariant ans == bencode[index..i]
        {
          ans := ans + [bencode[i]];
          i := i + 1;
        }
        r := Parsed(Str(ans), index + n);
      } else {
        r := Throws;
      }
    }

    /** Digits up to the end token; on success the index rests on that token. */
    method DecodeInt() returns (r: Outcome)
      requires Valid()
      modifies this`index
      ensures Valid()
      ensures var start := old(index);
              match Scan(wraps, bencode, start, 0, END)
              case Scanned(value, at) =>
                if at == start then r == Throws else r == Parsed(Int(value), at + 1) && index == at
              case NotANumber => r == Throws
              case TooLarge => r == Undefined
    {
      var charCount: nat, ans: nat := 0, 0;
      while index < |bencode| && bencode[index] != END
        invariant Valid() && index == old(index) + charCount
        invariant Scan(wraps, bencode, old(index), 0, END) == Scan(wraps, bencode, index, ans, END)
        decreases |bencode| - index
      {
        if !IsDigit(bencode[index]) { return Throws; }
        if Trips(wraps, ans) { return Throws; }
        ans := ans * 10 + (bencode[index] as int - 48);
        if ans > LLONG_MAX { return Undefined; }
        charCount := charCount + 1;
        index := index + 1;
      }
      if index == |bencode| || charCount == 0 { return Throws; }
      r := Parsed(Int(ans), index + 1);
    }

    /** Digits up to the colon. The loop reads the byte before it tests the bound, so it may read one byte too far. */
    method GetStrLen() returns (length: int, failure: Outcome)
      requires Valid()
      modifies this`index
      ensures index <= |bencode| + 1 && (length >= 0 ==> index > old(index))
      ensures match Scan(wraps, bencode, old(index), 0, COLON)
              case Scanned(value, at) => length == value && index == at + 1
              case NotANumber => (length < 0 && failure == Throws) || (length >= 0 && index == |bencode| + 1)
              case TooLarge => length < 0 && failure == Undefined
    {
      var ans: nat := 0;
      failure := Throws;
      while (if index < |bencode| then bencode[index] else beyond) != COLON
        invariant Valid() && index >= old(index)
        invariant Scan(wraps, bencode, old(index), 0, COLON) == Scan(wraps, bencode, index, ans, COLON)
        decreases |bencode| - index
      {
        if index == |bencode| { return -1, Throws; }
        if !IsDigit(bencode[index]) { return -1, Throws; }
        if Trips(wraps, ans) { return -1, Throws; }
        ans := ans * 10 + (bencode[index] as int - 48);
        if ans > LLONG_MAX { return -1, Undefined; }
        index := index + 1;
      }
      index := index + 1;
      length := ans;
    }

    method DecodeList() returns (r: Outcome)
      requires Valid()
      modifies this
      ensures Left(r) && bencode == old(bencode)
      ensures r == ParseItems(wraps, bencode, old(index), [])
      ensures r.Parsed? ==> index + 1 == r.next
      decreases |bencode| - index, 1
    {
      hide Parse;
      var ans := [];
      while index < |bencode| && bencode[index] != END
        invariant Valid() && bencode == old(bencode) && index >= old(index)
        invariant ParseItems(wraps, bencode, old(index), []) == ParseItems(wraps, bencode, index, ans)
        decreases |bencode| - index
      {
        var item := Decode();
        match item {
          case Parsed(v, _) => ans := ans + [v];
          // A null pointer is appended and the index has not moved: the loop repeats itself for ever.
          case Null => return Hangs;
          case _ => return item;
        }
      }
      if index >= |bencode| { return Throws; }
      r := Parsed(List(ans), index + 1);
    }

    method DecodeDict() returns (r: Outcome)
      requires Valid()
      modifies this
      ensures Left(r) && bencode == old(bencode)
      ensures r == ParseEntries(wraps, bencode, old(index), map[])
      ensures r.Parsed? ==> index + 1 == r.next
      decreases |bencode| - index, 1
    {
      hide Parse;
      var d: map<seq<byte>, Bnode> := map[];
      while index < |bencode| && bencode[index] != END
        invariant Valid() && bencode == old(bencode) && index >= old(index)
        invariant ParseEntries(wraps, bencode, old(index), map[]) == ParseEntries(wraps, bencode, index, d)
        decreases |bencode| - index
      {
        var keyNode := Decode();
        match keyNode {
          case Parsed(Str(key), _) =>
            var value := Decode();
            match value {
              case Parsed(v, _) => d := d[key := v];
              // A null value is stored; then the loop ends with the input, or the next key is null too.
              case Null => if index == |bencode| { return Throws; } return Crashes;
              case _ => return value;
            }
          case Parsed(_, _) => return Throws;
          case Null => return Crashes;
          case _ => return keyNode;
        }
      }
      if index >= |bencode| { return Throws; }
      r := Parsed(Dict(d), index + 1);
    }

    /** One value from the current index on: for every input, what the pure parser answers. */
    method Decode() returns (r: Outcome)
      requires Valid()
      modifies this
      ensures Left(r) && bencode == old(bencode)
      ensures r == Parse(wraps, bencode, old(index))
      ensures r.Parsed? ==> index == r.next && node == Some(r.node)
      ensures r.Null? ==> index == old(index)
      decreases |bencode| - index, 0
    {
      hide Parse, Scan, ParseItems, ParseEntries;
      if index == |bencode| || bencode[index] == 0xFF {
        NullHere(wraps, bencode, index);
        return Null;
      }
      ParseHead(wraps, bencode, index);
      var token := bencode[index];
      if token == INT {
        Step(1);
        r := DecodeInt();
        if !r.Parsed? { return; }
        Step(1);
      } else if token == LIST {
        Step(1);
        r := DecodeList();
        if !r.Parsed? { return; }
        Step(1);
      } else if token == DICT {
        Step(1);
        r := DecodeDict();
        if !r.Parsed? { return; }
        Step(1);
      } else if IsDigit(token) {
        var length, failure := GetStrLen();
        if length < 0 { return failure; }
        r := DecodeString(length);
        if !r.Parsed? { return; }
        Step(length);
      } else {
        return Throws;
      }
      node := Some(r.node);
    }
  }

  lemma NullHere(wraps: bool, s: seq<byte>, i: nat)
    requires i <= |s| && (i == |s| || s[i] == 0xFF)
    ensures Parse(wraps, s, i) == Null
  {
  }
}
