/** Bytes, what stands where in a byte string, and the few other things that several modules share. */
module Bytes {
  // An octet as it travels on the wire (the C++ `char` read as unsigned).
  type byte = b: int | 0 <= b < 256

  const INT_MAX: int := 0x7FFF_FFFF
  const INT_MIN: int := -0x8000_0000

  // The value range of the C++ `int`.
  type int32 = n: int | INT_MIN <= n <= INT_MAX

  datatype Option<+T> = None | Some(value: T)

  function Max(a: int, b: int): int { if a < b then b else a }

  function Min(a: int, b: int): int { if a < b then a else b }

  lemma Associative(a: seq<byte>, b: seq<byte>, c: seq<byte>)
    ensures a + b + c == a + (b + c)
  {
  }

  // `t` stands in `s` at `i`.
  predicate At(s: seq<byte>, i: nat, t: seq<byte>) {
    i + |t| <= |s| && s[i..i + |t|] == t
  }

  lemma AtBytes(s: seq<byte>, i: nat, t: seq<byte>)
    requires At(s, i, t)
    ensures i + |t| <= |s| && s[i..i + |t|] == t
  {
  }

  lemma AtByte(s: seq<byte>, i: nat, t: seq<byte>, k: nat)
    requires At(s, i, t) && k < |t|
    ensures i + k < |s| && s[i + k] == t[k]
  {
    assert s[i + k] == s[i..i + |t|][k];
  }

  lemma AtSplit(s: seq<byte>, i: nat, t: seq<byte>, u: seq<byte>)
    requires At(s, i, t + u)
    ensures At(s, i, t) && At(s, i + |t|, u)
    ensures |t| > 0 ==> s[i] == t[0]
  {
    var w := s[i..i + |t + u|];
    assert w[..|t|] == t;
    assert w[|t|..] == u;
    assert s[i..i + |t|] == w[..|t|];
    assert s[i + |t|..i + |t| + |u|] == w[|t|..];
  }

  lemma AtJoin(s: seq<byte>, i: nat, t: seq<byte>, u: seq<byte>)
    requires At(s, i, t) && At(s, i + |t|, u)
    ensures At(s, i, t + u)
  {
    assert s[i..i + |t + u|] == s[i..i + |t|] + s[i + |t|..i + |t| + |u|];
  }

  lemma AtSlice(s: seq<byte>, from: nat, n: nat)
    requires from + n <= |s|
    ensures At(s, from, s[from..from + n])
  {
  }

  lemma AtOne(s: seq<byte>, i: nat)
    requires i < |s|
    ensures At(s, i, [s[i]])
  {
  }

  lemma Alone(s: seq<byte>)
    ensures At(s, 0, s)
  {
  }
}
