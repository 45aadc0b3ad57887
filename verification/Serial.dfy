/** Big-endian coding of C++ `int`s (src/serial.cpp). */
module Serial {
  import opened Bytes

  // `value >> (8 * k) & 0xff`: the shift is arithmetic, so it divides rounding down, as `/` does here.
  function Serialize(value: int32): (bs: seq<byte>)
    ensures |bs| == 4
  {
    [value / 0x100_0000 % 256, value / 0x1_0000 % 256, value / 0x100 % 256, value % 256]
  }

  // The four shifted bytes occupy disjoint bits, so joining them is a sum.
  function Join(b0: int, b1: int, b2: int, b3: int): int {
    b0 * 0x100_0000 + b1 * 0x1_0000 + b2 * 0x100 + b3
  }

  // The cast to `int` wraps at 2^31.
  function Deserialize(bs: seq<byte>): (value: int32) {
    if |bs| < 4 then -1
    else
      var unsigned := Join(bs[0], bs[1], bs[2], bs[3]);
      if unsigned > INT_MAX then unsigned - 0x1_0000_0000 else unsigned
  }

  // The four digits of `v` in base 256, the leading one signed.
  lemma Digits(v: int, top: int, b1: byte, b2: byte, b3: byte)
    requires v == Join(top, b1, b2, b3)
    ensures v % 256 == b3
    ensures v / 0x100 % 256 == b2
    ensures v / 0x1_0000 % 256 == b1
    ensures v / 0x100_0000 == top
  {
    var q1: int := top * 0x1_0000 + b1 * 0x100 + b2;
    var q2: int := top * 0x100 + b1;
    assert v == q1 * 0x100 + b3;
    assert v / 0x100 == q1;
    assert q1 == q2 * 0x100 + b2;
    assert v / 0x1_0000 == q2;
  }

  lemma DigitsExist(v: int) returns (top: int, b1: byte, b2: byte, b3: byte)
    ensures v == Join(top, b1, b2, b3)
    ensures INT_MIN <= v <= INT_MAX ==> -128 <= top < 128
  {
    var q1 := v / 0x100;
    var q2 := q1 / 0x100;
    top, b1, b2, b3 := q2 / 0x100, q2 % 256, q1 % 256, v % 256;
    assert v == q1 * 0x100 + b3;
    assert q1 == q2 * 0x100 + b2;
    assert q2 == top * 0x100 + b1;
  }

  /** The first byte weighs most; a negative value is written as the one 2^32 above it. */
  lemma BigEndian(value: int32)
    ensures var bs := Serialize(value);
            bs[0] as int * 0x100_0000 + bs[1] as int * 0x1_0000 + bs[2] as int * 0x100 + bs[3] as int
            == if value < 0 then value + 0x1_0000_0000 else value
  {
    var top, b1, b2, b3 := DigitsExist(value);
    Digits(value, top, b1, b2, b3);
  }

  lemma DeserializeSerialize(value: int32, rest: seq<byte>)
    ensures Deserialize(Serialize(value) + rest) == value
  {
    var top, b1, b2, b3 := DigitsExist(value);
    Digits(value, top, b1, b2, b3);
    var b0: byte := if top < 0 then top + 256 else top;
    assert top % 256 == b0;
    assert Serialize(value) == [b0, b1, b2, b3];
  }

  lemma SerializeDeserialize(bs: seq<byte>)
    requires |bs| == 4
    ensures Serialize(Deserialize(bs)) == bs
  {
    var b0: int := bs[0];
    var top := if b0 >= 128 then b0 - 256 else b0;
    assert Deserialize(bs) == Join(top, bs[1], bs[2], bs[3]);
    Digits(Deserialize(bs), top, bs[1], bs[2], bs[3]);
    assert top % 256 == bs[0];
  }

  /** `serialize_int`: writes in place, and writes nothing when the room given (end - begin + 1) is below 4. */
  method SerializeInt(a: array<byte>, begin: nat, room: int, value: int32)
    requires begin + 4 <= a.Length || room < 4
    modifies a
    ensures room < 4 ==> a[..] == old(a[..])
    ensures room >= 4 ==> a[..] == old(a[..begin]) + Serialize(value) + old(a[begin + 4..])
  {
    if room < 4 { return; }
    a[begin + 3] := value % 256;
    a[begin + 2] := value / 0x100 % 256;
    a[begin + 1] := value / 0x1_0000 % 256;
    a[begin] := value / 0x100_0000 % 256;
  }
}
