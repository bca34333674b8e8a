/** Byte strings and big-endian integers of fixed width. */
module Bytes {
  import opened Numerals

  type Byte = n: nat | n < 256

  type ByteString = seq<Byte>

  type Bytes32 = b: ByteString | |b| == 32 witness seq(32, _ => 0)

  type Bytes5 = b: ByteString | |b| == 5 witness seq(5, _ => 0)

  /** `value.to_bytes(n, "big")`, for a value that fits */
  function ToBytes(value: nat, n: nat): (b: ByteString)
    ensures |b| == n
  {
    Digits(value, n, 256)
  }

  /** `int.from_bytes(b, "big")` */
  function FromBytes(b: ByteString): nat {
    Value(b, 256)
  }

  function Reverse(b: ByteString): (r: ByteString)
    ensures |r| == |b|
  {
    seq(|b|, i requires 0 <= i < |b| => b[|b| - 1 - i])
  }

  lemma BytesRoundTrip(b: ByteString)
    ensures ToBytes(FromBytes(b), |b|) == b
    ensures FromBytes(b) < Pow(256, |b|)
  {
    DigitsOfValue(b, 256);
    ValueBound(b, 256);
  }

  lemma NumberRoundTrip(value: nat, n: nat)
    requires value < Pow(256, n)
    ensures FromBytes(ToBytes(value, n)) == value
  {
    ValueOfDigits(value, n, 256);
  }
}
