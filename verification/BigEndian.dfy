/** Bytes, native loads, and the big-endian wrapper around wire values. */
module BigEndian {

  type Byte = b: nat | b < 256

  datatype Endian = Big | Little

  /** The base-256 value of wire bytes, most significant first. */
  function Value(bs: seq<Byte>): (v: nat)
    ensures v < Limit(|bs|)
  {
    if bs == [] then 0 else Value(bs[..|bs| - 1]) * 256 + bs[|bs| - 1]
  }

  /** One more than the largest value of `n` bytes. */
  function Limit(n: nat): (r: nat)
    ensures r >= 1
  {
    if n == 0 then 1 else 256 * Limit(n - 1)
  }

  function Reversed(bs: seq<Byte>): (r: seq<Byte>)
    ensures |r| == |bs|
  {
    if bs == [] then [] else [bs[|bs| - 1]] + Reversed(bs[..|bs| - 1])
  }

  /** What a native load of `bs` yields on a machine of either byte order. */
  function NativeLoad(native: Endian, bs: seq<Byte>): nat {
    if native.Big? then Value(bs) else LittleValue(bs)
  }

  function LittleValue(bs: seq<Byte>): (v: nat)
    ensures v < Limit(|bs|)
  {
    if bs == [] then 0 else bs[0] + 256 * LittleValue(bs[1..])
  }

  /** The `n` bytes of `v`, least significant first. */
  function Digits(v: nat, n: nat): (bs: seq<Byte>)
    ensures |bs| == n
  {
    if n == 0 then [] else [v % 256] + Digits(v / 256, n - 1)
  }

  /** `std::byteswap` on an `n`-byte unsigned integer. */
  function ByteSwap(v: nat, n: nat): (r: nat)
    ensures r < Limit(n)
  {
    LittleValue(Reversed(Digits(v, n)))
  }

  /** `BigEndian<T>::operator T` for an `n`-byte `T`. */
  function FromBigEndian(native: Endian, raw: nat, n: nat): nat {
    if native.Big? then raw else ByteSwap(raw, n)
  }

  lemma {:induction false} DigitsOfLittleValue(bs: seq<Byte>)
    ensures Digits(LittleValue(bs), |bs|) == bs
  {
    if bs != [] {
      DigitsOfLittleValue(bs[1..]);
      var v := LittleValue(bs);
      assert v % 256 == bs[0] && v / 256 == LittleValue(bs[1..]);
    }
  }

  lemma {:induction false} LittleValueOfReversed(bs: seq<Byte>)
    ensures LittleValue(Reversed(bs)) == Value(bs)
  {
    if bs != [] {
      var n := |bs| - 1;
      LittleValueOfReversed(bs[..n]);
      assert Reversed(bs)[1..] == Reversed(bs[..n]);
    }
  }

  /** On a machine of either byte order, loading a wire value natively and converting it yields its base-256
      value. */
  lemma BigEndianReadsWireValue(native: Endian, wire: seq<Byte>)
    ensures FromBigEndian(native, NativeLoad(native, wire), |wire|) == Value(wire)
  {
    if native.Little? {
      DigitsOfLittleValue(wire);
      LittleValueOfReversed(wire);
    }
  }

  /** Reversing the bytes in memory is `std::byteswap` on the value, on a machine of either byte order. */
  lemma SwapReversesBytes(native: Endian, bs: seq<Byte>)
    ensures NativeLoad(native, Reversed(bs)) == ByteSwap(NativeLoad(native, bs), |bs|)
  {
    if native.Little? {
      DigitsOfLittleValue(bs);
    } else {
      LittleValueOfReversed(bs);
      LittleValueOfReversed(Reversed(bs));
      DigitsOfLittleValue(Reversed(bs));
      ReversedTwice(bs);
    }
  }

  lemma {:induction false} ReversedAt(bs: seq<Byte>, i: nat)
    requires i < |bs|
    ensures Reversed(bs)[i] == bs[|bs| - 1 - i]
  {
    if i > 0 {
      ReversedAt(bs[..|bs| - 1], i - 1);
    }
  }

  lemma ReversedTwice(bs: seq<Byte>)
    ensures Reversed(Reversed(bs)) == bs
  {
    forall i | 0 <= i < |bs| ensures Reversed(Reversed(bs))[i] == bs[i] {
      ReversedAt(Reversed(bs), i);
      ReversedAt(bs, |bs| - 1 - i);
    }
  }

  /** The `n` wire bytes of `v`, most significant first. */
  function WireBytes(v: nat, n: nat): (bs: seq<Byte>)
    ensures |bs| == n
  {
    if n == 0 then [] else WireBytes(v / 256, n - 1) + [v % 256]
  }

  lemma {:induction false} ValueOfWireBytes(v: nat, n: nat)
    requires v < Limit(n)
    ensures Value(WireBytes(v, n)) == v
  {
    if n > 0 {
      ValueOfWireBytes(v / 256, n - 1);
      assert WireBytes(v, n)[..n - 1] == WireBytes(v / 256, n - 1);
    }
  }
}
