/**
 * Bit strings and their big-endian conversion to bytes.
 *
 * The Python code keeps bit strings as text made of '0' and '1'; here a bit
 * string is a sequence of booleans where `false` stands for '0' and `true`
 * for '1'.
 */
module BitString {

  type Bits = seq<bool>

  /** A byte value, as an element of a Python `bytes` object. */
  type byte = b: int | 0 <= b < 256

  function Pow2(n: nat): (r: nat)
    ensures r >= 1
  {
    if n == 0 then 1 else 2 * Pow2(n - 1)
  }

  /** The value of a bit string read as a big-endian binary numeral (`int(s, 2)`). */
  function BitsToNat(bs: Bits): (r: nat)
    ensures r < Pow2(|bs|)
  {
    if |bs| == 0 then 0
    else 2 * BitsToNat(bs[..|bs| - 1]) + (if bs[|bs| - 1] then 1 else 0)
  }

  /** The lowest `width` bits of `v`, most significant first. */
  function NatToBits(v: nat, width: nat): (r: Bits)
    ensures |r| == width
  {
    if width == 0 then [] else NatToBits(v / 2, width - 1) + [v % 2 == 1]
  }

  /** Writing a numeral's value back in as many bits gives the numeral again. */
  lemma {:induction false} NatToBitsOfBitsToNat(bs: Bits)
    ensures NatToBits(BitsToNat(bs), |bs|) == bs
  {
    if |bs| > 0 {
      var p := bs[..|bs| - 1];
      NatToBitsOfBitsToNat(p);
      var v := BitsToNat(bs);
      assert v / 2 == BitsToNat(p);
      assert (v % 2 == 1) == bs[|bs| - 1];
      assert bs == p + [bs[|bs| - 1]];
    }
  }

  function Zeros(n: nat): (r: Bits)
    ensures |r| == n && forall i | 0 <= i < n :: !r[i]
  {
    if n == 0 then [] else Zeros(n - 1) + [false]
  }

  /**
   * A bit string whose length is a multiple of 8, cut into bytes, each read
   * big-endian: the bytes of `int(s, 2).to_bytes(len(s) // 8, 'big')`.
   */
  function ToBytes(bits: Bits): (r: seq<byte>)
    requires |bits| % 8 == 0
    ensures |r| * 8 == |bits|
  {
    if |bits| == 0 then []
    else [BitsToNat(bits[..8]) as byte] + ToBytes(bits[8..])
  }

  /** Each byte written as eight bits, most significant first. */
  function FromBytes(bytes: seq<byte>): (r: Bits)
    ensures |r| == 8 * |bytes|
  {
    if |bytes| == 0 then [] else NatToBits(bytes[0], 8) + FromBytes(bytes[1..])
  }

  /** Expanding the packed bytes gives back exactly the packed bits. */
  lemma {:induction false} FromBytesToBytes(bits: Bits)
    requires |bits| % 8 == 0
    ensures FromBytes(ToBytes(bits)) == bits
  {
    if |bits| > 0 {
      var b := ToBytes(bits);
      assert b[0] == BitsToNat(bits[..8]) && b[1..] == ToBytes(bits[8..]);
      assert FromBytes(b) == NatToBits(b[0], 8) + FromBytes(b[1..]);
      NatToBitsOfBitsToNat(bits[..8]);
      FromBytesToBytes(bits[8..]);
      assert bits == bits[..8] + bits[8..];
    }
  }

  /** A run of zero bits reads as the number 0. */
  lemma {:induction false} BitsToNatZeros(n: nat)
    ensures BitsToNat(Zeros(n)) == 0
  {
    if n > 0 {
      assert Zeros(n)[..n - 1] == Zeros(n - 1);
      BitsToNatZeros(n - 1);
    }
  }

  /** `int.from_bytes(bytes, 'big')`: the first byte is the most significant. */
  function BytesToNat(bytes: seq<byte>): nat {
    if |bytes| == 0 then 0
    else bytes[0] * Pow2(8 * (|bytes| - 1)) + BytesToNat(bytes[1..])
  }

  /** Doubling one factor doubles the product; kept apart so the solver sees only this step. */
  lemma Double(a: nat, p: nat)
    ensures a * (2 * p) == 2 * (a * p)
  {
  }

  /** Appending one bit doubles the value and adds the bit. */
  lemma BitsToNatSnoc(p: Bits, b: bool)
    ensures BitsToNat(p + [b]) == 2 * BitsToNat(p) + (if b then 1 else 0)
  {
    assert (p + [b])[..|p|] == p;
  }

  /** Reading two bit strings one after the other: the first is shifted past the second. */
  lemma {:induction false} BitsToNatAppend(x: Bits, y: Bits)
    ensures BitsToNat(x + y) == BitsToNat(x) * Pow2(|y|) + BitsToNat(y)
  {
    if |y| == 0 {
      assert x + y == x;
    } else {
      var y', last := y[..|y| - 1], y[|y| - 1];
      assert y == y' + [last];
      assert x + y == (x + y') + [last];
      BitsToNatSnoc(x + y', last);
      BitsToNatSnoc(y', last);
      BitsToNatAppend(x, y');
      Double(BitsToNat(x), Pow2(|y'|));
    }
  }

  /** A number that fits in `width` bits is written out and read back unchanged. */
  lemma {:induction false} BitsToNatOfNatToBits(v: nat, width: nat)
    requires v < Pow2(width)
    ensures BitsToNat(NatToBits(v, width)) == v
  {
    if width > 0 {
      var p := NatToBits(v / 2, width - 1);
      assert NatToBits(v, width)[..width - 1] == p;
      BitsToNatOfNatToBits(v / 2, width - 1);
    }
  }

  /** Expanding bytes into bits keeps their big-endian value. */
  lemma {:induction false} BitsToNatOfFromBytes(bytes: seq<byte>)
    ensures BitsToNat(FromBytes(bytes)) == BytesToNat(bytes)
  {
    if |bytes| > 0 {
      assert Pow2(8) == 256;
      BitsToNatOfNatToBits(bytes[0], 8);
      BitsToNatAppend(NatToBits(bytes[0], 8), FromBytes(bytes[1..]));
      BitsToNatOfFromBytes(bytes[1..]);
    }
  }

  /**
   * Packing a bit string into bytes keeps its value: the bytes of
   * `int(s, 2).to_bytes(len(s) // 8, 'big')` read back as `int(s, 2)`.
   */
  lemma ToBytesValue(bits: Bits)
    requires |bits| % 8 == 0
    ensures BytesToNat(ToBytes(bits)) == BitsToNat(bits)
  {
    FromBytesToBytes(bits);
    BitsToNatOfFromBytes(ToBytes(bits));
  }
}
