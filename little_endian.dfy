/** Conversions between bytes and the numbers they hold. */
module Bytes {

  /** Converting a value below 256 to a byte and back loses nothing. */
  lemma ByteOf(x: nat)
    requires x < 256
    ensures (x as bv8) as nat == x
  {
  }

  /** A 32-bit value read as a number and back is unchanged. */
  lemma WordBack(value: bv32)
    ensures (value as nat) as bv32 == value
  {
  }
}

/**
 * The byte representation of a `hash_type` value as the medium stores it.
 * `EEPROMClass::put` copies the object representation of the hash value; the
 * model fixes that representation to little-endian (the byte order of AVR),
 * `width` bytes wide.
 */
module LittleEndian {
  import Bytes

  /** 256 to the power `n`: the number of values `n` bytes can hold. */
  function Pow256(n: nat): (r: nat)
    ensures r >= 1
  {
    if n == 0 then 1 else 256 * Pow256(n - 1)
  }

  /** The widths of the hash types in use: 1, 2 and 4 bytes. */
  lemma Pow256Values()
    ensures Pow256(1) == 0x100
    ensures Pow256(2) == 0x1_0000
    ensures Pow256(4) == 0x1_0000_0000
  {
  }

  /** The `width` low-order bytes of `value`, least significant first. */
  function Encode(value: nat, width: nat): (r: seq<bv8>)
    ensures |r| == width
  {
    if width == 0 then [] else [(value % 256) as bv8] + Encode(value / 256, width - 1)
  }

  /** The unsigned value of a little-endian byte string. */
  function Decode(bytes: seq<bv8>): (r: nat)
    ensures r < Pow256(|bytes|)
  {
    if |bytes| == 0 then 0 else bytes[0] as nat + 256 * Decode(bytes[1..])
  }

  /** A value that fits in `width` bytes is recovered from its encoding. */
  lemma {:induction false} DecodeEncode(value: nat, width: nat)
    requires value < Pow256(width)
    ensures Decode(Encode(value, width)) == value
  {
    if width > 0 {
      var low, high := value % 256, value / 256;
      assert value == low + 256 * high;
      assert high < Pow256(width - 1);
      DecodeEncode(high, width - 1);
      var e := Encode(value, width);
      assert e[0] == low as bv8;
      Bytes.ByteOf(low);
      assert e[1..] == Encode(high, width - 1);
      assert Decode(e) == low + 256 * high;
    }
  }

  /** The low byte and the remaining value of `b + 256 * rest`. */
  lemma SplitLowByte(b: bv8, rest: nat)
    ensures ((b as nat + 256 * rest) % 256) as bv8 == b
    ensures (b as nat + 256 * rest) / 256 == rest
  {
  }

  /** Every byte string is the encoding of the value it decodes to. */
  lemma {:induction false} EncodeDecode(bytes: seq<bv8>)
    ensures Encode(Decode(bytes), |bytes|) == bytes
  {
    if |bytes| > 0 {
      var rest := Decode(bytes[1..]);
      SplitLowByte(bytes[0], rest);
      EncodeDecode(bytes[1..]);
      var e := Encode(Decode(bytes), |bytes|);
      assert e[1..] == bytes[1..];
      assert e == [bytes[0]] + bytes[1..];
    }
  }
}
