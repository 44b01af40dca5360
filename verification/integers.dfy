/**
  The primitive integer values of clauses 20.2.4 and 20.2.5 of ANSI/ASHRAE
  135: unsigned and signed integers written in the fewest octets that hold
  them, most significant octet first, and the width dispatch that reads an
  unsigned value back given its length from the tag.
 */
module Integers {
  import opened Wire
  import opened BacInt

  /** The octets `encode_bacnet_unsigned` writes: the value in its minimal width. */
  function BacnetUnsignedBytes(v: uint64): (s: seq<uint8>)
    ensures 1 <= |s| <= 8
    ensures IsMinimalUnsignedWidth(v, |s|)
    ensures BeValue(s) == v
  {
    UnsignedWidthAtMost8(v);
    BeBytes(v, UnsignedWidth(v))
  }

  /**
    `encode_bacnet_unsigned`: asks for the minimal width, then hands the value
    to the fixed-width writer of that width. A NULL destination reports the
    width and writes nothing.
   */
  method EncodeBacnetUnsigned(d: Dest, v: uint64) returns (e: Encoding)
    requires Room(d, UnsignedWidth(v))
    ensures e.len == UnsignedWidth(v) && 1 <= e.len <= 8
    ensures e.dest.Nowhere? <==> d.Nowhere?
    ensures Holds(e.dest, BacnetUnsignedBytes(v))
    ensures SameOutside(d, e.dest, e.len)
  {
    var len := UnsignedLength(v);
    if d.Nowhere? {
      return Encoding(len, Nowhere);
    }
    var bytes := EncodeFixedWidth(v, len);
    BeBytesOfBeValue(bytes);
    e := Encoding(len, Store(d, bytes));
  }

  /** The octets `encode_bacnet_signed` writes: the two's-complement pattern in the chosen width. */
  function BacnetSignedBytes(v: int32): (s: seq<uint8>)
    ensures |s| == SignedWidth(v)
    ensures SignedValue(s) == v
  {
    var w := SignedWidth(v);
    SignedValueOfTwosComplement(v, w);
    BeBytes(TwosComplement(v, w), w)
  }

  /**
    `encode_bacnet_signed`: the width from the range checks, then the
    fixed-width signed writer. A NULL destination reports the width and
    writes nothing.
   */
  function EncodeBacnetSigned(d: Dest, v: int32): (e: Encoding)
    requires Room(d, SignedWidth(v))
    ensures e.len == SignedWidth(v)
    ensures e.dest.Nowhere? <==> d.Nowhere?
    ensures Holds(e.dest, BacnetSignedBytes(v))
    ensures SameOutside(d, e.dest, e.len)
  {
    Emit(d, BacnetSignedBytes(v))
  }

  /**
    Octet `i` of the signed encoding is the value shifted right
    arithmetically by 8 * (width - 1 - i) bits, truncated to 8 bits, as the
    signed writers compute it.
   */
  lemma SignedBytesAreShifts(v: int32, i: nat)
    requires i < SignedWidth(v)
    ensures BacnetSignedBytes(v)[i] == (v / Pow256(SignedWidth(v) - 1 - i)) % 256
  {
    TwosComplementDigit(v, SignedWidth(v), i);
  }

  /** What `bacnet_unsigned_decode` reports: octets consumed and the value output, if written. */
  datatype UnsignedDecoded = UnsignedDecoded(len: nat, value: Option<uint64>)

  /**
    `bacnet_unsigned_decode`: reads a `lenValue`-octet unsigned value. A NULL
    buffer or NULL value reference gives 0 with the value untouched, and so
    does a length beyond `maxLen`; a length outside 1..8 gives 0 with the
    value set to 0.
   */
  function BacnetUnsignedDecode(apdu: Option<seq<uint8>>, maxLen: nat, lenValue: uint32, valueRef: bool): (r: UnsignedDecoded)
    requires apdu.Some? ==> maxLen <= |apdu.value|
    ensures r.len != 0 <==> apdu.Some? && valueRef && 1 <= lenValue <= 8 && lenValue <= maxLen
    ensures r.len != 0 ==>
      r.len == lenValue && r.value.Some? && r.value.value == BeValue(apdu.value[..lenValue])
    ensures r.len == 0 && r.value.Some? ==> r.value.value == 0
    ensures r.value.None? <==> apdu.None? || !valueRef || lenValue > maxLen
  {
    if apdu.None? || !valueRef || lenValue > maxLen then UnsignedDecoded(0, None)
    else if 1 <= lenValue <= 8 then
      var field := apdu.value[..lenValue];
      assert Pow256(8) == 0x1_0000_0000_0000_0000;
      Pow256Monotone(lenValue, 8);
      UnsignedDecoded(lenValue, Some(BeValue(field)))
    else UnsignedDecoded(0, Some(0))
  }

  /**
    The minimal-width encoding of every 64-bit value reads back, given its
    length, as that value, whatever follows it in the buffer.
   */
  lemma UnsignedRoundTrip(v: uint64, rest: seq<uint8>)
    ensures var s := BacnetUnsignedBytes(v);
      BacnetUnsignedDecode(Some(s + rest), |s + rest|, |s|, true) == UnsignedDecoded(|s|, Some(v))
  {
    var s := BacnetUnsignedBytes(v);
    assert (s + rest)[..|s|] == s;
  }

  /**
    Boundary values of the signed widths: the two's-complement pattern
    changes width exactly where the range checks say, so -129 needs
    FF 7F and 128 needs 00 80.
   */
  lemma SignedWidthBoundaries()
    ensures BacnetSignedBytes(-128) == [0x80]
    ensures BacnetSignedBytes(-129) == [0xFF, 0x7F]
    ensures BacnetSignedBytes(127) == [0x7F]
    ensures BacnetSignedBytes(128) == [0x00, 0x80]
  {
    assert Pow256(0) == 1 && Pow256(1) == 0x100 && Pow256(2) == 0x1_0000;
    assert BacnetSignedBytes(127) == [0x7F] by {
      assert SignedWidth(127) == 1;
      assert BeBytes(0x7F, 1) == [0x7F];
    }
    assert BacnetSignedBytes(-128) == [0x80] by {
      assert SignedWidth(-128) == 1 && TwosComplement(-128, 1) == 0x80;
      assert BeBytes(0x80, 1) == [0x80];
    }
    assert BacnetSignedBytes(128) == [0x00, 0x80] by {
      assert SignedWidth(128) == 2;
      assert BeBytes(0x80, 2) == BeBytes(0, 1) + [0x80];
      assert BeBytes(0, 1) == [0];
    }
    assert BacnetSignedBytes(-129) == [0xFF, 0x7F] by {
      assert SignedWidth(-129) == 2 && TwosComplement(-129, 2) == 0xFF7F;
      assert BeBytes(0xFF7F, 2) == BeBytes(0xFF, 1) + [0x7F];
      assert BeBytes(0xFF, 1) == [0xFF];
    }
  }
}
