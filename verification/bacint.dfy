/**
  Integer width codec: the fixed-width big-endian writers and readers, the
  minimal-width computations that choose between them, and the 16-bit codec
  whose NULL handling the unit tests pin down.
 */
module BacInt {
  import opened Wire

  /**
    The fixed-width writers (`encode_unsigned16` ... `encode_unsigned64`, and
    the signed writers applied to a two's-complement bit pattern): byte `i` of
    the `width` bytes is `value` shifted right by 8 * (width - 1 - i) bits and
    truncated to 8 bits.
   */
  method EncodeFixedWidth(value: nat, width: nat) returns (out: seq<uint8>)
    requires value < Pow256(width)
    ensures |out| == width
    ensures BeValue(out) == value
  {
    out := [];
    var i := 0;
    while i < width
      invariant 0 <= i <= width
      invariant |out| == i
      invariant forall j :: 0 <= j < i ==> out[j] == BeBytes(value, width)[j]
    {
      BeBytesDigit(value, width, i);
      out := out + [(value / Pow256(width - 1 - i)) % 256];
      i := i + 1;
    }
    assert out == BeBytes(value, width);
  }

  /** The smallest width in bytes whose unsigned range holds `v`. */
  predicate IsMinimalUnsignedWidth(v: nat, w: nat) {
    1 <= w && v < Pow256(w) && (w == 1 || Pow256(w - 1) <= v)
  }

  /** The minimal width of `v`, by repeated removal of its low byte. */
  function UnsignedWidth(v: nat): (w: nat)
    ensures IsMinimalUnsignedWidth(v, w)
  {
    if v < 256 then 1 else 1 + UnsignedWidth(v / 256)
  }

  /** Minimal widths of 64-bit values never exceed eight bytes. */
  lemma UnsignedWidthAtMost8(v: uint64)
    ensures UnsignedWidth(v) <= 8
  {
    var w := UnsignedWidth(v);
    if w > 8 {
      Pow256Monotone(8, w - 1);
    }
  }

  /**
    `bacnet_unsigned_length`: count bytes while shifting the value right by
    eight bits, until nothing is left; zero still takes one byte.
   */
  method UnsignedLength(value: uint64) returns (len: nat)
    ensures len == UnsignedWidth(value)
    ensures 1 <= len <= 8
  {
    len := 1;
    var rest: nat := value / 256;
    while rest != 0
      invariant len + (if rest == 0 then 0 else UnsignedWidth(rest)) == UnsignedWidth(value)
      decreases rest
    {
      len := len + 1;
      rest := rest / 256;
    }
    UnsignedWidthAtMost8(value);
  }

  /** `v` fits in `w` bytes of two's complement. */
  predicate FitsSigned(v: int, w: nat) {
    -(Pow256(w) / 2) <= v < Pow256(w) / 2
  }

  /**
    `bacnet_signed_length`: the width chosen by the inclusive range checks
    +-127, +-32767, +-8388607, and 4 bytes otherwise.
   */
  function SignedWidth(v: int32): (w: nat)
    ensures 1 <= w <= 4
    ensures FitsSigned(v, w)
    ensures w == 1 || !FitsSigned(v, w - 1)
  {
    assert Pow256(1) == 0x100 && Pow256(2) == 0x1_0000;
    assert Pow256(3) == 0x100_0000 && Pow256(4) == 0x1_0000_0000;
    if -128 <= v <= 127 then 1
    else if -32768 <= v <= 32767 then 2
    else if -8388608 <= v <= 8388607 then 3
    else 4
  }

  /** The `w`-byte two's-complement bit pattern of `v`, read as an unsigned number. */
  function TwosComplement(v: int, w: nat): (u: nat)
    requires FitsSigned(v, w)
    ensures u < Pow256(w)
    ensures u == v || u == v + Pow256(w)
  {
    if v >= 0 then v else v + Pow256(w)
  }

  /** The signed value the bytes `s` denote: big-endian with the top bit sign-extended. */
  function SignedValue(s: seq<uint8>): int {
    var u := BeValue(s);
    if u >= Pow256(|s|) / 2 then u - Pow256(|s|) else u
  }

  /** Sign extension undoes the two's-complement pattern of every value that fits. */
  lemma SignedValueOfTwosComplement(v: int, w: nat)
    requires w >= 1 && FitsSigned(v, w)
    ensures SignedValue(BeBytes(TwosComplement(v, w), w)) == v
  {
  }

  /**
    The signed writers take byte `i` of a `w`-byte field as the value shifted
    right arithmetically by 8 * (w - 1 - i) bits (a floor division) and cast
    to 8 bits; those are exactly the bytes of the two's-complement pattern.
   */
  lemma {:induction false} TwosComplementDigit(v: int, w: nat, i: nat)
    requires FitsSigned(v, w) && i < w
    ensures BeBytes(TwosComplement(v, w), w)[i] == (v / Pow256(w - 1 - i)) % 256
  {
    var k := w - 1 - i;
    var u := TwosComplement(v, w);
    BeBytesDigit(u, w, i);
    if v < 0 {
      var pk := Pow256(k);
      var m := 256 * Pow256(i);
      assert Pow256(w) == pk * m by {
        Pow256Add(k, i + 1);
        assert k + (i + 1) == w;
      }
      assert u == v + pk * m;
      DivAddMultiple(v, pk, m);
      ModAddMultiple(v / pk, Pow256(i));
    }
  }

  lemma ModAddMultiple(x: int, j: int)
    ensures (x + 256 * j) % 256 == x % 256
  {
    DivAddMultiple(x, 256, j);
  }

  /**
    `encode_unsigned16`: a NULL destination writes nothing and reports 0
    (it is not a length query); otherwise two bytes, most significant first.
   */
  function EncodeUnsigned16(d: Dest, value: uint16): (e: Encoding)
    requires Room(d, 2)
    ensures d.Nowhere? ==> e == Encoding(0, Nowhere)
    ensures d.At? ==> e.len == 2 && e.dest.At? && Holds(e.dest, BeBytes(value, 2))
    ensures SameOutside(d, e.dest, 2)
  {
    if d.Nowhere? then Encoding(0, Nowhere) else Emit(d, BeBytes(value, 2))
  }

  /** What `decode_unsigned16` reports: bytes consumed and the value output, if written. */
  datatype Decoded16 = Decoded16(len: nat, value: Option<uint16>)

  /**
    `decode_unsigned16`: reads two bytes, most significant first. A NULL buffer
    or a NULL value reference (`valueRef` false) yields 0 with nothing written.
   */
  function DecodeUnsigned16(apdu: Option<seq<uint8>>, valueRef: bool): (r: Decoded16)
    requires apdu.Some? ==> |apdu.value| >= 2
    ensures r.len == 0 <==> apdu.None? || !valueRef
    ensures r.len == 0 ==> r.value.None?
    ensures r.len != 0 ==> r.len == 2 && r.value.Some? && BeBytes(r.value.value, 2) == apdu.value[..2]
  {
    if apdu.None? || !valueRef then Decoded16(0, None)
    else
      var s := apdu.value;
      BeBytesOfBeValue(s[..2]);
      Decoded16(2, Some(BeValue(s[..2])))
  }

  /**
    Encoding at any offset, aligned or not, then decoding from the same
    position gives back the value and the length 2, and the bytes around the
    two written ones keep their contents.
   */
  lemma Unsigned16RoundTrip(mem: seq<uint8>, at: nat, value: uint16)
    requires at + 2 <= |mem|
    ensures var e := EncodeUnsigned16(At(mem, at), value);
      && e.len == 2
      && e.dest.At? && |e.dest.mem| == |mem|
      && DecodeUnsigned16(Some(e.dest.mem[at..]), true) == Decoded16(2, Some(value))
      && (forall i :: 0 <= i < |mem| && i != at && i != at + 1 ==> e.dest.mem[i] == mem[i])
  {
    var e := EncodeUnsigned16(At(mem, at), value);
    assert e.dest.mem[at..][..2] == BeBytes(value, 2);
  }
}
