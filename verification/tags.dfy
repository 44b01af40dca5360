/**
  Tag framing (clause 20.2.1 of ANSI/ASHRAE 135): the initial octet of a tag
  carries a tag number (bits 7-4), a context-specific flag (bit 3) and a
  length/value/type field (bits 2-0). Tag numbers above 14 move to an extra
  octet announced by the nibble 0xF; length/value/type values above 4 move to
  one, three or five extra octets announced by the field value 5. The field
  values 6 and 7 mark opening and closing tags.
 */
module Tags {
  import opened Wire
  import BacInt

  /** The tag-number nibble announcing an extra tag-number octet. */
  const ExtendedTagNibble: nat := 15
  /** The length/value/type field value announcing extended length octets. */
  const ExtendedField: nat := 5
  const OpeningField: nat := 6
  const ClosingField: nat := 7
  /** First extended-length octets announcing a 16-bit and a 32-bit length. */
  const ExtendedAs16: uint8 := 254
  const ExtendedAs32: uint8 := 255

  function TagNibble(b: uint8): nat { b / 16 }
  predicate HasContextFlag(b: uint8) { (b / 8) % 2 == 1 }
  function LvtField(b: uint8): nat { b % 8 }

  /** The initial octet assembled from its three fields. */
  function HeaderByte(nibble: nat, ctx: bool, field: nat): (b: uint8)
    requires nibble < 16 && field < 8
    ensures TagNibble(b) == nibble
    ensures HasContextFlag(b) == ctx
    ensures LvtField(b) == field
  {
    nibble * 16 + (if ctx then 8 else 0) + field
  }

  /** Octets taken by a tag number: one when it fits the nibble, two otherwise. */
  function TagNumberWidth(tag: uint8): nat {
    if tag <= 14 then 1 else 2
  }

  /** The initial octet, plus the tag-number octet for tag numbers above 14. */
  function TagNumberBytes(tag: uint8, ctx: bool, field: nat): (s: seq<uint8>)
    requires field < 8
    ensures |s| == TagNumberWidth(tag)
    ensures TagNibble(s[0]) == (if tag <= 14 then tag else ExtendedTagNibble)
    ensures HasContextFlag(s[0]) == ctx && LvtField(s[0]) == field
    ensures tag > 14 ==> s[1] == tag
  {
    if tag <= 14 then [HeaderByte(tag, ctx, field)]
    else [HeaderByte(ExtendedTagNibble, ctx, field), tag]
  }

  /** Octets following the tag number for a length/value/type of `lvt`. */
  function LengthWidth(lvt: uint32): nat {
    if lvt <= 4 then 0 else if lvt <= 253 then 1 else if lvt <= 65535 then 3 else 5
  }

  /** The extended length octets: none, the value itself, or a marker and a 16- or 32-bit big-endian value. */
  function LengthBytes(lvt: uint32): (s: seq<uint8>)
    ensures |s| == LengthWidth(lvt)
  {
    if lvt <= 4 then []
    else if lvt <= 253 then [lvt]
    else if lvt <= 65535 then [ExtendedAs16] + BeBytes(lvt, 2)
    else [ExtendedAs32] + BeBytes(lvt, 4)
  }

  /** The octets `encode_tag` writes. */
  function TagBytes(tag: uint8, ctx: bool, lvt: uint32): (s: seq<uint8>)
    ensures |s| == TagNumberWidth(tag) + LengthWidth(lvt)
    ensures TagNibble(s[0]) == (if tag <= 14 then tag else ExtendedTagNibble)
    ensures HasContextFlag(s[0]) == ctx
    ensures LvtField(s[0]) == (if lvt <= 4 then lvt else ExtendedField)
  {
    TagNumberBytes(tag, ctx, if lvt <= 4 then lvt else ExtendedField) + LengthBytes(lvt)
  }

  /**
    `encode_tag`: writes the tag at the destination and returns its length,
    1 + [tag > 14] + {0, 1, 3, 5}; a NULL destination returns the same length
    without writing.
   */
  function EncodeTag(d: Dest, tag: uint8, ctx: bool, lvt: uint32): (e: Encoding)
    requires Room(d, |TagBytes(tag, ctx, lvt)|)
    ensures e.len == TagNumberWidth(tag) + LengthWidth(lvt)
    ensures e.dest.Nowhere? <==> d.Nowhere?
    ensures Holds(e.dest, TagBytes(tag, ctx, lvt))
    ensures SameOutside(d, e.dest, e.len)
  {
    Emit(d, TagBytes(tag, ctx, lvt))
  }

  /**
    `encode_tag` for a 16-bit extended length, composed as the tests
    describe it: the tag number and the marker 254 are counted here, and the
    length of the value itself is whatever `encode_unsigned16` returns. With
    a buffer that is 2 and the result agrees with `EncodeTag`; with a NULL
    buffer `encode_unsigned16` returns 0, so the tag is reported two octets
    short.
   */
  function EncodeTagVia16(d: Dest, tag: uint8, ctx: bool, lvt: uint32): (e: Encoding)
    requires ExtendedAs16 <= lvt <= 0xFFFF
    requires Room(d, |TagBytes(tag, ctx, lvt)|)
    ensures d.At? ==>
      && e.len == |TagBytes(tag, ctx, lvt)|
      && e.dest.At?
      && Holds(e.dest, TagBytes(tag, ctx, lvt))
      && SameOutside(d, e.dest, e.len)
    ensures d.Nowhere? ==> e == Encoding(TagNumberWidth(tag) + 1, Nowhere)
  {
    var prefix := TagNumberBytes(tag, ctx, ExtendedField) + [ExtendedAs16];
    var p := Emit(d, prefix);
    var v := BacInt.EncodeUnsigned16(Advance(p.dest, p.len), lvt);
    if d.At? then
      Via16Octets(tag, ctx, lvt);
      StoreTwice(d, prefix, BeBytes(lvt, 2));
      Encoding(p.len + v.len, Rebase(v.dest, d))
    else Encoding(p.len + v.len, Rebase(v.dest, d))
  }

  /** A 16-bit extended tag is its tag number, the marker 254 and the value. */
  lemma Via16Octets(tag: uint8, ctx: bool, lvt: uint32)
    requires ExtendedAs16 <= lvt <= 0xFFFF
    ensures TagBytes(tag, ctx, lvt) == TagNumberBytes(tag, ctx, ExtendedField) + [ExtendedAs16] + BeBytes(lvt, 2)
  {
    var h := TagNumberBytes(tag, ctx, ExtendedField);
    var l := LengthBytes(lvt);
    assert l == [ExtendedAs16] + BeBytes(lvt, 2);
    assert TagBytes(tag, ctx, lvt) == h + l;
    assert h + l == h + [ExtendedAs16] + BeBytes(lvt, 2);
  }

  /**
    The composition and `EncodeTag` write the same octets into a buffer,
    but for a NULL buffer they differ: context tag 60 with length 254 is
    reported as 3 octets instead of the 5 it occupies.
   */
  lemma NullLengthVia16(mem: seq<uint8>, at: nat, tag: uint8, ctx: bool, lvt: uint32)
    requires ExtendedAs16 <= lvt <= 0xFFFF
    requires at + |TagBytes(tag, ctx, lvt)| <= |mem|
    ensures EncodeTagVia16(At(mem, at), tag, ctx, lvt) == EncodeTag(At(mem, at), tag, ctx, lvt)
    ensures EncodeTagVia16(Nowhere, tag, ctx, lvt).len == EncodeTag(Nowhere, tag, ctx, lvt).len - 2
    ensures EncodeTagVia16(Nowhere, 60, false, 254).len == 3
    ensures EncodeTag(Nowhere, 60, false, 254).len == 5
  {
  }

  /** The octets of an opening tag: context flag and field 6. */
  function OpeningTagBytes(tag: uint8): seq<uint8> {
    TagNumberBytes(tag, true, OpeningField)
  }

  /** The octets of a closing tag: context flag and field 7. */
  function ClosingTagBytes(tag: uint8): seq<uint8> {
    TagNumberBytes(tag, true, ClosingField)
  }

  /** `encode_opening_tag`: one octet for tag numbers up to 14, two above. */
  function EncodeOpeningTag(d: Dest, tag: uint8): (e: Encoding)
    requires Room(d, TagNumberWidth(tag))
    ensures e.len == TagNumberWidth(tag)
    ensures e.dest.Nowhere? <==> d.Nowhere?
    ensures Holds(e.dest, OpeningTagBytes(tag))
    ensures SameOutside(d, e.dest, e.len)
  {
    Emit(d, OpeningTagBytes(tag))
  }

  /** `encode_closing_tag`: one octet for tag numbers up to 14, two above. */
  function EncodeClosingTag(d: Dest, tag: uint8): (e: Encoding)
    requires Room(d, TagNumberWidth(tag))
    ensures e.len == TagNumberWidth(tag)
    ensures e.dest.Nowhere? <==> d.Nowhere?
    ensures Holds(e.dest, ClosingTagBytes(tag))
    ensures SameOutside(d, e.dest, e.len)
  {
    Emit(d, ClosingTagBytes(tag))
  }

  /** Octets the tag number occupies, judged from the initial octet. */
  function TagNumberSize(b: uint8): nat {
    if TagNibble(b) == ExtendedTagNibble then 2 else 1
  }

  /** The tag number part can be read from `s`. */
  predicate TagNumberReadable(s: seq<uint8>) {
    |s| >= 1 && |s| >= TagNumberSize(s[0])
  }

  /** What a tag-number decoder reports: octets consumed and the tag number. */
  datatype TagNumber = TagNumber(len: nat, tag: uint8)

  /**
    `decode_tag_number`: with the nibble 0xF the tag number is the next octet
    and two octets are consumed; otherwise it is the nibble and one octet is.
   */
  function DecodeTagNumber(s: seq<uint8>): (r: TagNumber)
    requires TagNumberReadable(s)
    ensures r.len == TagNumberSize(s[0])
    ensures r.len == 1 ==> r.tag == TagNibble(s[0]) && r.tag <= 14
    ensures r.len == 2 ==> r.tag == s[1]
  {
    if TagNibble(s[0]) == ExtendedTagNibble then TagNumber(2, s[1])
    else TagNumber(1, TagNibble(s[0]))
  }

  /**
    `bacnet_tag_number_decode`: as `decode_tag_number` but reads no further than
    `maxLen` octets; a NULL buffer, `maxLen` 0 or a tag number that does not
    fit gives 0 with the output untouched (`None`).
   */
  function BoundedTagNumberDecode(apdu: Option<seq<uint8>>, maxLen: nat): (r: Option<TagNumber>)
    requires apdu.Some? ==> maxLen <= |apdu.value|
    ensures r.Some? <==> apdu.Some? && TagNumberReadable(apdu.value[..maxLen])
    ensures r.Some? ==> r.value == DecodeTagNumber(apdu.value[..maxLen])
  {
    if apdu.None? || maxLen == 0 then None
    else if TagNumberSize(apdu.value[0]) > maxLen then None
    else Some(DecodeTagNumber(apdu.value[..maxLen]))
  }

  /** Extended length octets, judged from the first of them. */
  function ExtensionSize(b: uint8): nat {
    if b < ExtendedAs16 then 1 else if b == ExtendedAs16 then 3 else 5
  }

  /** The whole tag, extended length included, can be read from `s`. */
  predicate HeaderReadable(s: seq<uint8>) {
    TagNumberReadable(s) &&
    (LvtField(s[0]) == ExtendedField ==>
      |s| > TagNumberSize(s[0]) &&
      |s| >= TagNumberSize(s[0]) + ExtensionSize(s[TagNumberSize(s[0])]))
  }

  /** A decoded tag: octets consumed, tag number and length/value/type. */
  datatype Header = Header(len: nat, tag: uint8, lvt: uint32)

  /** The tag at the start of `s`, read according to its length/value/type field. */
  function DecodeHeader(s: seq<uint8>): (h: Header)
    requires HeaderReadable(s)
    ensures h.len <= |s|
    ensures h.tag == DecodeTagNumber(s).tag
    ensures LvtField(s[0]) != ExtendedField ==> h.len == TagNumberSize(s[0])
    ensures LvtField(s[0]) <= 4 ==> h.lvt == LvtField(s[0])
    ensures LvtField(s[0]) >= 6 ==> h.lvt == 0
  {
    var n := TagNumberSize(s[0]);
    var t := DecodeTagNumber(s).tag;
    var f := LvtField(s[0]);
    if f <= 4 then Header(n, t, f)
    else if f >= 6 then Header(n, t, 0)
    else
      var b := s[n];
      if b < ExtendedAs16 then Header(n + 1, t, b)
      else if b == ExtendedAs16 then Header(n + 3, t, BeValue(s[n + 1..n + 3]))
      else Header(n + 5, t, BeValue(s[n + 1..n + 5]))
  }

  /** What the tag-and-value decoders report; `None` marks an output left untouched. */
  datatype TagDecoded = TagDecoded(len: nat, tag: Option<uint8>, lvt: Option<uint32>)

  /**
    `decode_tag_number_and_value`: a NULL buffer gives 0 with both outputs
    untouched; otherwise the decoded tag.
   */
  function DecodeTagNumberAndValue(apdu: Option<seq<uint8>>): (r: TagDecoded)
    requires apdu.Some? ==> HeaderReadable(apdu.value)
    ensures apdu.None? <==> r.len == 0
    ensures apdu.None? ==> r.tag.None? && r.lvt.None?
    ensures apdu.Some? ==>
      var h := DecodeHeader(apdu.value);
      r.len == h.len && r.tag == Some(h.tag) && r.lvt == Some(h.lvt)
  {
    match apdu
    case None => TagDecoded(0, None, None)
    case Some(s) =>
      var h := DecodeHeader(s);
      TagDecoded(h.len, Some(h.tag), Some(h.lvt))
  }

  /**
    `bacnet_tag_number_and_value_decode`: as `decode_tag_number_and_value` but
    reads no further than `maxLen` octets. When the tag number fits but the
    extended length does not, 0 is returned although the tag number output
    has already been written.
   */
  function BoundedTagNumberAndValueDecode(apdu: Option<seq<uint8>>, maxLen: nat): (r: TagDecoded)
    requires apdu.Some? ==> maxLen <= |apdu.value|
    ensures r.len != 0 <==> apdu.Some? && HeaderReadable(apdu.value[..maxLen])
    ensures r.len != 0 ==> r == DecodeTagNumberAndValue(Some(apdu.value[..maxLen]))
    ensures r.len == 0 ==> r.lvt.None?
    ensures r.tag.Some? <==> apdu.Some? && TagNumberReadable(apdu.value[..maxLen])
    ensures r.tag.Some? ==> r.tag.value == DecodeTagNumber(apdu.value[..maxLen]).tag
  {
    if apdu.None? || maxLen == 0 then TagDecoded(0, None, None)
    else
      var s := apdu.value[..maxLen];
      var n := TagNumberSize(s[0]);
      if n > maxLen then TagDecoded(0, None, None)
      else
        var t := DecodeTagNumber(s).tag;
        if LvtField(s[0]) == ExtendedField && (n + 1 > maxLen || n + ExtensionSize(s[n]) > maxLen) then
          TagDecoded(0, Some(t), None)
        else
          var h := DecodeHeader(s);
          TagDecoded(h.len, Some(t), Some(h.lvt))
  }

  /** Decoding a tag reads only its own octets: any longer buffer decodes the same. */
  lemma DecodeHeaderPrefix(s: seq<uint8>, k: nat)
    requires HeaderReadable(s) && DecodeHeader(s).len <= k <= |s|
    ensures HeaderReadable(s[..k])
    ensures DecodeHeader(s[..k]) == DecodeHeader(s)
  {
    var n := TagNumberSize(s[0]);
    if LvtField(s[0]) == ExtendedField {
      var b := s[n];
      if b == ExtendedAs16 {
        assert s[..k][n + 1..n + 3] == s[n + 1..n + 3];
      } else if b == ExtendedAs32 {
        assert s[..k][n + 1..n + 5] == s[n + 1..n + 5];
      }
    }
  }

  /** A bound of exactly the tag's own length gives what the unchecked decoder gives. */
  lemma BoundedExactLength(s: seq<uint8>)
    requires HeaderReadable(s)
    ensures var h := DecodeHeader(s);
      BoundedTagNumberAndValueDecode(Some(s), h.len) == DecodeTagNumberAndValue(Some(s))
  {
    DecodeHeaderPrefix(s, DecodeHeader(s).len);
  }

  /** A bound one octet short of the tag's length fails with 0 and leaves the value untouched. */
  lemma BoundedOneShort(s: seq<uint8>)
    requires HeaderReadable(s)
    ensures var h := DecodeHeader(s);
      var r := BoundedTagNumberAndValueDecode(Some(s), h.len - 1);
      r.len == 0 && r.lvt.None?
  {
  }

  /**
    Field 5 is read as announced by the octet after the tag number, for
    every value, whether or not `encode_tag` would have chosen that form:
    an octet below 254 is the value itself (0 or 4 included), 254 is
    followed by a 16-bit and 255 by a 32-bit big-endian value (small values
    included).
   */
  lemma {:induction false} ExtendedLengthReadings(tag: uint8, ctx: bool, b: uint8, v: nat, w: nat, rest: seq<uint8>)
    requires b < ExtendedAs16 && v < 0x1_0000 && w < 0x1_0000_0000
    ensures var h := TagNumberBytes(tag, ctx, ExtendedField);
      && HeaderReadable(h + [b] + rest)
      && DecodeHeader(h + [b] + rest) == Header(|h| + 1, tag, b)
    ensures var h := TagNumberBytes(tag, ctx, ExtendedField);
      && HeaderReadable(h + [ExtendedAs16] + BeBytes(v, 2) + rest)
      && DecodeHeader(h + [ExtendedAs16] + BeBytes(v, 2) + rest) == Header(|h| + 3, tag, v)
    ensures var h := TagNumberBytes(tag, ctx, ExtendedField);
      && HeaderReadable(h + [ExtendedAs32] + BeBytes(w, 4) + rest)
      && DecodeHeader(h + [ExtendedAs32] + BeBytes(w, 4) + rest) == Header(|h| + 5, tag, w)
  {
    var h := TagNumberBytes(tag, ctx, ExtendedField);
    assert Pow256(2) == 0x1_0000 && Pow256(4) == 0x1_0000_0000 by {
      assert Pow256(1) == 0x100;
    }
    var t8 := [b] + rest;
    assert h + [b] + rest == h + t8;
    ExtendedLength(tag, ctx, t8);
    var t16 := [ExtendedAs16] + BeBytes(v, 2) + rest;
    assert h + [ExtendedAs16] + BeBytes(v, 2) + rest == h + t16;
    assert t16[1..3] == BeBytes(v, 2);
    ExtendedLength(tag, ctx, t16);
    var t32 := [ExtendedAs32] + BeBytes(w, 4) + rest;
    assert h + [ExtendedAs32] + BeBytes(w, 4) + rest == h + t32;
    assert t32[1..5] == BeBytes(w, 4);
    ExtendedLength(tag, ctx, t32);
  }

  /**
    An extended header is read from its tag number and whatever octets
    follow it: the first following octet selects one, three or five octets
    of length.
   */
  lemma {:induction false} ExtendedLength(tag: uint8, ctx: bool, tail: seq<uint8>)
    requires |tail| >= 1 && |tail| >= ExtensionSize(tail[0])
    ensures var h := TagNumberBytes(tag, ctx, ExtendedField);
      var s := h + tail;
      && HeaderReadable(s)
      && HasContextFlag(s[0]) == ctx
      && DecodeHeader(s).len == |h| + ExtensionSize(tail[0])
      && DecodeHeader(s).tag == tag
      && DecodeHeader(s).lvt ==
           if tail[0] < ExtendedAs16 then tail[0] as int
           else if tail[0] == ExtendedAs16 then BeValue(tail[1..3])
           else BeValue(tail[1..5])
  {
    var h := TagNumberBytes(tag, ctx, ExtendedField);
    var s := h + tail;
    assert s[0] == h[0];
    if tag > 14 {
      assert s[1] == tag;
    }
    assert s[|h|..] == tail;
    if tail[0] == ExtendedAs16 {
      assert s[|h| + 1..|h| + 3] == tail[1..3];
    } else if tail[0] > ExtendedAs16 {
      assert s[|h| + 1..|h| + 5] == tail[1..5];
    }
  }

  lemma {:induction false} TagRoundTrip(tag: uint8, ctx: bool, lvt: uint32, rest: seq<uint8>)
    ensures var s := TagBytes(tag, ctx, lvt) + rest;
      HeaderReadable(s) &&
      HasContextFlag(s[0]) == ctx &&
      DecodeHeader(s) == Header(|TagBytes(tag, ctx, lvt)|, tag, lvt)
  {
    var t := TagNumberBytes(tag, ctx, if lvt <= 4 then lvt else ExtendedField);
    var s := TagBytes(tag, ctx, lvt) + rest;
    if lvt <= 4 {
      assert s == t + rest;
      assert s[0] == t[0];
      if tag > 14 {
        assert s[1] == tag;
      }
    } else {
      var tail := LengthBytes(lvt) + rest;
      assert s == t + tail;
      if lvt > 0xFFFF {
        assert tail[1..5] == BeBytes(lvt, 4);
      } else if lvt >= ExtendedAs16 as uint32 {
        assert tail[1..3] == BeBytes(lvt, 2);
      }
      ExtendedLength(tag, ctx, tail);
    }
  }

  /** `decode_is_opening_tag`: the field is 6, whatever the tag number and flag; false for NULL. */
  function IsOpeningTag(apdu: Option<seq<uint8>>): (r: bool)
    requires apdu.Some? ==> |apdu.value| >= 1
    ensures apdu.None? ==> !r
    ensures apdu.Some? ==> (r <==> apdu.value[0] % 8 == OpeningField)
  {
    apdu.Some? && LvtField(apdu.value[0]) == OpeningField
  }

  /** `decode_is_closing_tag`: the field is 7, whatever the tag number and flag; false for NULL. */
  function IsClosingTag(apdu: Option<seq<uint8>>): (r: bool)
    requires apdu.Some? ==> |apdu.value| >= 1
    ensures apdu.None? ==> !r
    ensures apdu.Some? ==> (r <==> apdu.value[0] % 8 == ClosingField)
  {
    apdu.Some? && LvtField(apdu.value[0]) == ClosingField
  }

  /** What `decode_is_context_tag_with_length` reports: the answer and the tag-number length, if written. */
  datatype TagMatch = TagMatch(matches: bool, len: Option<nat>)

  /**
    `decode_is_context_tag_with_length`: whether the tag carries the context
    flag and the tag number `tag`. The octet count of the tag number is
    reported whether or not it matches; a NULL buffer gives false with the
    length untouched.
   */
  function IsContextTagWithLength(apdu: Option<seq<uint8>>, tag: uint8): (r: TagMatch)
    requires apdu.Some? ==> TagNumberReadable(apdu.value)
    ensures apdu.None? ==> r == TagMatch(false, None)
    ensures apdu.Some? ==> r.len == Some(TagNumberSize(apdu.value[0]))
    ensures r.matches <==> apdu.Some? && HasContextFlag(apdu.value[0]) && DecodeTagNumber(apdu.value).tag == tag
  {
    match apdu
    case None => TagMatch(false, None)
    case Some(s) =>
      var t := DecodeTagNumber(s);
      TagMatch(HasContextFlag(s[0]) && t.tag == tag, Some(t.len))
  }

  /** `decode_is_context_tag`: the answer of `decode_is_context_tag_with_length` alone. */
  function IsContextTag(apdu: Option<seq<uint8>>, tag: uint8): (r: bool)
    requires apdu.Some? ==> TagNumberReadable(apdu.value)
    ensures r == IsContextTagWithLength(apdu, tag).matches
  {
    apdu.Some? && HasContextFlag(apdu.value[0]) && DecodeTagNumber(apdu.value).tag == tag
  }

  /** `decode_is_opening_tag_number`: a context tag numbered `tag` that is an opening tag. */
  function IsOpeningTagNumber(apdu: Option<seq<uint8>>, tag: uint8): (r: bool)
    requires apdu.Some? ==> TagNumberReadable(apdu.value)
    ensures r <==> IsContextTag(apdu, tag) && IsOpeningTag(apdu)
  {
    apdu.Some? && IsContextTag(apdu, tag) && LvtField(apdu.value[0]) == OpeningField
  }

  /** `decode_is_closing_tag_number`: a context tag numbered `tag` that is a closing tag. */
  function IsClosingTagNumber(apdu: Option<seq<uint8>>, tag: uint8): (r: bool)
    requires apdu.Some? ==> TagNumberReadable(apdu.value)
    ensures r <==> IsContextTag(apdu, tag) && IsClosingTag(apdu)
  {
    apdu.Some? && IsContextTag(apdu, tag) && LvtField(apdu.value[0]) == ClosingField
  }

  /**
    An opening tag is recognised as the opening tag of exactly its own number
    and never as a closing tag, and it decodes with length/value/type 0.
   */
  lemma OpeningTagRecognised(tag: uint8, other: uint8, rest: seq<uint8>)
    ensures var s := OpeningTagBytes(tag) + rest;
      && HeaderReadable(s)
      && IsOpeningTag(Some(s)) && !IsClosingTag(Some(s))
      && (IsOpeningTagNumber(Some(s), other) <==> other == tag)
      && !IsClosingTagNumber(Some(s), other)
      && DecodeHeader(s) == Header(TagNumberWidth(tag), tag, 0)
  {
    var s := OpeningTagBytes(tag) + rest;
    assert s[0] == OpeningTagBytes(tag)[0];
    if tag > 14 {
      assert s[1] == tag;
    }
  }

  /**
    A closing tag is recognised as the closing tag of exactly its own number
    and never as an opening tag, and it decodes with length/value/type 0.
   */
  lemma ClosingTagRecognised(tag: uint8, other: uint8, rest: seq<uint8>)
    ensures var s := ClosingTagBytes(tag) + rest;
      && HeaderReadable(s)
      && IsClosingTag(Some(s)) && !IsOpeningTag(Some(s))
      && (IsClosingTagNumber(Some(s), other) <==> other == tag)
      && !IsOpeningTagNumber(Some(s), other)
      && DecodeHeader(s) == Header(TagNumberWidth(tag), tag, 0)
  {
    var s := ClosingTagBytes(tag) + rest;
    assert s[0] == ClosingTagBytes(tag)[0];
    if tag > 14 {
      assert s[1] == tag;
    }
  }

  /**
    A tag written by `encode_tag` is never taken for an opening or closing
    tag, and it is recognised as context tag `other` exactly when it was
    written context-specific with that tag number.
   */
  lemma EncodedTagRecognised(tag: uint8, ctx: bool, lvt: uint32, other: uint8, rest: seq<uint8>)
    ensures var s := TagBytes(tag, ctx, lvt) + rest;
      && TagNumberReadable(s)
      && !IsOpeningTag(Some(s)) && !IsClosingTag(Some(s))
      && (IsContextTag(Some(s), other) <==> ctx && other == tag)
      && IsContextTagWithLength(Some(s), other).len == Some(TagNumberWidth(tag))
  {
    var s := TagBytes(tag, ctx, lvt) + rest;
    assert s[0] == TagBytes(tag, ctx, lvt)[0];
    if tag > 14 {
      assert s[1] == TagBytes(tag, ctx, lvt)[1] == tag;
    }
  }
}
