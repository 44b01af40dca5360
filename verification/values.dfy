/**
  The null and boolean primitive values (clauses 20.2.2 and 20.2.3 of
  ANSI/ASHRAE 135). An application-tagged boolean carries its value in the
  length/value/type field of the tag itself; a context-tagged boolean is a
  tag of length 1 followed by one content octet.
 */
module Primitives {
  import opened Wire
  import opened Tags

  /** Application tag numbers of the null and boolean datatypes. */
  const NullTag: uint8 := 0
  const BooleanTag: uint8 := 1

  function BoolOctet(v: bool): uint8 { if v then 1 else 0 }

  /** `encode_application_null`: the single octet 0x00; a NULL destination reports 1. */
  function EncodeApplicationNull(d: Dest): (e: Encoding)
    requires Room(d, 1)
    ensures e.len == 1
    ensures Holds(e.dest, [0x00])
    ensures SameOutside(d, e.dest, 1)
    ensures e.dest.Nowhere? <==> d.Nowhere?
  {
    EncodeTag(d, NullTag, false, 0)
  }

  /** `encode_context_null`: a context tag of length 0. */
  function EncodeContextNull(d: Dest, tag: uint8): (e: Encoding)
    requires Room(d, TagNumberWidth(tag))
    ensures e.len == TagNumberWidth(tag)
    ensures Holds(e.dest, TagBytes(tag, true, 0))
    ensures SameOutside(d, e.dest, e.len)
    ensures e.dest.Nowhere? <==> d.Nowhere?
  {
    EncodeTag(d, tag, true, 0)
  }

  /**
    A context null is recognised as context tag `tag` and no other, with
    length 0, so nothing follows its tag.
   */
  lemma ContextNullRecognised(tag: uint8, other: uint8, rest: seq<uint8>)
    ensures var s := TagBytes(tag, true, 0) + rest;
      && HeaderReadable(s)
      && (IsContextTag(Some(s), other) <==> other == tag)
      && DecodeHeader(s) == Header(TagNumberWidth(tag), tag, 0)
  {
    TagRoundTrip(tag, true, 0, rest);
    EncodedTagRecognised(tag, true, 0, other, rest);
  }

  /**
    `encode_application_boolean`: the single octet 0x10 | value. Unlike the
    other encoders, a NULL destination reports 0.
   */
  function EncodeApplicationBoolean(d: Dest, v: bool): (e: Encoding)
    requires Room(d, 1)
    ensures d.Nowhere? ==> e == Encoding(0, Nowhere)
    ensures d.At? ==> e.len == 1 && e.dest.At? && Holds(e.dest, [0x10 + BoolOctet(v)])
    ensures SameOutside(d, e.dest, 1)
  {
    if d.Nowhere? then Encoding(0, Nowhere)
    else EncodeTag(d, BooleanTag, false, BoolOctet(v))
  }

  /** `decode_boolean`: a length/value/type of an application boolean is true unless it is 0. */
  function DecodeBoolean(lvt: uint32): (r: bool)
    ensures r <==> lvt != 0
    ensures lvt <= 1 ==> BoolOctet(r) == lvt
  {
    lvt != 0
  }

  /** An application boolean decodes as tag 1 whose length/value/type reads back as the value. */
  lemma ApplicationBooleanRoundTrip(v: bool, rest: seq<uint8>)
    ensures var s := TagBytes(BooleanTag, false, BoolOctet(v)) + rest;
      && HeaderReadable(s)
      && DecodeHeader(s).len == 1 && DecodeHeader(s).tag == BooleanTag
      && DecodeBoolean(DecodeHeader(s).lvt) == v
  {
    TagRoundTrip(BooleanTag, false, BoolOctet(v), rest);
  }

  /** The octets of a context boolean: a context tag of length 1, then 0 or 1. */
  function ContextBooleanBytes(tag: uint8, v: bool): (s: seq<uint8>)
    ensures |s| == TagNumberWidth(tag) + 1
  {
    TagBytes(tag, true, 1) + [BoolOctet(v)]
  }

  /** `encode_context_boolean`: two octets, three for tag numbers above 14; NULL reports the length. */
  function EncodeContextBoolean(d: Dest, tag: uint8, v: bool): (e: Encoding)
    requires Room(d, TagNumberWidth(tag) + 1)
    ensures e.len == TagNumberWidth(tag) + 1
    ensures e.dest.Nowhere? <==> d.Nowhere?
    ensures Holds(e.dest, ContextBooleanBytes(tag, v))
    ensures SameOutside(d, e.dest, e.len)
  {
    Emit(d, ContextBooleanBytes(tag, v))
  }

  /** `decode_context_boolean`: the content octet is true unless it is 0. */
  function DecodeContextBoolean(content: seq<uint8>): (r: bool)
    requires |content| >= 1
    ensures r <==> content[0] != 0
    ensures content[0] <= 1 ==> BoolOctet(r) == content[0]
  {
    content[0] != 0
  }

  /** What `decode_context_boolean2` reports: octets consumed or -1, and the value output, if written. */
  datatype BoolDecoded = BoolDecoded(len: int, value: Option<bool>)

  /**
    `decode_context_boolean2`: when the tag is context tag `tag` and neither
    an opening nor a closing tag, consumes the tag number and one content
    octet and yields whether that octet is nonzero; the length/value/type
    field is not examined. Otherwise, and for a NULL buffer or NULL value
    reference, -1 with the value untouched.
   */
  function DecodeContextBoolean2(apdu: Option<seq<uint8>>, tag: uint8, valueRef: bool): (r: BoolDecoded)
    requires apdu.Some? ==> TagNumberReadable(apdu.value)
    requires IsContextTag(apdu, tag) ==> |apdu.value| > TagNumberSize(apdu.value[0])
    ensures r.len == -1 <==>
      apdu.None? || !valueRef || !IsContextTag(apdu, tag) || IsOpeningTag(apdu) || IsClosingTag(apdu)
    ensures r.len == -1 ==> r.value.None?
    ensures r.len != -1 ==>
      var n := TagNumberSize(apdu.value[0]);
      r.len == n + 1 && r.value == Some(DecodeContextBoolean(apdu.value[n..]))
  {
    if apdu.None? || !valueRef then BoolDecoded(-1, None)
    else if IsContextTag(apdu, tag) && !IsOpeningTag(apdu) && !IsClosingTag(apdu) then
      var n := DecodeTagNumber(apdu.value).len;
      BoolDecoded(n + 1, Some(apdu.value[n] != 0))
    else BoolDecoded(-1, None)
  }

  /**
    A context boolean reads back through `decode_context_boolean2` as its
    value and length when asked for its own tag number, and fails with -1
    for any other tag number; `decode_context_boolean` on its content octet
    gives the value too.
   */
  lemma ContextBooleanRoundTrip(tag: uint8, other: uint8, v: bool, rest: seq<uint8>)
    ensures var s := ContextBooleanBytes(tag, v) + rest;
      && TagNumberReadable(s)
      && DecodeContextBoolean2(Some(s), other, true) ==
           (if other == tag then BoolDecoded(|ContextBooleanBytes(tag, v)|, Some(v)) else BoolDecoded(-1, None))
      && DecodeContextBoolean(s[TagNumberWidth(tag)..]) == v
  {
    var s := ContextBooleanBytes(tag, v) + rest;
    var t := TagBytes(tag, true, 1);
    assert s == t + ([BoolOctet(v)] + rest);
    EncodedTagRecognised(tag, true, 1, other, [BoolOctet(v)] + rest);
    assert s[|t|] == BoolOctet(v);
  }
}
