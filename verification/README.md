# BACnet application-layer codec, modelled in Dafny

This project models the encoding rules of clause 20 of ANSI/ASHRAE 135
(BACnet) for a small core of that codec, and proves properties of the model.
The model follows the behaviour the repository's unit tests pin down byte by
byte, together with the helper algorithms those tests write out as fakes.
The implementation file `bacnet/bacdcode.c` is not part of this model, so
wherever a test leaves a case open, the choice made is listed below. The
core covers:

- **Tag framing** (`tags.dfy`, module `Tags`):
  - the initial octet: tag number, context flag and length/value/type;
  - the extended tag-number octet;
  - the extended length forms (one octet, 254 + 16 bits, 255 + 32 bits);
  - opening and closing tags;
  - the tag decoders, unbounded and bounded by `max_len`;
  - the tag-recognition predicates.
- **Primitive values**:
  - null and boolean (`values.dfy`, module `Primitives`);
  - minimal-width unsigned and signed integers and the width dispatch of
    `bacnet_unsigned_decode` (`integers.dfy`, module `Integers`);
  - date and time with their application and context wrappers
    (`datetime.dfy`, module `DateTime`).
- **Fixed-part APDU helpers** (`apdu.dfy`, module `ApduFixed`): the
  maximum-segments and maximum-APDU codes, and the SimpleACK PDU.
- **Integer widths** (`bacint.dfy`, module `BacInt`):
  - the fixed-width big-endian writers;
  - the length helpers the tests implement as fakes;
  - the 16-bit codec whose NULL handling the tests pin down.
- **Bit macros** (`bits.dfy`, module `Bits`): `BIT`, `BIT_SET/CLEAR/FLIP/CHECK`,
  the `BITMASK_*` forms, and `byte_reverse_bits`.

`wire.dfy` (module `Wire`) holds the shared vocabulary:

- octets, and big-endian values of octet sequences;
- a destination model. `Nowhere` is a NULL `apdu` pointer, with which an
  encoder only reports its length. `At(mem, at)` is a position in the
  caller's buffer.
- the encoder result `Encoding(len, dest)`: the C return value and the buffer
  afterwards.
- the predicates `Holds` (these octets are at the write position) and
  `SameOutside` (no other octet changed).

Decoders take `Option<seq<uint8>>`, where `None` is a NULL buffer. An output
parameter becomes an `Option` in the result, where `None` means "left
untouched".

Where the prose description of the library and the unit tests disagree, the
model follows the tests:

- The date and time wrappers return the tag length plus the bare encoder's
  result even when the bare encoder fails with -1. An application date with
  an unwritable year therefore reports 0, and a context date under tag 15 or
  above reports 1 (test/unit/bacnet/bacdcode/src/main.c:3416-3439).
  Propagating -1 is not what the tests expect.
- `encode_application_boolean` with a NULL buffer returns 0, not the length
  (test/unit/bacnet/bacdcode/src/main.c:1813-1872).
- `bacnet_tag_number_and_value_decode` writes the tag-number output even when
  it then fails with 0 because only the extended length is cut off by
  `max_len` (test/unit/bacnet/bacdcode/src/main.c:1471-1476). Leaving the
  output untouched on failure is not what the tests expect.

## Model

| member | source | states |
|---|---|---|
| Tags.EncodeTag | test/unit/bacnet/bacdcode/src/main.c:348-564 | The tag is 1 octet, plus 1 for tag numbers above 14, plus 0/1/3/5 length octets for length/value/type up to 4, up to 253, up to 65535, and above. The initial octet's nibble, flag and field are those of the tag. A NULL buffer reports the same length. No octet outside the tag changes. |
| Tags.EncodeTagVia16 | test/unit/bacnet/bacdcode/src/main.c:522-530 | The tag with a 16-bit extended length, composed with `encode_unsigned16` as the tests' call checks show. With a buffer it writes the same octets and length as `Tags.EncodeTag` and changes nothing else. With a NULL buffer it reports only the tag number and the marker 254. |
| Tags.NullLengthVia16 | test/unit/bacnet/bacdcode/src/main.c:555-558 | With a buffer the composition equals `Tags.EncodeTag`. With a NULL buffer it reports two octets fewer: 3 instead of 5 for context tag 60 with length 254. |
| Tags.TagBytes | test/unit/bacnet/bacdcode/src/main.c:348-564 | The initial octet has nibble `tag` (0xF above 14), the context flag as asked, and field `lvt` (5 above 4). The length is the tag-number width plus the extended-length width. |
| Tags.EncodeOpeningTag | test/unit/bacnet/bacdcode/src/main.c:566-621 | An opening tag takes 1 octet up to tag 14 and 2 above. A NULL buffer reports the length. The surrounding octets are unchanged. |
| Tags.EncodeClosingTag | test/unit/bacnet/bacdcode/src/main.c:623-679 | A closing tag takes 1 octet up to tag 14 and 2 above. A NULL buffer reports the length. The surrounding octets are unchanged. |
| Tags.DecodeTagNumber | test/unit/bacnet/bacdcode/src/main.c:681-773 | Nibble 0xF means 2 octets are consumed and the tag number is the next octet, whatever its value. Otherwise 1 octet is consumed and the tag number is the nibble, at most 14. |
| Tags.BoundedTagNumberDecode | test/unit/bacnet/bacdcode/src/main.c:794-936 | It succeeds exactly when the buffer is not NULL and the tag number fits in `max_len`; it then agrees with the unbounded decoder. Otherwise the output is left untouched. |
| Tags.DecodeHeader | test/unit/bacnet/bacdcode/src/main.c:1025-1276 | Fields 0..4 are the value itself and 6/7 give 0, each consuming only the tag number. Field 5 reads the extended length. The tag number is the one `decode_tag_number` reads. |
| Tags.ExtendedLengthReadings | test/unit/bacnet/bacdcode/src/main.c:1103-1276 | Field 5 is read as the octet after the tag number announces, whether or not the encoder would choose that form. An octet below 254 is the length itself (0 and 4 included), consuming one more octet. 254 is followed by a 16-bit value and 255 by a 32-bit value, consuming 3 and 5 more octets, small values included. |
| Tags.ExtendedLength | test/unit/bacnet/bacdcode/src/main.c:1103-1276 | Behind an extended tag number, the first following octet alone selects one, three or five length octets: below 254 it is the length, 254 and 255 announce a 16- or 32-bit big-endian length. The tag number and flag read back as written. |
| Tags.DecodeTagNumberAndValue | test/unit/bacnet/bacdcode/src/main.c:982-1276 | A NULL buffer gives 0 with both outputs untouched. Otherwise it reports the decoded tag's length, number and length/value/type. |
| Tags.BoundedTagNumberAndValueDecode | test/unit/bacnet/bacdcode/src/main.c:1278-1641 | It is nonzero exactly when the whole tag fits in `max_len`, and then agrees with the unbounded decoder. On failure the value output is untouched. The tag-number output is written exactly when the tag number alone fits. |
| Tags.DecodeHeaderPrefix | test/unit/bacnet/bacdcode/src/main.c:1479-1490 | Decoding reads only the tag's own octets: any cut of the buffer at or beyond the tag length decodes the same. |
| Tags.BoundedExactLength | test/unit/bacnet/bacdcode/src/main.c:1624-1636 | A bound of exactly the tag's length gives the unbounded decoder's result. |
| Tags.BoundedOneShort | test/unit/bacnet/bacdcode/src/main.c:1471-1476 | A bound one octet short of the tag fails with 0 and leaves the value untouched. |
| Tags.TagRoundTrip | test/unit/bacnet/bacdcode/src/main.c:348-564 | Every tag `encode_tag` writes decodes back to its own length, tag number, context flag and length/value/type, whatever follows it. |
| Tags.IsContextTagWithLength | test/unit/bacnet/bacdcode/src/main.c:1643-1811 | The answer is true iff the buffer is not NULL, the context flag is set and the tag number matches. The tag-number width is reported even when the answer is false, and left untouched for NULL. |
| Tags.IsContextTag | test/unit/bacnet/bacdcode/src/main.c:1643-1811 | It gives the same answer as the `_with_length` form. |
| Tags.IsOpeningTag | test/unit/bacnet/bacdcode/src/main.c:938-958 | It is false for a NULL buffer. Otherwise it holds iff the length/value/type field is 6, whatever the tag number and context flag, so 0x06 and 0xF6 are opening tags and 0x05, 0xF7 and 0xFF are not. |
| Tags.IsClosingTag | test/unit/bacnet/bacdcode/src/main.c:960-980 | It is false for a NULL buffer. Otherwise it holds iff the length/value/type field is 7, whatever the tag number and context flag, so 0x07, 0xF7 and 0xFF are closing tags and 0x06 and 0xF8 are not. |
| Tags.IsOpeningTagNumber | test/unit/bacnet/bacdcode/src/main.c:1643-1811 | It holds iff the tag is context tag `tag` and an opening tag. |
| Tags.IsClosingTagNumber | test/unit/bacnet/bacdcode/src/main.c:1643-1811 | It holds iff the tag is context tag `tag` and a closing tag. |
| Tags.OpeningTagRecognised | test/unit/bacnet/bacdcode/src/main.c:938-958 | An encoded opening tag is an opening tag, never a closing tag. It is the opening tag of exactly its own number and decodes with length/value/type 0. |
| Tags.ClosingTagRecognised | test/unit/bacnet/bacdcode/src/main.c:960-980 | An encoded closing tag is a closing tag, never an opening tag. It is the closing tag of exactly its own number and decodes with length/value/type 0. |
| Tags.EncodedTagRecognised | test/unit/bacnet/bacdcode/src/main.c:1643-1811 | A tag `encode_tag` writes is never taken for an opening or closing tag. It is context tag `other` iff it was written context-specific with that number. Its tag-number width is reported. |
| Primitives.EncodeApplicationNull | test/unit/bacnet/bacdcode/src/main.c:2092-2112 | The single octet 0x00, length 1, also for a NULL buffer. |
| Primitives.EncodeContextNull | test/unit/bacnet/bacdcode/src/main.c:2114-2209 | A context tag of length 0: 1 octet, or 2 above tag 14. |
| Primitives.ContextNullRecognised | test/unit/bacnet/bacdcode/src/main.c:2114-2209 | A context null is recognised as its own context tag and no other, with length/value/type 0. |
| Primitives.EncodeApplicationBoolean | test/unit/bacnet/bacdcode/src/main.c:1813-1872 | The octet 0x10 or 0x11, length 1. A NULL buffer reports 0 and writes nothing. |
| Primitives.DecodeBoolean | test/unit/bacnet/bacdcode/src/main.c:2079-2090 | A length/value/type is true iff it is nonzero, up to the largest 32-bit value; 0 and 1 are the octets of false and true. |
| Primitives.ApplicationBooleanRoundTrip | test/unit/bacnet/bacdcode/src/main.c:1813-1872 | An application boolean decodes as a 1-octet tag 1 whose length/value/type `decode_boolean` maps back to the value. |
| Primitives.EncodeContextBoolean | test/unit/bacnet/bacdcode/src/main.c:1874-1960 | A context tag of length 1, then 0 or 1. That is 2 octets, or 3 above tag 14. A NULL buffer reports the length. |
| Primitives.DecodeContextBoolean | test/unit/bacnet/bacdcode/src/main.c:1962-1981 | A content octet is true iff it is nonzero, 0xFE and 0xFF included; 0 and 1 are the octets of false and true. |
| Primitives.DecodeContextBoolean2 | test/unit/bacnet/bacdcode/src/main.c:1983-2077 | It fails with -1, leaving the value untouched, exactly for a NULL buffer, a NULL output, a tag-number mismatch, or an opening or closing tag. Otherwise it consumes the tag number and one content octet. |
| Primitives.ContextBooleanRoundTrip | test/unit/bacnet/bacdcode/src/main.c:1874-2077 | A context boolean reads back as its value and length under its own tag number and fails with -1 under any other. |
| BacInt.EncodeFixedWidth | test/unit/bacnet/bacdcode/src/main.c:119-244 | The fixed-width writers produce exactly `width` octets whose big-endian value is the input. |
| BacInt.UnsignedWidth | test/unit/bacnet/bacdcode/src/main.c:56-67 | The width is the minimal number of octets whose range holds the value. |
| BacInt.UnsignedLength | test/unit/bacnet/bacdcode/src/main.c:56-67 | The count-while-shifting loop returns that minimal width, between 1 and 8. |
| BacInt.SignedWidth | test/unit/bacnet/bacdcode/src/main.c:69-92 | The range checks choose a width of 1 to 4 octets. The value fits it in two's complement and does not fit one octet fewer. |
| BacInt.TwosComplementDigit | test/unit/bacnet/bacdcode/src/main.c:203-244 | Each octet the signed writers compute (arithmetic shift, then an 8-bit cast) is the matching octet of the two's-complement pattern. |
| BacInt.EncodeUnsigned16 | zephyr/tests/unit/bacnet/bacint/main.c:23-29 | A NULL buffer reports 0 and writes nothing. Otherwise the 2 octets are big-endian and nothing else changes. |
| BacInt.DecodeUnsigned16 | zephyr/tests/unit/bacnet/bacint/main.c:31-54 | A NULL buffer or NULL output gives 0 with the output untouched. Otherwise it consumes 2 octets whose big-endian value is the result. |
| BacInt.Unsigned16RoundTrip | zephyr/tests/unit/bacnet/bacint/main.c:56-153 | At any offset, aligned or not, the value written reads back with length 2, and only the two written octets change. |
| Integers.BacnetUnsignedBytes | test/unit/bacnet/bacdcode/src/main.c:2483-2939 | 1 to 8 octets, the minimal width for the value, whose big-endian value is the input. |
| Integers.EncodeBacnetUnsigned | test/unit/bacnet/bacdcode/src/main.c:2483-2939 | It returns the minimal width and writes the value in that width. A NULL buffer reports the width. The surrounding octets are unchanged. |
| Integers.BacnetSignedBytes | test/unit/bacnet/bacdcode/src/main.c:2941-3189 | The chosen width, with a sign-extended value equal to the input. |
| Integers.EncodeBacnetSigned | test/unit/bacnet/bacdcode/src/main.c:2941-3189 | It returns the signed width and writes the two's-complement octets. A NULL buffer reports the width. |
| Integers.SignedBytesAreShifts | test/unit/bacnet/bacdcode/src/main.c:203-244 | Octet i of the signed encoding is the value arithmetically shifted and cut to 8 bits. |
| Integers.SignedWidthBoundaries | test/unit/bacnet/bacdcode/src/main.c:2951-3090 | -128 gives 80, -129 gives FF 7F, 127 gives 7F and 128 gives 00 80. |
| Integers.BacnetUnsignedDecode | test/unit/bacnet/bacdcode/src/main.c:2244-2481 | It succeeds exactly for a non-NULL buffer and output with a length of 1..8 within `max_len`, reading that many big-endian octets. A length outside 1..8 but within `max_len` gives 0 with the value set to 0. The value is untouched exactly for NULL arguments or a length beyond `max_len`. |
| Integers.UnsignedRoundTrip | test/unit/bacnet/bacdcode/src/main.c:2244-2481 | The minimal-width encoding of every 64-bit value reads back as that value given its length. |
| DateTime.WireYear | test/unit/bacnet/bacdcode/src/main.c:3317-3399 | Years below 256 are written as they are. Years 1900..2155 are written as years after 1900. Years 256..1899 cannot be written. |
| DateTime.EncodeBacnetDate | test/unit/bacnet/bacdcode/src/main.c:3275-3469 | It writes year, month, day and weekday, and returns 4. An unwritable year returns -1 and changes nothing, with or without a buffer. |
| DateTime.EncodeBacnetTime | test/unit/bacnet/bacdcode/src/main.c:3191-3273 | It writes hour, minute, second and hundredths verbatim, and returns 4. |
| DateTime.EncodeTaggedDate | test/unit/bacnet/bacdcode/src/main.c:3416-3439 | The tag is followed by the date. The result is the tag length plus 4, or plus -1 for an unwritable year, in which case only the tag is written. |
| DateTime.EncodeTaggedTime | test/unit/bacnet/bacdcode/src/main.c:3233-3258 | The tag is followed by the time, and the result is the tag length plus 4. |
| DateTime.EncodeApplicationDate | test/unit/bacnet/bacdcode/src/main.c:3416-3419 | 0xA4 and then the date, 5 octets. An unwritable year reports 0. |
| DateTime.EncodeContextDate | test/unit/bacnet/bacdcode/src/main.c:3421-3439 | A context tag of length 4 and then the date. The length is 1 or 2 more than the bare encoder's result. |
| DateTime.EncodeApplicationTime | test/unit/bacnet/bacdcode/src/main.c:3233-3236 | 0xB4 and then the time, 5 octets. |
| DateTime.EncodeContextTime | test/unit/bacnet/bacdcode/src/main.c:3239-3258 | A context tag of length 4 and then the time. The length is 5 up to tag 14 and 6 above. |
| DateTime.LateYearWraps | test/unit/bacnet/bacdcode/src/main.c:3317-3399 | Years from 2156 on are written modulo 256, so they read back a multiple of 256 years too early. |
| DateTime.ApplicationDateRoundTrip | test/unit/bacnet/bacdcode/src/main.c:3275-3469 | An application date decodes as tag 10 with length 4, and its content reads back as the date. |
| DateTime.ContextTimeRoundTrip | test/unit/bacnet/bacdcode/src/main.c:3191-3273 | A context time decodes as its own tag with length 4, and its content reads back as the time. |
| ApduFixed.DecodeMaxSegs | test/unit/bacnet/bacdcode/src/main.c:252-279 | A high nibble of 0..7 gives the least segment count that the encoder maps to that code, which is 0, 2, 4, 8, 16, 32, 64 or 65 by the thresholds. Nibbles 8..15 give 0. No count exceeds 65. |
| ApduFixed.DecodeMaxApdu | test/unit/bacnet/bacdcode/src/main.c:281-306 | A low nibble of 0..5 gives the greatest APDU size up to 1476 that the encoder maps to that code, which is 50, 128, 206, 480, 1024 or 1476 by the thresholds. Nibbles 6..15 give 0. |
| ApduFixed.EncodeMaxSegsMaxApdu | test/unit/bacnet/bacdcode/src/main.c:308-346 | The segments code is in the high nibble and the APDU code in the low nibble. |
| ApduFixed.MaxSegsMaxApduRoundTrip | test/unit/bacnet/bacdcode/src/main.c:252-346 | Every octet with a segments code of 0..7 in its high nibble and an APDU code of 0..5 in its low nibble survives decoding both nibbles and re-encoding them. |
| ApduFixed.SegsRoundsDown | test/unit/bacnet/bacdcode/src/main.c:310-325 | The announced segment count is the largest table count not above the request. |
| ApduFixed.ApduRoundsUp | test/unit/bacnet/bacdcode/src/main.c:327-346 | Up to 1476 the announced size is the smallest table size not below the request. Above 1476 it is code 0. |
| ApduFixed.EncodeSimpleAck | test/unit/bacnet/bacdcode/src/main.c:3471-3500 | The octets are 0x20, the invoke id and the service choice. It returns 3, also for NULL, and the surrounding octets are unchanged. |
| ApduFixed.SimpleAckRoundTrip | test/unit/bacnet/bacdcode/src/main.c:3471-3500 | What is written reads back as a SimpleACK with the same invoke id and service choice. |
| Bits.Bit | zephyr/tests/unit/bacnet/bits/main.c:28-46 | Exactly bit `pos` is set. |
| Bits.BitSet | zephyr/tests/unit/bacnet/bits/main.c:48-58 | Bit `pos` is set and every other bit is kept. |
| Bits.BitClear | zephyr/tests/unit/bacnet/bits/main.c:60-70 | Bit `pos` is cleared and every other bit is kept. |
| Bits.BitFlip | zephyr/tests/unit/bacnet/bits/main.c:72-91 | Bit `pos` is toggled and every other bit is kept. |
| Bits.BitCheck | zephyr/tests/unit/bacnet/bits/main.c:93-106 | The result is true iff bit `pos` is set. |
| Bits.BitmaskSet | zephyr/tests/unit/bacnet/bits/main.c:108-118 | The mask bits are set and the other bits are kept. |
| Bits.BitmaskClear | zephyr/tests/unit/bacnet/bits/main.c:120-130 | The mask bits are cleared and the other bits are kept. |
| Bits.BitmaskFlip | zephyr/tests/unit/bacnet/bits/main.c:132-151 | The mask bits are toggled and the other bits are kept. |
| Bits.BitmaskCheck | zephyr/tests/unit/bacnet/bits/main.c:153-166 | The result is true iff every mask bit is set. |
| Bits.MaskFormsOfSingleBit | zephyr/tests/unit/bacnet/bits/main.c:108-166 | With mask `1 << pos`, each mask form equals its single-bit form. |
| Bits.SetClearExtremes | zephyr/tests/unit/bacnet/bits/main.c:48-70 | Setting bit `pos` in 0 gives `BIT(pos)`. Clearing it in all-ones gives the complement of `BIT(pos)`. |
| Bits.FlipTwice | zephyr/tests/unit/bacnet/bits/main.c:72-91 | Flipping the same bit twice restores the word. |
| Bits.CheckExtremes | zephyr/tests/unit/bacnet/bits/main.c:93-106 | Every bit is set in all-ones and none in 0. |
| Bits.ByteReverseBits | test/unit/bacnet/bacdcode/src/main.c:2211-2242 | Bit i of the result is bit 7-i of the input, for every i. |
| Bits.ReversalIsInvolution | test/unit/bacnet/bacdcode/src/main.c:2211-2242 | Reversing twice gives back the octet. |
| Bits.ReversalExample | test/unit/bacnet/bacdcode/src/main.c:2211-2242 | The reversal of 0xB5 is 0xAD. |

## Left out

- Real and double values: IEEE-754 floating point, which the tests only mock.
- The string, bit-string, octet-string, object-identifier, enumerated and
  address codecs. Their tests are still to be written
  (test/unit/bacnet/bacdcode/src/main.c:3544-3619), so there is no behaviour
  to follow. The mock headers and sources under
  test/unit/bacnet/bacdcode/src/mocks only declare fakes.
- ports/zephyr/bacport.h: socket headers and platform glue.
- Fake instrumentation: call counts, the pointer arguments recorded, and the
  deliberately non-standard lengths the 16- and 32-bit sub-decoders report
  in some tests (test/unit/bacnet/bacdcode/src/main.c:1177-1182, 1247-1252,
  2455-2480). The model uses the real widths 2, 4 and so on.
- `decode_tag_number` with a NULL buffer: its test is disabled
  (test/unit/bacnet/bacdcode/src/main.c:774-790), so `Tags.DecodeTagNumber`
  takes a plain sequence and says nothing about that case.
- Date and time decoders: their tests are still to be written.
  `DateTime.DateOfBytes` and `DateTime.TimeOfBytes` give the meaning of the
  content octets instead, as clauses 20.2.12 and 20.2.13 define it.
- That an encoder leaves its input structure unmodified. In a functional
  model the input is a value and cannot change.
- Tags.EncodeTag: a NULL destination reports the full tag length, as the
  note at test/unit/bacnet/bacdcode/src/main.c:482-484 states. The tests
  only show this with a fake `encode_unsigned16` and `encode_unsigned32`
  that report their widths for NULL; the real `encode_unsigned16` reports 0
  (see "## Findings").
- Tags.IsOpeningTagNumber: requires the context flag as well as field 6 and
  the tag number. No test decides the flag: the only application-tag octet
  tested, 0x06 (test/unit/bacnet/bacdcode/src/main.c:1673-1684), already
  fails on its tag number.
- Tags.IsClosingTagNumber: requires the context flag as well as field 7 and
  the tag number, for the same reason; no test decides the flag.
- Bits.BitmaskCheck: `bacnet/bits.h` is not part of this model. The check is
  modelled as "every mask bit is set". The tests use only single-bit masks,
  for which "every" and "any" coincide.
- Bits.Bit: the word is modelled as 64 bits (`unsigned long` on LP64
  targets). The tests iterate over the width of `unsigned long`.
- BacInt.EncodeFixedWidth: requires the value to fit the width. Truncation of
  wider values by the C casts is not modelled; every caller in the model
  passes a value that fits.
- DateTime.WireYear: the tests only pin years 1900, 138, 70 and 256. Years
  from 2156 on are written modulo 256, like the C cast to 8 bits;
  `DateTime.LateYearWraps` states the consequence.
- ApduFixed.EncodeMaxSegsMaxApdu: a request of exactly 64 segments is not
  tested. It is given code 6, between the tested neighbours 63 (code 5) and
  65 (code 7).
- Integers.BacnetUnsignedDecode: a length of 1..8 that exceeds `max_len` is
  not tested. It is modelled as 0 with the value untouched.

## Findings

| source | as written | input that shows it | evidently intended | confidence | as-written member | corrected member |
|---|---|---|---|---|---|---|
| test/unit/bacnet/bacdcode/src/main.c:555-558 | `encode_tag` counts the 16-bit extended length as whatever `encode_unsigned16` returns, and with a NULL buffer that is 0 (zephyr/tests/unit/bacnet/bacint/main.c:27-28) | `encode_tag(NULL, 60, false, 254)` reports 3 | 5, the octets the tag occupies, as the note at test/unit/bacnet/bacdcode/src/main.c:482-484 promises for a NULL buffer | not executed; medium, the tests substitute a fake that hides it | Tags.EncodeTagVia16, Tags.NullLengthVia16 | Tags.EncodeTag |
