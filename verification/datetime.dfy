/**
  The date and time primitive values of clauses 20.2.12 and 20.2.13 of
  ANSI/ASHRAE 135: four content octets each, the year written relative to
  1900. The application forms put an application tag of length 4 in front,
  the context forms a context tag of length 4.
 */
module DateTime {
  import opened Wire
  import opened Tags

  datatype Date = Date(year: uint16, month: uint8, day: uint8, wday: uint8)
  datatype Time = Time(hour: uint8, min: uint8, sec: uint8, hundredths: uint8)

  /** Application tag numbers of the date and time datatypes. */
  const DateTag: uint8 := 10
  const TimeTag: uint8 := 11
  const YearEpoch: nat := 1900
  /** Every date and time has four content octets. */
  const ContentLength: nat := 4
  /** `BACNET_STATUS_ERROR`. */
  const StatusError: int := -1

  /**
    The year octet of a date: years from 1900 on are written relative to
    1900 (and cut to 8 bits); years below 256 are taken as already relative;
    anything in between cannot be written.
   */
  function WireYear(year: uint16): (r: Option<uint8>)
    ensures r.None? <==> 256 <= year < YearEpoch
    ensures year < 256 ==> r == Some(year)
    ensures YearEpoch <= year < YearEpoch + 256 ==> r.Some? && YearEpoch + r.value == year
  {
    if year >= YearEpoch then Some((year - YearEpoch) % 256)
    else if year < 256 then Some(year)
    else None
  }

  function DateBytes(date: Date): (s: seq<uint8>)
    requires WireYear(date.year).Some?
    ensures |s| == ContentLength
  {
    [WireYear(date.year).value, date.month, date.day, date.wday]
  }

  function TimeBytes(time: Time): (s: seq<uint8>)
    ensures |s| == ContentLength
  {
    [time.hour, time.min, time.sec, time.hundredths]
  }

  /**
    The date four content octets denote (the reading of clause 20.2.12):
    year 1900 plus the first octet, then month, day and weekday as written.
   */
  function DateOfBytes(s: seq<uint8>): (date: Date)
    requires |s| >= ContentLength
    ensures date.year >= YearEpoch
  {
    Date(YearEpoch + s[0], s[1], s[2], s[3])
  }

  /** The time four content octets denote: hour, minute, second, hundredths. */
  function TimeOfBytes(s: seq<uint8>): Time
    requires |s| >= ContentLength
  {
    Time(s[0], s[1], s[2], s[3])
  }

  /**
    `encode_bacnet_date`: the four content octets, 4 returned; a year that
    cannot be written returns -1 and leaves the buffer untouched, whether or
    not a buffer is given.
   */
  function EncodeBacnetDate(d: Dest, date: Date): (e: Encoding)
    requires Room(d, ContentLength)
    ensures WireYear(date.year).None? ==> e == Encoding(StatusError, d)
    ensures WireYear(date.year).Some? ==>
      && e.len == ContentLength
      && (e.dest.Nowhere? <==> d.Nowhere?)
      && Holds(e.dest, DateBytes(date))
      && SameOutside(d, e.dest, ContentLength)
  {
    if WireYear(date.year).None? then Encoding(StatusError, d)
    else Emit(d, DateBytes(date))
  }

  /** `encode_bacnet_time`: the four fields verbatim, 4 returned. */
  function EncodeBacnetTime(d: Dest, time: Time): (e: Encoding)
    requires Room(d, ContentLength)
    ensures e.len == ContentLength
    ensures e.dest.Nowhere? <==> d.Nowhere?
    ensures Holds(e.dest, TimeBytes(time))
    ensures SameOutside(d, e.dest, ContentLength)
  {
    Emit(d, TimeBytes(time))
  }

  /**
    The wrappers' scheme: the tag first, then the bare encoder right behind
    it, and the sum of both returned values, so a bare -1 still counts the
    tag's octets.
   */
  function EncodeTaggedDate(d: Dest, tag: uint8, ctx: bool, date: Date): (e: Encoding)
    requires Room(d, TagNumberWidth(tag) + ContentLength)
    ensures e.len == TagNumberWidth(tag) + (if WireYear(date.year).Some? then ContentLength else StatusError)
    ensures e.dest.Nowhere? <==> d.Nowhere?
    ensures WireYear(date.year).Some? ==>
      Holds(e.dest, TagBytes(tag, ctx, ContentLength) + DateBytes(date)) &&
      SameOutside(d, e.dest, TagNumberWidth(tag) + ContentLength)
    ensures WireYear(date.year).None? ==>
      Holds(e.dest, TagBytes(tag, ctx, ContentLength)) &&
      SameOutside(d, e.dest, TagNumberWidth(tag))
  {
    var header := TagBytes(tag, ctx, ContentLength);
    var h := EncodeTag(d, tag, ctx, ContentLength);
    var b := EncodeBacnetDate(Advance(h.dest, h.len), date);
    if WireYear(date.year).Some? then StoreTwice(d, header, DateBytes(date)); Encoding(h.len + b.len, Rebase(b.dest, d))
    else Encoding(h.len + b.len, Rebase(b.dest, d))
  }

  /** The same scheme for times, whose bare encoder cannot fail. */
  function EncodeTaggedTime(d: Dest, tag: uint8, ctx: bool, time: Time): (e: Encoding)
    requires Room(d, TagNumberWidth(tag) + ContentLength)
    ensures e.len == TagNumberWidth(tag) + ContentLength
    ensures e.dest.Nowhere? <==> d.Nowhere?
    ensures Holds(e.dest, TagBytes(tag, ctx, ContentLength) + TimeBytes(time))
    ensures SameOutside(d, e.dest, e.len)
  {
    var header := TagBytes(tag, ctx, ContentLength);
    var h := EncodeTag(d, tag, ctx, ContentLength);
    var b := EncodeBacnetTime(Advance(h.dest, h.len), time);
    StoreTwice(d, header, TimeBytes(time));
    Encoding(h.len + b.len, Rebase(b.dest, d))
  }

  /** `encode_application_date`: application tag 10, length 4, then the date. */
  function EncodeApplicationDate(d: Dest, date: Date): (e: Encoding)
    requires Room(d, 1 + ContentLength)
    ensures e.len == 1 + (if WireYear(date.year).Some? then ContentLength else StatusError)
    ensures WireYear(date.year).Some? ==>
      Holds(e.dest, [0xA4] + DateBytes(date)) && SameOutside(d, e.dest, 1 + ContentLength)
  {
    EncodeTaggedDate(d, DateTag, false, date)
  }

  /** `encode_context_date`: context tag `tag`, length 4, then the date. */
  function EncodeContextDate(d: Dest, tag: uint8, date: Date): (e: Encoding)
    requires Room(d, TagNumberWidth(tag) + ContentLength)
    ensures e.len == TagNumberWidth(tag) + (if WireYear(date.year).Some? then ContentLength else StatusError)
    ensures WireYear(date.year).Some? ==>
      Holds(e.dest, TagBytes(tag, true, ContentLength) + DateBytes(date)) &&
      SameOutside(d, e.dest, e.len)
  {
    EncodeTaggedDate(d, tag, true, date)
  }

  /** `encode_application_time`: application tag 11, length 4, then the time. */
  function EncodeApplicationTime(d: Dest, time: Time): (e: Encoding)
    requires Room(d, 1 + ContentLength)
    ensures e.len == 1 + ContentLength
    ensures Holds(e.dest, [0xB4] + TimeBytes(time))
    ensures SameOutside(d, e.dest, e.len)
  {
    EncodeTaggedTime(d, TimeTag, false, time)
  }

  /** `encode_context_time`: context tag `tag`, length 4, then the time. */
  function EncodeContextTime(d: Dest, tag: uint8, time: Time): (e: Encoding)
    requires Room(d, TagNumberWidth(tag) + ContentLength)
    ensures e.len == TagNumberWidth(tag) + ContentLength
    ensures Holds(e.dest, TagBytes(tag, true, ContentLength) + TimeBytes(time))
    ensures SameOutside(d, e.dest, e.len)
  {
    EncodeTaggedTime(d, tag, true, time)
  }

  /** Dates from 1900 to 2155 read back from their content octets unchanged. */
  lemma DateRoundTrip(date: Date)
    requires YearEpoch <= date.year < YearEpoch + 256
    ensures WireYear(date.year).Some?
    ensures DateOfBytes(DateBytes(date)) == date
  {
  }

  /**
    A year below 256 is written as is, so it reads back as that many years
    after 1900: 70 stands for 1970.
   */
  lemma RelativeYearRoundTrip(date: Date)
    requires date.year < 256
    ensures WireYear(date.year).Some?
    ensures DateOfBytes(DateBytes(date)) == date.(year := YearEpoch + date.year)
  {
  }

  /**
    Years from 2156 on do not fit: they are written modulo 256 and read back
    256 years (or a multiple of that) too early.
   */
  lemma LateYearWraps(date: Date)
    requires date.year >= YearEpoch + 256
    ensures WireYear(date.year).Some?
    ensures DateOfBytes(DateBytes(date)).year < date.year
    ensures (date.year - DateOfBytes(DateBytes(date)).year) % 256 == 0
  {
    var y := date.year - YearEpoch;
    assert y == 256 * (y / 256) + y % 256;
  }

  /** Times read back from their content octets unchanged. */
  lemma TimeRoundTrip(time: Time)
    ensures TimeOfBytes(TimeBytes(time)) == time
  {
  }

  /**
    Through the whole application encoding, a date is the header octet
    0xA4 (tag 10, length 4) followed by its content, which reads back as the
    date; the header decodes as tag 10 with length 4.
   */
  lemma ApplicationDateRoundTrip(date: Date, rest: seq<uint8>)
    requires YearEpoch <= date.year < YearEpoch + 256
    ensures var s := TagBytes(DateTag, false, ContentLength) + DateBytes(date) + rest;
      && HeaderReadable(s)
      && DecodeHeader(s) == Header(1, DateTag, ContentLength)
      && DateOfBytes(s[1..]) == date
  {
    var h := TagBytes(DateTag, false, ContentLength);
    var s := h + DateBytes(date) + rest;
    assert s == h + (DateBytes(date) + rest);
    TagRoundTrip(DateTag, false, ContentLength, DateBytes(date) + rest);
    assert s[1..][..4] == DateBytes(date);
  }

  /** The same for a time under context tag `tag`. */
  lemma ContextTimeRoundTrip(tag: uint8, time: Time, rest: seq<uint8>)
    ensures var s := TagBytes(tag, true, ContentLength) + TimeBytes(time) + rest;
      && HeaderReadable(s)
      && DecodeHeader(s) == Header(TagNumberWidth(tag), tag, ContentLength)
      && TimeOfBytes(s[TagNumberWidth(tag)..]) == time
  {
    var h := TagBytes(tag, true, ContentLength);
    var s := h + TimeBytes(time) + rest;
    assert s == h + (TimeBytes(time) + rest);
    TagRoundTrip(tag, true, ContentLength, TimeBytes(time) + rest);
    assert s[|h|..][..4] == TimeBytes(time);
  }
}
