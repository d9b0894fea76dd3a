/**
  The document text format: `DocumentManager::SerializeDocument`, which
  builds JSON-looking text with `std::format` and escapes nothing, and a
  decoder for the language that serializer produces, which reads the same
  fields `DocumentManager::DeserializeDocument` takes out of the parsed JSON.

  The layout is written as fixed keys between the fields. Every key that
  follows a field starts right after the character that ends that field
  (a closing quote, a ',' or a newline), so the decoder can cut a field at
  its terminator and then expect the key.
 */
module Codec {
  import opened Timeline
  import opened Decimal

  /** PROJECT_VERSION_MAJOR and PROJECT_VERSION_MINOR from the build configuration. */
  datatype Version = Version(major: nat, minor: nat)

  // Document header: Name, Version, State { Zoom, Offset }, then the event list.
  const NameKey: string := "{\n  \"Name\": \""
  const VersionKey: string := ",\n  \"Version\": \""
  const ZoomKey: string := ",\n  \"State\": {\n    \"Zoom\": "
  const OffsetKey: string := "\n    \"Offset\": "
  const EventsKey: string := "  },\n  \"Events\": [\n"
  const Footer: string := "  ]\n}\n"

  // One event block: Id, Year, Headline, Description, Expanded.
  const IdKey: string := "    {\n      \"Id\": "
  const YearKey: string := "\n      \"Year\": "
  const HeadlineKey: string := "\n      \"Headline\": \""
  const DescriptionKey: string := ",\n      \"Description\": \""
  const ExpandedKey: string := ",\n      \"Expanded\": "
  const BlockEnd: string := "\n    }"

  // ---------------------------------------------------------------------
  // Serializer
  //
  // The text is built back to front: each writer takes the text that
  // follows it, so a reader can take one field off the front at a time.

  /** A fixed key, then the field's text, then what follows. */
  function Field(key: string, value: string, rest: string): string {
    key + (value + rest)
  }

  /** `std::format("{}", b)` for a bool. */
  function BoolText(b: bool): string {
    if b then "true" else "false"
  }

  /** The "<major>.<minor>" text of the "Version" field. */
  function VersionText(v: Version): string {
    NatToString(v.major) + "." + NatToString(v.minor)
  }

  /** One event block (Id, Year, Headline, Description, Expanded), then `rest`. */
  function EventBlock(e: TimelineEvent, rest: string): string {
    Field(IdKey, NatToString(e.id), "," +
    Field(YearKey, IntToString(e.year), "," +
    Field(HeadlineKey, e.headline, "\"" +
    Field(DescriptionKey, e.description, "\"" +
    Field(ExpandedKey, BoolText(e.expanded), BlockEnd + rest)))))
  }

  /** The separator after the k-th block: ",\n" unless it is the last one, "\n" then. */
  function Separator(events: seq<TimelineEvent>, k: nat): string {
    if k + 1 != |events| then ",\n" else "\n"
  }

  /** The blocks from the k-th to the last, each with its separator, then the closing lines. */
  function EventsText(events: seq<TimelineEvent>, k: nat): string
    requires k <= |events|
    decreases |events| - k
  {
    if k == |events| then Footer
    else EventBlock(events[k], Separator(events, k) + EventsText(events, k + 1))
  }

  /** The header fields (Name, Version, State), then `rest`. */
  function Header(d: Document, v: Version, rest: string): string {
    Field(NameKey, d.name, "\"" +
    Field(VersionKey, VersionText(v), "\"" +
    Field(ZoomKey, d.state.zoom.text, "," +
    Field(OffsetKey, d.state.offset.text, "\n" + (EventsKey + rest)))))
  }

  /** `SerializeDocument`: the header, one block per event in sequence order,
      the closing lines. The name is written as it is, up to the closing quote. */
  function SerializeDocument(d: Document, v: Version): (r: string)
    ensures NameKey + d.name + "\"" <= r
    ensures EndsWith(r, Footer)
  {
    EventsTextEndsWithFooter(d.events, 0);
    HeaderEndsWith(d, v, EventsText(d.events, 0), Footer);
    HeaderStartsWithName(d, v, EventsText(d.events, 0));
    Header(d, v, EventsText(d.events, 0))
  }

  // ---------------------------------------------------------------------
  // What the format can carry unchanged

  /** Text a JSON string literal holds verbatim: no quote, no backslash and
      no control character, since the serializer escapes nothing. */
  predicate PlainText(s: string) {
    forall i :: 0 <= i < |s| ==> s[i] != '"' && s[i] != '\\' && s[i] >= ' '
  }

  /** The end of the run of digits that starts at `i`. */
  function DigitRun(s: string, i: nat): (j: nat)
    requires i <= |s|
    ensures i <= j <= |s|
    ensures forall k :: i <= k < j ==> IsDigit(s[k])
    ensures j < |s| ==> !IsDigit(s[j])
    decreases |s| - i
  {
    if i < |s| && IsDigit(s[i]) then DigitRun(s, i + 1) else i
  }

  /** The end of an exponent part `[eE][+-]?[0-9]+` starting at `i`, or `i`
      itself when none starts there. */
  function ExponentEnd(s: string, i: nat): (j: nat)
    requires i <= |s|
    ensures i <= j <= |s|
  {
    if i < |s| && (s[i] == 'e' || s[i] == 'E') then
      var d := if i + 1 < |s| && (s[i + 1] == '+' || s[i + 1] == '-') then i + 2 else i + 1;
      var f := DigitRun(s, d);
      if f > d then f else i
    else i
  }

  /** A JSON number, `-?(0|[1-9][0-9]*)(\.[0-9]+)?([eE][+-]?[0-9]+)?`: the
      text of a finite float as `std::format` writes it. "inf" and "nan"
      are not JSON numbers and fall outside. */
  predicate NumberToken(s: string) {
    var a := if |s| > 0 && s[0] == '-' then 1 else 0;
    var b := DigitRun(s, a);
    && b > a
    && (s[a] != '0' || b == a + 1)
    && var c := if b < |s| && s[b] == '.' then DigitRun(s, b + 1) else b;
    && (c == b || c > b + 1)
    && ExponentEnd(s, c) == |s|
  }

  /** A number token holds neither of the characters that end a number field. */
  lemma NumberTokenStops(s: string)
    requires NumberToken(s)
    ensures ',' !in s && '\n' !in s
  {
    var a := if |s| > 0 && s[0] == '-' then 1 else 0;
    var b := DigitRun(s, a);
    var c := if b < |s| && s[b] == '.' then DigitRun(s, b + 1) else b;
    var e := ExponentEnd(s, c);
    forall k | 0 <= k < |s|
      ensures s[k] != ',' && s[k] != '\n'
    {
      if k >= c && c < e {
        var d := if c + 1 < |s| && (s[c + 1] == '+' || s[c + 1] == '-') then c + 2 else c + 1;
        assert k == c || (k == c + 1 && d == c + 2) || d <= k < DigitRun(s, d);
      }
    }
  }

  /** The grammar accepts the float texts `std::format` writes and rejects
      malformed ones the JSON parser would refuse. */
  lemma NumberTokenExamples()
    ensures NumberToken("1") && NumberToken("0") && NumberToken("-0.5") && NumberToken("1e+10")
    ensures !NumberToken("") && !NumberToken("+") && !NumberToken("1.2.3")
    ensures !NumberToken("01") && !NumberToken("1.") && !NumberToken("1e") && !NumberToken("inf")
  {
  }

  predicate EncodableEvent(e: TimelineEvent) {
    PlainText(e.headline) && PlainText(e.description)
  }

  /** A document whose text fields and numbers the format carries unchanged. */
  predicate Encodable(d: Document) {
    && PlainText(d.name)
    && NumberToken(d.state.zoom.text)
    && NumberToken(d.state.offset.text)
    && forall i :: 0 <= i < |d.events| ==> EncodableEvent(d.events[i])
  }

  // ---------------------------------------------------------------------
  // Decoder

  /** The rest of `s` after the literal `p`, if `s` starts with it. */
  function StripPrefix(p: string, s: string): (r: Option<string>)
    ensures r.Some? <==> p <= s
    ensures r.Some? ==> s == p + r.value
  {
    if p <= s then Some(s[|p|..]) else None
  }

  /** `s` cut at the first `c`: the part before it and the part after it. */
  function SplitAt(s: string, c: char): (r: Option<(string, string)>)
    ensures r.None? <==> c !in s
    ensures r.Some? ==> c !in r.value.0 && s == r.value.0 + [c] + r.value.1
    decreases |s|
  {
    if |s| == 0 then None
    else if s[0] == c then Some(([], s[1..]))
    else
      match SplitAt(s[1..], c)
      case None => None
      case Some(p) => Some(([s[0]] + p.0, p.1))
  }

  /** A string field: its verbatim text up to the closing quote. */
  function ReadString(s: string): (r: Option<(string, string)>)
    ensures r.Some? ==> PlainText(r.value.0) && s == r.value.0 + "\"" + r.value.1
  {
    var p :- SplitAt(s, '"');
    if PlainText(p.0) then Some(p) else None
  }

  /** A number field: its token up to the terminator `stop`. */
  function ReadNumber(s: string, stop: char): (r: Option<(string, string)>)
    ensures r.Some? ==> NumberToken(r.value.0) && s == r.value.0 + [stop] + r.value.1
  {
    var p :- SplitAt(s, stop);
    if NumberToken(p.0) then Some(p) else None
  }

  /** The value of "Expanded". */
  function ReadBool(s: string): (r: Option<(bool, string)>)
    ensures r.Some? ==> s == BoolText(r.value.0) + r.value.1
  {
    match StripPrefix("true", s)
    case Some(rest) => Some((true, rest))
    case None =>
      var rest :- StripPrefix("false", s);
      Some((false, rest))
  }

  /** A keyed string field and the text after its closing quote. */
  function KeyedString(key: string, s: string): (r: Option<(string, string)>)
    ensures r.Some? ==> |r.value.1| < |s|
  {
    var s1 :- StripPrefix(key, s);
    ReadString(s1)
  }

  /** The "Id" field, an unsigned 64-bit number, and the text after its ','. */
  function KeyedId(s: string): (r: Option<(uint64, string)>)
    ensures r.Some? ==> |r.value.1| < |s|
  {
    var s1 :- StripPrefix(IdKey, s);
    var p :- SplitAt(s1, ',');
    var n :- ParseNat(p.0);
    if n < TwoTo64 then Some((n, p.1)) else None
  }

  /** The "Year" field, a signed 32-bit number, and the text after its ','. */
  function KeyedYear(s: string): (r: Option<(int32, string)>)
    ensures r.Some? ==> |r.value.1| < |s|
  {
    var s1 :- StripPrefix(YearKey, s);
    var p :- SplitAt(s1, ',');
    var y :- ParseInt(p.0);
    if Int32Min <= y <= Int32Max then Some((y, p.1)) else None
  }

  /** The "Expanded" field and the text after the block's closing brace. */
  function KeyedExpanded(s: string): (r: Option<(bool, string)>)
    ensures r.Some? ==> |r.value.1| < |s|
  {
    var s1 :- StripPrefix(ExpandedKey, s);
    var b :- ReadBool(s1);
    var rest :- StripPrefix(BlockEnd, b.1);
    Some((b.0, rest))
  }

  /** One event block and the text after it. */
  function DecodeEvent(s: string): (r: Option<(TimelineEvent, string)>)
    ensures r.Some? ==> |r.value.1| < |s|
  {
    var id :- KeyedId(s);
    var year :- KeyedYear(id.1);
    var headline :- KeyedString(HeadlineKey, year.1);
    var description :- KeyedString(DescriptionKey, headline.1);
    var expanded :- KeyedExpanded(description.1);
    Some((TimelineEvent(id.0, year.0, headline.0, expanded.0, description.0), expanded.1))
  }

  /** One or more event blocks, separated by ",\n", the last one followed by "\n" and the closing lines. */
  function DecodeEvents(s: string): (r: Option<seq<TimelineEvent>>)
    decreases |s|
  {
    var first :- DecodeEvent(s);
    var rest := first.1;
    if rest == "\n" + Footer then Some([first.0])
    else if ",\n" <= rest then
      var more :- DecodeEvents(rest[2..]);
      Some([first.0] + more)
    else None
  }

  /** The event list: the closing lines alone, or one or more blocks. */
  function DecodeEventList(s: string): Option<seq<TimelineEvent>> {
    if s == Footer then Some([]) else DecodeEvents(s)
  }

  /** The fields `DeserializeDocument` reads. The version is read as a string and dropped. */
  datatype Fields = Fields(name: string, zoom: Float, offset: Float, events: seq<TimelineEvent>)

  /** A keyed number field and the text after its terminator `stop`. */
  function KeyedNumber(key: string, s: string, stop: char): (r: Option<(string, string)>)
  {
    var s1 :- StripPrefix(key, s);
    ReadNumber(s1, stop)
  }

  /** Version, Zoom and Offset, and the text after the "Events" key. */
  function DecodeState(s: string): Option<(Float, Float, string)> {
    var version :- KeyedString(VersionKey, s);
    var zoom :- KeyedNumber(ZoomKey, version.1, ',');
    var offset :- KeyedNumber(OffsetKey, zoom.1, '\n');
    var rest :- StripPrefix(EventsKey, offset.1);
    Some((Float(zoom.0), Float(offset.0), rest))
  }

  function DecodeFields(text: string): Option<Fields> {
    var name :- KeyedString(NameKey, text);
    var state :- DecodeState(name.1);
    var events :- DecodeEventList(state.2);
    Some(Fields(name.0, state.0, state.1, events))
  }

  /** `DeserializeDocument`: the decoded fields on a default-constructed
      document, marked saved. The year bounds are not read from the text;
      they keep the default-constructed values `blank` supplies. None
      stands for the exception the JSON parser throws. */
  function DeserializeDocument(text: string, blank: TimelineState): (r: Option<Document>)
    ensures r.Some? ==> r.value.saved && r.value.path == ""
    ensures r.Some? ==> r.value.state.minYear == blank.minYear && r.value.state.maxYear == blank.maxYear
  {
    var f :- DecodeFields(text);
    Some(Document(f.name, true, "", f.events,
                  TimelineState(f.zoom, f.offset, blank.minYear, blank.maxYear)))
  }

  // ---------------------------------------------------------------------
  // Round trip

  lemma StripPrefixOf(p: string, rest: string)
    ensures StripPrefix(p, p + rest) == Some(rest)
  {
    assert (p + rest)[|p|..] == rest;
  }

  lemma StripField(key: string, value: string, rest: string)
    ensures StripPrefix(key, Field(key, value, rest)) == Some(value + rest)
  {
    StripPrefixOf(key, value + rest);
  }

  lemma {:induction false} SplitAtFirst(x: string, c: char, rest: string)
    requires c !in x
    ensures SplitAt(x + ([c] + rest), c) == Some((x, rest))
    decreases |x|
  {
    var s := x + ([c] + rest);
    if |x| == 0 {
      assert s == [c] + rest;
      assert s[1..] == rest;
    } else {
      assert s[0] == x[0];
      assert s[1..] == x[1..] + ([c] + rest);
      SplitAtFirst(x[1..], c, rest);
      assert [x[0]] + x[1..] == x;
    }
  }

  /** When the field text itself holds the terminator, the cut comes early. */
  lemma {:induction false} SplitAtEarly(x: string, c: char, rest: string)
    requires c in x
    ensures SplitAt(x + rest, c).Some?
    ensures |SplitAt(x + rest, c).value.0| < |x|
    decreases |x|
  {
    var s := x + rest;
    assert s[0] == x[0];
    if x[0] != c {
      assert s[1..] == x[1..] + rest;
      SplitAtEarly(x[1..], c, rest);
    }
  }

  lemma DigitsHaveNoComma(s: string)
    requires forall i :: 0 <= i < |s| ==> IsDigit(s[i]) || s[i] == '-'
    ensures ',' !in s
  {
  }

  lemma VersionIsPlain(v: Version)
    ensures PlainText(VersionText(v))
  {
    var a := NatToString(v.major);
    var b := NatToString(v.minor);
    var s := VersionText(v);
    forall i | 0 <= i < |s|
      ensures s[i] != '"' && s[i] != '\\' && s[i] >= ' '
    {
      if i < |a| {
        assert s[i] == a[i];
      } else if i > |a| {
        assert s[i] == b[i - |a| - 1];
      }
    }
  }

  lemma ReadStringOf(x: string, rest: string)
    requires PlainText(x)
    ensures ReadString(x + ("\"" + rest)) == Some((x, rest))
  {
    assert '"' !in x;
    SplitAtFirst(x, '"', rest);
  }

  lemma ReadNumberOf(x: string, stop: char, rest: string)
    requires NumberToken(x) && (stop == ',' || stop == '\n')
    ensures ReadNumber(x + ([stop] + rest), stop) == Some((x, rest))
  {
    NumberTokenStops(x);
    SplitAtFirst(x, stop, rest);
  }

  lemma ReadBoolOf(b: bool, rest: string)
    ensures ReadBool(BoolText(b) + rest) == Some((b, rest))
  {
    var s := BoolText(b) + rest;
    if b {
      StripPrefixOf("true", rest);
    } else {
      assert !("true" <= s) by {
        assert s[0] == 'f';
      }
      StripPrefixOf("false", rest);
    }
  }

  lemma KeyedStringOf(key: string, x: string, rest: string)
    requires PlainText(x)
    ensures KeyedString(key, Field(key, x, "\"" + rest)) == Some((x, rest))
  {
    StripField(key, x, "\"" + rest);
    ReadStringOf(x, rest);
  }

  lemma KeyedIdOf(id: uint64, rest: string)
    ensures KeyedId(Field(IdKey, NatToString(id), "," + rest)) == Some((id, rest))
  {
    StripField(IdKey, NatToString(id), "," + rest);
    DigitsHaveNoComma(NatToString(id));
    SplitAtFirst(NatToString(id), ',', rest);
    ParseNatRoundTrip(id);
  }

  lemma KeyedYearOf(year: int32, rest: string)
    ensures KeyedYear(Field(YearKey, IntToString(year), "," + rest)) == Some((year, rest))
  {
    StripField(YearKey, IntToString(year), "," + rest);
    DigitsHaveNoComma(IntToString(year));
    SplitAtFirst(IntToString(year), ',', rest);
    ParseIntRoundTrip(year);
  }

  lemma KeyedExpandedOf(b: bool, rest: string)
    ensures KeyedExpanded(Field(ExpandedKey, BoolText(b), BlockEnd + rest)) == Some((b, rest))
  {
    StripField(ExpandedKey, BoolText(b), BlockEnd + rest);
    ReadBoolOf(b, BlockEnd + rest);
    StripPrefixOf(BlockEnd, rest);
  }

  /** One block reads back as the event it was written from. */
  lemma DecodeEventOf(e: TimelineEvent, rest: string)
    requires EncodableEvent(e)
    ensures DecodeEvent(EventBlock(e, rest)) == Some((e, rest))
  {
    var r4 := Field(ExpandedKey, BoolText(e.expanded), BlockEnd + rest);
    var r3 := Field(DescriptionKey, e.description, "\"" + r4);
    var r2 := Field(HeadlineKey, e.headline, "\"" + r3);
    var r1 := Field(YearKey, IntToString(e.year), "," + r2);
    KeyedIdOf(e.id, r1);
    KeyedYearOf(e.year, r2);
    KeyedStringOf(HeadlineKey, e.headline, r3);
    KeyedStringOf(DescriptionKey, e.description, r4);
    KeyedExpandedOf(e.expanded, rest);
  }

  lemma SliceFirst<T>(s: seq<T>, k: nat)
    requires k < |s|
    ensures s[k..] == [s[k]] + s[k + 1..]
  {
  }

  lemma {:induction false} DecodeEventsFrom(events: seq<TimelineEvent>, k: nat)
    requires k < |events|
    requires forall i :: 0 <= i < |events| ==> EncodableEvent(events[i])
    ensures DecodeEvents(EventsText(events, k)) == Some(events[k..])
    decreases |events| - k
  {
    var tail := EventsText(events, k + 1);
    var rest := Separator(events, k) + tail;
    DecodeEventOf(events[k], rest);
    if k + 1 == |events| {
      assert rest == "\n" + Footer;
      assert events[k..] == [events[k]];
    } else {
      assert rest == ",\n" + tail;
      assert rest[0] == ',' && ("\n" + Footer)[0] == '\n';
      assert rest[2..] == tail;
      DecodeEventsFrom(events, k + 1);
      SliceFirst(events, k);
    }
  }

  lemma BlockIsNotFooter(e: TimelineEvent, rest: string)
    ensures EventBlock(e, rest) != Footer
  {
    var s := EventBlock(e, rest);
    var value := NatToString(e.id) + ("," + Field(YearKey, IntToString(e.year), "," +
      Field(HeadlineKey, e.headline, "\"" +
      Field(DescriptionKey, e.description, "\"" +
      Field(ExpandedKey, BoolText(e.expanded), BlockEnd + rest)))));
    assert s == IdKey + value;
    assert s[2] == IdKey[2];
    assert IdKey[2] != Footer[2];
  }

  lemma DecodeEventListOf(events: seq<TimelineEvent>)
    requires forall i :: 0 <= i < |events| ==> EncodableEvent(events[i])
    ensures DecodeEventList(EventsText(events, 0)) == Some(events)
  {
    if |events| > 0 {
      BlockIsNotFooter(events[0], Separator(events, 0) + EventsText(events, 1));
      DecodeEventsFrom(events, 0);
      assert events[0..] == events;
    }
  }

  /** A keyed number field reads back as the token written, up to its stop character. */
  lemma KeyedNumberOf(key: string, x: string, stop: char, rest: string)
    requires NumberToken(x) && (stop == ',' || stop == '\n')
    ensures KeyedNumber(key, Field(key, x, [stop] + rest), stop) == Some((x, rest))
  {
    StripField(key, x, [stop] + rest);
    ReadNumberOf(x, stop, rest);
  }

  lemma DecodeStateOf(d: Document, v: Version, events: string)
    requires NumberToken(d.state.zoom.text) && NumberToken(d.state.offset.text)
    ensures DecodeState(Field(VersionKey, VersionText(v), "\"" +
      Field(ZoomKey, d.state.zoom.text, "," +
      Field(OffsetKey, d.state.offset.text, "\n" + (EventsKey + events)))))
      == Some((d.state.zoom, d.state.offset, events))
  {
    var r3 := Field(OffsetKey, d.state.offset.text, "\n" + (EventsKey + events));
    var r2 := Field(ZoomKey, d.state.zoom.text, "," + r3);
    VersionIsPlain(v);
    KeyedStringOf(VersionKey, VersionText(v), r2);
    KeyedNumberOf(ZoomKey, d.state.zoom.text, ',', r3);
    KeyedNumberOf(OffsetKey, d.state.offset.text, '\n', EventsKey + events);
    StripPrefixOf(EventsKey, events);
  }

  /** Decoding the serializer's output gives back every field it wrote,
      whatever the version; the text fields must need no JSON escaping. */
  lemma DecodeFieldsRoundTrip(d: Document, v: Version)
    requires Encodable(d)
    ensures DecodeFields(SerializeDocument(d, v)) == Some(Fields(d.name, d.state.zoom, d.state.offset, d.events))
  {
    var events := EventsText(d.events, 0);
    var r1 := Field(VersionKey, VersionText(v), "\"" +
      Field(ZoomKey, d.state.zoom.text, "," +
      Field(OffsetKey, d.state.offset.text, "\n" + (EventsKey + events))));
    KeyedStringOf(NameKey, d.name, r1);
    DecodeStateOf(d, v, events);
    DecodeEventListOf(d.events);
  }

  /** Reading back a serialized document gives its name, zoom, offset and
      every event (id, year, headline, description, expanded) in order,
      with `saved` set and no path yet, whatever version was written. */
  lemma SerializeRoundTrip(d: Document, v: Version, blank: TimelineState)
    requires Encodable(d)
    ensures var r := DeserializeDocument(SerializeDocument(d, v), blank);
      && r.Some?
      && r.value.name == d.name
      && r.value.events == d.events
      && r.value.state.zoom == d.state.zoom
      && r.value.state.offset == d.state.offset
      && r.value.saved
  {
    DecodeFieldsRoundTrip(d, v);
  }

  /** A quote in the name ends the name field early: the text does not read
      back with that name, because the serializer does not escape it. */
  lemma QuoteInNameIsLost(d: Document, v: Version, blank: TimelineState)
    requires '"' in d.name
    ensures var r := DeserializeDocument(SerializeDocument(d, v), blank);
      r.None? || r.value.name != d.name
  {
    var rest := "\"" + Field(VersionKey, VersionText(v), "\"" +
      Field(ZoomKey, d.state.zoom.text, "," +
      Field(OffsetKey, d.state.offset.text, "\n" + (EventsKey + EventsText(d.events, 0)))));
    var text := SerializeDocument(d, v);
    StripField(NameKey, d.name, rest);
    SplitAtEarly(d.name, '"', rest);
    var name := KeyedString(NameKey, text);
    assert name.None? || |name.value.0| < |d.name|;
    DecodedNameIsFirstField(text);
  }

  /** The decoded name is the text of the first string field. */
  lemma DecodedNameIsFirstField(text: string)
    ensures DecodeFields(text).Some? ==>
      KeyedString(NameKey, text).Some? && DecodeFields(text).value.name == KeyedString(NameKey, text).value.0
  {
  }

  // ---------------------------------------------------------------------
  // Layout

  predicate EndsWith(s: string, t: string) {
    |t| <= |s| && s[|s| - |t|..] == t
  }

  lemma EndsWithAppend(a: string, s: string, t: string)
    requires EndsWith(s, t)
    ensures EndsWith(a + s, t)
  {
    assert (a + s)[|a + s| - |t|..] == s[|s| - |t|..];
  }

  lemma FieldEndsWith(key: string, value: string, rest: string, t: string)
    requires EndsWith(rest, t)
    ensures EndsWith(Field(key, value, rest), t)
  {
    EndsWithAppend(value, rest, t);
    EndsWithAppend(key, value + rest, t);
  }

  lemma {:induction false} EventsTextEndsWithFooter(events: seq<TimelineEvent>, k: nat)
    requires k <= |events|
    ensures EndsWith(EventsText(events, k), Footer)
    decreases |events| - k
  {
    if k < |events| {
      var e := events[k];
      var rest := Separator(events, k) + EventsText(events, k + 1);
      EventsTextEndsWithFooter(events, k + 1);
      EndsWithAppend(Separator(events, k), EventsText(events, k + 1), Footer);
      EndsWithAppend(BlockEnd, rest, Footer);
      FieldEndsWith(ExpandedKey, BoolText(e.expanded), BlockEnd + rest, Footer);
      var r4 := Field(ExpandedKey, BoolText(e.expanded), BlockEnd + rest);
      EndsWithAppend("\"", r4, Footer);
      FieldEndsWith(DescriptionKey, e.description, "\"" + r4, Footer);
      var r3 := Field(DescriptionKey, e.description, "\"" + r4);
      EndsWithAppend("\"", r3, Footer);
      FieldEndsWith(HeadlineKey, e.headline, "\"" + r3, Footer);
      var r2 := Field(HeadlineKey, e.headline, "\"" + r3);
      EndsWithAppend(",", r2, Footer);
      FieldEndsWith(YearKey, IntToString(e.year), "," + r2, Footer);
      var r1 := Field(YearKey, IntToString(e.year), "," + r2);
      EndsWithAppend(",", r1, Footer);
      FieldEndsWith(IdKey, NatToString(e.id), "," + r1, Footer);
    }
  }

  /** The header keeps whatever follows it at its end. */
  lemma HeaderEndsWith(d: Document, v: Version, rest: string, t: string)
    requires EndsWith(rest, t)
    ensures EndsWith(Header(d, v, rest), t)
  {
    EndsWithAppend(EventsKey, rest, t);
    EndsWithAppend("\n", EventsKey + rest, t);
    FieldEndsWith(OffsetKey, d.state.offset.text, "\n" + (EventsKey + rest), t);
    var r3 := Field(OffsetKey, d.state.offset.text, "\n" + (EventsKey + rest));
    EndsWithAppend(",", r3, t);
    FieldEndsWith(ZoomKey, d.state.zoom.text, "," + r3, t);
    var r2 := Field(ZoomKey, d.state.zoom.text, "," + r3);
    EndsWithAppend("\"", r2, t);
    FieldEndsWith(VersionKey, VersionText(v), "\"" + r2, t);
    var r1 := Field(VersionKey, VersionText(v), "\"" + r2);
    EndsWithAppend("\"", r1, t);
    FieldEndsWith(NameKey, d.name, "\"" + r1, t);
  }

  /** The header opens with the Name key, the name verbatim and its closing quote. */
  lemma HeaderStartsWithName(d: Document, v: Version, rest: string)
    ensures NameKey + d.name + "\"" <= Header(d, v, rest)
  {
    var r1 := Field(VersionKey, VersionText(v), "\"" +
      Field(ZoomKey, d.state.zoom.text, "," +
      Field(OffsetKey, d.state.offset.text, "\n" + (EventsKey + rest))));
    assert Header(d, v, rest) == NameKey + (d.name + ("\"" + r1));
    assert NameKey + (d.name + ("\"" + r1)) == (NameKey + d.name + "\"") + r1;
  }

  /** How the blocks are joined: after every block but the last comes ",\n"
      and the next block, which opens with its Id key; after the last comes
      "\n" and the closing lines. */
  lemma EventsJoined(events: seq<TimelineEvent>, k: nat)
    requires k < |events|
    ensures k + 1 < |events| ==>
      var tail := EventsText(events, k + 1);
      EventsText(events, k) == EventBlock(events[k], ",\n" + tail) && IdKey <= tail
    ensures k + 1 == |events| ==>
      EventsText(events, k) == EventBlock(events[k], "\n" + Footer)
  {
  }
}
