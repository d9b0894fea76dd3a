/**
  The data model of a LineaOne timeline: events, view state and documents,
  together with the fixed-width integer types the C++ code uses and the
  explicit conversions between them.
 */
module Timeline {

  /** An optional value; failure-compatible, so decoders can use `:-`. */
  datatype Option<+T> = None | Some(value: T) {
    predicate IsFailure() {
      None?
    }

    function PropagateFailure<U>(): Option<U>
      requires None?
    {
      None
    }

    function Extract(): T
      requires Some?
    {
      value
    }
  }

  const Int32Min: int := -0x8000_0000
  const Int32Max: int := 0x7FFF_FFFF
  const TwoTo32: int := 0x1_0000_0000
  const TwoTo64: int := 0x1_0000_0000_0000_0000

  type int32 = x: int | -0x8000_0000 <= x < 0x8000_0000
  type uint64 = x: int | 0 <= x < 0x1_0000_0000_0000_0000

  /** `static_cast<int32_t>` of an integer: two's-complement truncation to 32 bits. */
  function ToInt32(x: int): (r: int32)
    ensures Int32Min <= x <= Int32Max ==> r == x
    ensures (r - x) % TwoTo32 == 0
  {
    var m := x % TwoTo32;
    if m <= Int32Max then m else m - TwoTo32
  }

  /** The value an `int32_t` takes when it is compared with a `size_t`
      (the usual arithmetic conversions make it unsigned 64-bit). */
  function AsSizeT(x: int32): (r: uint64)
    ensures x >= 0 ==> r == x
    ensures x < 0 ==> r >= TwoTo64 + Int32Min
  {
    if x >= 0 then x else x + TwoTo64
  }

  /** A float, as decimal text. A float the program computes is the
      shortest text that reads back as the same value, as
      `std::format("{}", f)` writes it; a loaded one keeps the text of the
      file. */
  datatype Float = Float(text: string)

  /** `1.0f` and `0.0f` as `std::format` prints them. */
  const FloatOne: Float := Float("1")
  const FloatZero: Float := Float("0")

  datatype TimelineEvent = TimelineEvent(
    id: uint64,
    year: int32,
    headline: string,
    expanded: bool,
    description: string)

  datatype TimelineState = TimelineState(
    zoom: Float,
    offset: Float,
    minYear: int32,
    maxYear: int32)

  datatype Document = Document(
    name: string,
    saved: bool,
    path: string,
    events: seq<TimelineEvent>,
    state: TimelineState)

  /** The year a document without events shows on both ends of its range. */
  const FallbackYear: int32 := 2000

  /** The min/max scan of a new document's events, starting from
      INT_MAX/INT_MIN, followed by the fallback that applies when the
      minimum is still INT_MAX. */
  function YearRange(events: seq<TimelineEvent>): (r: (int32, int32))
  {
    var scanned := ScanYears(events, Int32Max, Int32Min);
    if scanned.0 == Int32Max then (FallbackYear, FallbackYear) else scanned
  }

  function ScanYears(events: seq<TimelineEvent>, lo: int32, hi: int32): (r: (int32, int32))
    decreases |events|
  {
    if |events| == 0 then (lo, hi)
    else
      var y := events[0].year;
      ScanYears(events[1..], if y < lo then y else lo, if y > hi then y else hi)
  }

  /** The scan finds the least and the greatest year, starting from the given bounds. */
  lemma {:induction false} ScanYearsBounds(events: seq<TimelineEvent>, lo: int32, hi: int32)
    ensures var r := ScanYears(events, lo, hi);
      && r.0 <= lo && hi <= r.1
      && (forall i :: 0 <= i < |events| ==> r.0 <= events[i].year <= r.1)
      && (r.0 == lo || exists i :: 0 <= i < |events| && events[i].year == r.0)
      && (r.1 == hi || exists i :: 0 <= i < |events| && events[i].year == r.1)
    decreases |events|
  {
    if |events| > 0 {
      var y := events[0].year;
      var lo' := if y < lo then y else lo;
      var hi' := if y > hi then y else hi;
      ScanYearsBounds(events[1..], lo', hi');
      var r := ScanYears(events, lo, hi);
      assert r == ScanYears(events[1..], lo', hi');
      forall i | 0 <= i < |events|
        ensures r.0 <= events[i].year <= r.1
      {
        if i > 0 {
          assert events[i] == events[1..][i - 1];
        }
      }
      if r.0 != lo {
        if r.0 == lo' {
          assert events[0].year == r.0;
        } else {
          var k :| 0 <= k < |events[1..]| && events[1..][k].year == r.0;
          assert events[k + 1].year == r.0;
        }
      }
      if r.1 != hi {
        if r.1 == hi' {
          assert events[0].year == r.1;
        } else {
          var k :| 0 <= k < |events[1..]| && events[1..][k].year == r.1;
          assert events[k + 1].year == r.1;
        }
      }
    }
  }

  /** The year range of an event list: the fallback pair for an empty list,
      and otherwise the true least and greatest years, unless every year is
      INT_MAX, which the fallback test cannot tell apart from "no events".
      `CreateNewDocument` runs the scan only over the new document's empty
      event list, so the program never reaches the non-empty case. */
  lemma YearRangeMeaning(events: seq<TimelineEvent>)
    ensures |events| == 0 ==> YearRange(events) == (FallbackYear, FallbackYear)
    ensures (exists i :: 0 <= i < |events| && events[i].year < Int32Max) ==>
      var r := YearRange(events);
      && (forall i :: 0 <= i < |events| ==> r.0 <= events[i].year <= r.1)
      && (exists i :: 0 <= i < |events| && events[i].year == r.0)
      && (exists i :: 0 <= i < |events| && events[i].year == r.1)
  {
    ScanYearsBounds(events, Int32Max, Int32Min);
    if exists i :: 0 <= i < |events| && events[i].year < Int32Max {
      var r := ScanYears(events, Int32Max, Int32Min);
      var k :| 0 <= k < |events| && events[k].year < Int32Max;
      assert r.0 <= events[k].year;
      assert r.1 >= events[k].year;
      assert r.1 != Int32Min || events[k].year == Int32Min;
    }
  }

  /** A list whose every year is INT_MAX is reported with the fallback range.
      The program never scans a non-empty list, so this input does not arise
      there; the lemma shows what the fallback test would do with it. */
  lemma AllMaxYearsLookEmpty(e: TimelineEvent)
    requires e.year == Int32Max
    ensures YearRange([e]) == (FallbackYear, FallbackYear)
  {
    assert [e][1..] == [];
    assert ScanYears([e], Int32Max, Int32Min) == ScanYears([], Int32Max, Int32Max);
  }
}
