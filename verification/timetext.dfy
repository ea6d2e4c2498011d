/** Times as the database stores them: RFC 3339 text in UTC, truncated to whole seconds,
    compared as text. */
module TimeText {
  import opened CivilTime
  import opened Options
  import opened Text
  import opened Decimals

  const SECOND: int := 1_000_000_000
  const DAY_SECONDS: int := 86400

  /** Nanoseconds since 0000-01-01T00:00:00Z, up to the end of year 9999. */
  type Instant = t: int | 0 <= t < DAY_COUNT * DAY_SECONDS * SECOND

  /** The zero value of Go's time type: 0001-01-01T00:00:00Z. */
  const ZERO_TIME: Instant := 366 * DAY_SECONDS * SECOND

  function FloorSecond(t: Instant): (s: nat)
    ensures s < DAY_COUNT * DAY_SECONDS
  {
    t / SECOND
  }

  function DayOf(t: Instant): (n: nat)
    ensures n < DAY_COUNT
  {
    FloorSecond(t) / DAY_SECONDS
  }

  function SecondOfDay(t: Instant): (s: nat)
    ensures s < DAY_SECONDS
  {
    FloorSecond(t) % DAY_SECONDS
  }

  lemma DayAndSecond(t: Instant)
    ensures FloorSecond(t) == DayOf(t) * DAY_SECONDS + SecondOfDay(t)
  {}

  function Midnight(n: nat): Instant
    requires n < DAY_COUNT
  {
    n * DAY_SECONDS * SECOND
  }

  // ---------- text order ----------

  /** Byte-wise text comparison. */
  predicate TextLess(a: string, b: string) {
    if b == "" then false
    else if a == "" then true
    else if a[0] != b[0] then a[0] < b[0]
    else TextLess(a[1..], b[1..])
  }

  predicate TextAtMost(a: string, b: string) {
    !TextLess(b, a)
  }

  lemma {:induction false} TextLessSplit(a: string, b: string, x: string, y: string)
    requires |a| == |b|
    ensures TextLess(a + x, b + y) <==> TextLess(a, b) || (a == b && TextLess(x, y))
  {
    if a == "" {
      assert a + x == x && b + y == y;
    } else {
      assert (a + x)[1..] == a[1..] + x && (b + y)[1..] == b[1..] + y;
      TextLessSplit(a[1..], b[1..], x, y);
      assert a == [a[0]] + a[1..] && b == [b[0]] + b[1..];
    }
  }

  lemma {:induction false} TextTotal(a: string, b: string)
    ensures TextLess(a, b) || TextLess(b, a) || a == b
    ensures !(TextLess(a, b) && TextLess(b, a))
  {
    if a != "" && b != "" && a[0] == b[0] {
      TextTotal(a[1..], b[1..]);
      assert a == [a[0]] + a[1..] && b == [b[0]] + b[1..];
    }
  }

  // ---------- order of decimals ----------

  lemma DigitOrder(a: nat, b: nat)
    requires a < 10 && b < 10
    ensures TextLess([Digit(a)], [Digit(b)]) <==> a < b
  {
    assert [Digit(a)][1..] == "" && [Digit(b)][1..] == "";
  }

  lemma {:induction false} DecimalOrder(m: nat, n: nat, w: nat)
    requires m < Pow10(w) && n < Pow10(w)
    ensures TextLess(Decimal(m, w), Decimal(n, w)) <==> m < n
    ensures Decimal(m, w) == Decimal(n, w) <==> m == n
  {
    if w > 0 {
      hide TextLess, Digit, Value;
      DecimalOrder(m / 10, n / 10, w - 1);
      DigitOrder(m % 10, n % 10);
      TextLessSplit(Decimal(m / 10, w - 1), Decimal(n / 10, w - 1), [Digit(m % 10)], [Digit(n % 10)]);
    }
    ValueOfDecimal(m, w);
    ValueOfDecimal(n, w);
  }

  // ---------- printing ----------

  function Two(n: nat): (s: string)
    requires n < 100
    ensures |s| == 2
  {
    Pow10Values();
    Decimal(n, 2)
  }

  function Four(n: nat): (s: string)
    requires n < 10000
    ensures |s| == 4
  {
    Pow10Values();
    Decimal(n, 4)
  }

  /** "2006-01-02" */
  function DateText(date: Date): (s: string)
    requires ValidDate(date)
    ensures |s| == 10
  {
    Four(date.y) + "-" + Two(date.m) + "-" + Two(date.d)
  }

  function DayText(n: nat): (s: string)
    requires n < DAY_COUNT
    ensures |s| == 10
  {
    DateText(DateOf(n))
  }

  datatype Clock = Clock(hour: nat, minute: nat, second: nat)

  predicate ValidClock(c: Clock) {
    c.hour < 24 && c.minute < 60 && c.second < 60
  }

  function ClockSeconds(c: Clock): (s: nat)
    requires ValidClock(c)
    ensures s < DAY_SECONDS
  {
    c.hour * 3600 + c.minute * 60 + c.second
  }

  function ClockOf(s: nat): (c: Clock)
    requires s < DAY_SECONDS
    ensures ValidClock(c) && ClockSeconds(c) == s
  {
    var minutes := s / 60;
    Clock(minutes / 60, minutes % 60, s % 60)
  }

  /** "15:04:05" */
  function ClockText(c: Clock): (t: string)
    requires ValidClock(c)
    ensures |t| == 8
  {
    Two(c.hour) + ":" + Two(c.minute) + ":" + Two(c.second)
  }

  /** "2006-01-02T15:04:05Z" */
  function FmtTime(t: Instant): (s: string)
    ensures |s| == 20
  {
    DayText(DayOf(t)) + "T" + ClockText(ClockOf(SecondOfDay(t))) + "Z"
  }

  // ---------- text order is time order ----------

  /** Two equally wide decimal fields followed by the same separator. */
  lemma FieldOrder(a: nat, b: nat, w: nat, sep: string, x: string, y: string)
    requires a < Pow10(w) && b < Pow10(w)
    ensures TextLess(Decimal(a, w) + sep + x, Decimal(b, w) + sep + y) <==> a < b || (a == b && TextLess(x, y))
  {
    var p, q := Decimal(a, w), Decimal(b, w);
    DecimalOrder(a, b, w);
    assert p + sep + x == p + (sep + x) && q + sep + y == q + (sep + y);
    TextLessSplit(p, q, sep + x, sep + y);
    TextLessSplit(sep, sep, x, y);
    TextTotal(sep, sep);
  }

  lemma DateTextOrder(a: Date, b: Date)
    requires ValidDate(a) && ValidDate(b)
    ensures TextLess(DateText(a), DateText(b)) <==> DateLess(a, b)
  {
    hide TextLess, Decimal;
    Pow10Values();
    FieldOrder(a.y, b.y, 4, "-", Two(a.m) + "-" + Two(a.d), Two(b.m) + "-" + Two(b.d));
    FieldOrder(a.m, b.m, 2, "-", Two(a.d), Two(b.d));
    DecimalOrder(a.d, b.d, 2);
    assert DateText(a) == Four(a.y) + "-" + (Two(a.m) + "-" + Two(a.d));
    assert DateText(b) == Four(b.y) + "-" + (Two(b.m) + "-" + Two(b.d));
  }

  /** Day labels sort chronologically and name their day. */
  lemma DayTextOrder(m: nat, n: nat)
    requires m < DAY_COUNT && n < DAY_COUNT
    ensures TextLess(DayText(m), DayText(n)) <==> m < n
    ensures DayText(m) == DayText(n) <==> m == n
  {
    DateTextOrder(DateOf(m), DateOf(n));
    DateTextOrder(DateOf(n), DateOf(m));
    DateOrder(DateOf(m), DateOf(n));
    DateOrder(DateOf(n), DateOf(m));
    TextTotal(DayText(m), DayText(n));
  }

  lemma ClockTextOrder(a: Clock, b: Clock)
    requires ValidClock(a) && ValidClock(b)
    ensures TextLess(ClockText(a), ClockText(b)) <==> ClockSeconds(a) < ClockSeconds(b)
  {
    hide TextLess, Decimal;
    Pow10Values();
    FieldOrder(a.hour, b.hour, 2, ":", Two(a.minute) + ":" + Two(a.second), Two(b.minute) + ":" + Two(b.second));
    FieldOrder(a.minute, b.minute, 2, ":", Two(a.second), Two(b.second));
    DecimalOrder(a.second, b.second, 2);
    assert ClockText(a) == Two(a.hour) + ":" + (Two(a.minute) + ":" + Two(a.second));
    assert ClockText(b) == Two(b.hour) + ":" + (Two(b.minute) + ":" + Two(b.second));
  }

  /** Comparing stored times as text compares them as whole seconds. */
  lemma TextOrderIsTimeOrder(a: Instant, b: Instant)
    ensures TextLess(FmtTime(a), FmtTime(b)) <==> FloorSecond(a) < FloorSecond(b)
    ensures TextAtMost(FmtTime(a), FmtTime(b)) <==> FloorSecond(a) <= FloorSecond(b)
    ensures FmtTime(a) == FmtTime(b) <==> FloorSecond(a) == FloorSecond(b)
  {
    TextLessIsBefore(a, b);
    TextLessIsBefore(b, a);
    TextTotal(FmtTime(a), FmtTime(b));
  }

  lemma TextLessIsBefore(a: Instant, b: Instant)
    ensures TextLess(FmtTime(a), FmtTime(b)) <==> FloorSecond(a) < FloorSecond(b)
  {
    hide TextLess, DayText, ClockText, ClockOf, FloorSecond, DayOf, SecondOfDay, ClockSeconds;
    DayAndSecond(a);
    DayAndSecond(b);
    var p, q := ClockText(ClockOf(SecondOfDay(a))), ClockText(ClockOf(SecondOfDay(b)));
    DayTextOrder(DayOf(a), DayOf(b));
    ClockTextOrder(ClockOf(SecondOfDay(a)), ClockOf(SecondOfDay(b)));
    assert FmtTime(a) == DayText(DayOf(a)) + ("T" + (p + "Z"));
    assert FmtTime(b) == DayText(DayOf(b)) + ("T" + (q + "Z"));
    TextLessSplit(DayText(DayOf(a)), DayText(DayOf(b)), "T" + (p + "Z"), "T" + (q + "Z"));
    TextLessSplit("T", "T", p + "Z", q + "Z");
    TextLessSplit(p, q, "Z", "Z");
    TextTotal("Z", "Z");
    TextTotal("T", "T");
  }

  /** Fixed points of the count: the zero time, the Unix epoch, and the end of the range. */
  lemma CalendarAnchors()
    ensures ZERO_TIME == Midnight(DayNumber(Date(1, 1, 1)))
    ensures DayNumber(Date(1970, 1, 1)) == 719528
    ensures DayNumber(Date(9999, 12, 31)) == DAY_COUNT - 1
  {
    YearOfMonths(9999);
    MonthsAscend(9999, 12, 13);
  }

  // ---------- parsing ----------

  /** "2006-01-02" read back; None where Go's parser reports an error. */
  function ParseDate(s: string): (r: Option<Date>)
    ensures r.Some? ==> ValidDate(r.value)
  {
    if |s| == 10 && s[4] == '-' && s[7] == '-' &&
       AllDigits(s[..4]) && AllDigits(s[5..7]) && AllDigits(s[8..])
    then
      var date := Date(Value(s[..4]), Value(s[5..7]), Value(s[8..]));
      if ValidDate(date) then Some(date) else None
    else None
  }

  function ParseClock(s: string): Option<Clock> {
    if |s| == 8 && s[2] == ':' && s[5] == ':' &&
       AllDigits(s[..2]) && AllDigits(s[3..5]) && AllDigits(s[6..])
    then
      var c := Clock(Value(s[..2]), Value(s[3..5]), Value(s[6..]));
      if ValidClock(c) then Some(c) else None
    else None
  }

  /** The stored text read back; the zero time when it does not parse. */
  function ParseTime(s: string): Instant {
    if |s| == 20 && s[10] == 'T' && s[19] == 'Z' && ParseDate(s[..10]).Some? && ParseClock(s[11..19]).Some? then
      var date, clock := ParseDate(s[..10]).value, ParseClock(s[11..19]).value;
      assert ValidDate(date) && ValidClock(clock);
      WithinYear(date);
      (DayNumber(date) * DAY_SECONDS + ClockSeconds(clock)) * SECOND
    else ZERO_TIME
  }

  lemma DateTextParses(date: Date)
    requires ValidDate(date)
    ensures ParseDate(DateText(date)) == Some(date)
  {
    Pow10Values();
    var s := DateText(date);
    assert s[..4] == Four(date.y) && s[5..7] == Two(date.m) && s[8..] == Two(date.d);
    ValueOfDecimal(date.y, 4);
    ValueOfDecimal(date.m, 2);
    ValueOfDecimal(date.d, 2);
  }

  lemma ClockTextParses(c: Clock)
    requires ValidClock(c)
    ensures ParseClock(ClockText(c)) == Some(c)
  {
    Pow10Values();
    var s := ClockText(c);
    assert s[..2] == Two(c.hour) && s[3..5] == Two(c.minute) && s[6..] == Two(c.second);
    ValueOfDecimal(c.hour, 2);
    ValueOfDecimal(c.minute, 2);
    ValueOfDecimal(c.second, 2);
  }

  /** Storing a time and reading it back truncates it to the second. */
  lemma StoredTimeReadsBack(t: Instant)
    ensures ParseTime(FmtTime(t)) == FloorSecond(t) * SECOND
  {
    hide DayText, ClockText, ClockOf, SecondOfDay, DayOf, FloorSecond;
    var s := FmtTime(t);
    var clock := ClockOf(SecondOfDay(t));
    DayAndSecond(t);
    assert s == DayText(DayOf(t)) + "T" + ClockText(clock) + "Z";
    assert s[..10] == DayText(DayOf(t)) && s[10] == 'T' && s[11..19] == ClockText(clock) && s[19] == 'Z';
    DayTextParses(DayOf(t));
    ClockTextParses(clock);
  }

  lemma DayTextParses(n: nat)
    requires n < DAY_COUNT
    ensures ParseDate(DayText(n)) == Some(DateOf(n))
  {
    DateTextParses(DateOf(n));
  }

  /** The first ten characters of a stored time are its day. */
  lemma StoredTimeDay(t: Instant)
    ensures FmtTime(t)[..10] == DayText(DayOf(t))
  {}

  // ---------- the day range of the issue list ----------

  /** The upper end the page builds from a "to" day: its last second. */
  function EndOfDay(n: nat): Instant
    requires n < DAY_COUNT
  {
    Midnight(n) + DAY_SECONDS * SECOND - SECOND
  }

  /** The two text comparisons of the date filter select exactly the days in the inclusive range. */
  lemma DayRangeByText(t: Instant, from: nat, to: nat)
    requires from < DAY_COUNT && to < DAY_COUNT
    ensures TextAtMost(FmtTime(Midnight(from)), FmtTime(t)) <==> from <= DayOf(t)
    ensures TextAtMost(FmtTime(t), FmtTime(EndOfDay(to))) <==> DayOf(t) <= to
  {
    TextOrderIsTimeOrder(Midnight(from), t);
    TextOrderIsTimeOrder(t, EndOfDay(to));
    assert FloorSecond(Midnight(from)) == from * DAY_SECONDS;
    assert FloorSecond(EndOfDay(to)) == to * DAY_SECONDS + DAY_SECONDS - 1;
  }

  /** A date typed into the filter: day first, else year first. */
  function ParseFilterDate(v: string): Option<nat> {
    if |v| != 10 then None
    else if ParseDate(v[6..] + "-" + v[3..5] + "-" + v[..2]).Some? && v[2] == '-' && v[5] == '-' then
      Some(DayNumber(ParseDate(v[6..] + "-" + v[3..5] + "-" + v[..2]).value))
    else if ParseDate(v).Some? then Some(DayNumber(ParseDate(v).value))
    else None
  }

  /** Both ways of writing a day are read as that day. */
  lemma FilterDateReadsBothLayouts(date: Date)
    requires ValidDate(date)
    ensures ParseFilterDate(DateText(date)) == Some(DayNumber(date))
    ensures ParseFilterDate(DayFirst(date)) == Some(DayNumber(date))
  {
    DateTextParses(date);
    var v := DayFirst(date);
    assert v[6..] == Four(date.y) && v[3..5] == Two(date.m) && v[..2] == Two(date.d);
    var w := DateText(date);
    assert w[2] in Four(date.y);
  }

  /** "02-01-2006" */
  function DayFirst(date: Date): string
    requires ValidDate(date)
  {
    Two(date.d) + "-" + Two(date.m) + "-" + Four(date.y)
  }

  lemma ParsedDateIsText(s: string)
    requires ParseDate(s).Some?
    ensures s == DateText(ParseDate(s).value)
  {
    hide Decimal, Value;
    Pow10Values();
    DecimalOfValue(s[..4]);
    DecimalOfValue(s[5..7]);
    DecimalOfValue(s[8..]);
    assert s == s[..4] + "-" + s[5..7] + "-" + s[8..];
  }

  /** A filter date is read as a day if and only if it is a valid date in one of the two layouts,
      and then as that date's day; anything else is no filter. */
  lemma FilterDateIsExact(v: string, n: nat)
    ensures ParseFilterDate(v) == Some(n) <==>
            exists date :: ValidDate(date) && DayNumber(date) == n && (v == DayFirst(date) || v == DateText(date))
  {
    hide ParseDate, DateText, DayNumber, ValidDate, Two, Four;
    if ParseFilterDate(v) == Some(n) {
      var turned := v[6..] + "-" + v[3..5] + "-" + v[..2];
      if ParseDate(turned).Some? && v[2] == '-' && v[5] == '-' {
        ParsedDateIsText(turned);
        TurnedIsDayFirst(v, ParseDate(turned).value);
        assert v == DayFirst(ParseDate(turned).value);
      } else {
        ParsedDateIsText(v);
        assert v == DateText(ParseDate(v).value);
      }
    }
    forall date | ValidDate(date) && DayNumber(date) == n && (v == DayFirst(date) || v == DateText(date))
      ensures ParseFilterDate(v) == Some(n)
    {
      FilterDateReadsBothLayouts(date);
    }
  }

  lemma TurnedIsDayFirst(v: string, date: Date)
    requires |v| == 10 && v[2] == '-' && v[5] == '-' && ValidDate(date)
    requires v[6..] + "-" + v[3..5] + "-" + v[..2] == DateText(date)
    ensures v == DayFirst(date)
  {
    hide Decimal;
    var t := v[6..] + "-" + v[3..5] + "-" + v[..2];
    assert t[..4] == v[6..] && t[5..7] == v[3..5] && t[8..] == v[..2];
    var u := DateText(date);
    assert u[..4] == Four(date.y) && u[5..7] == Two(date.m) && u[8..] == Two(date.d);
    assert v == v[..2] + "-" + v[3..5] + "-" + v[6..];
  }
}
