/** Naive local timestamps as both components store them in `played_at`:
    the text `YYYY-MM-DD HH:MM:SS` (`strftime`/`strptime` with "%Y-%m-%d %H:%M:%S"),
    and the difference of two of them in whole seconds. */
module Timestamp {
  import opened Common
  import opened Text

  predicate IsLeapYear(year: int)
  {
    year % 4 == 0 && (year % 100 != 0 || year % 400 == 0)
  }

  function DaysInMonth(year: int, month: int): (n: int)
    ensures 28 <= n <= 31
    ensures month == 2 ==> (n == 29 <==> IsLeapYear(year))
  {
    if month == 2 then (if IsLeapYear(year) then 29 else 28)
    else if month == 4 || month == 6 || month == 9 || month == 11 then 30
    else 31
  }

  function DaysInYear(year: int): int
  {
    if IsLeapYear(year) then 366 else 365
  }

  /** A calendar date and time of day, as Python's naive `datetime` holds it. */
  datatype DateTime = DateTime(year: nat, month: nat, day: nat, hour: nat, minute: nat, second: nat)
  {
    /** The ranges Python's `datetime` constructor accepts. */
    predicate Valid()
    {
      && 1 <= year <= 9999
      && 1 <= month <= 12
      && 1 <= day <= DaysInMonth(year, month)
      && 0 <= hour < 24
      && 0 <= minute < 60
      && 0 <= second < 60
    }
  }

  /** Every `datetime` value the program can hold is valid. */
  type LocalTime = dt: DateTime | dt.Valid() witness DateTime(1970, 1, 1, 0, 0, 0)

  /** Days of the given year that precede the first of the given month. */
  function DaysBeforeMonth(year: int, month: int): nat
    decreases month
  {
    if month <= 1 then 0 else DaysBeforeMonth(year, month - 1) + DaysInMonth(year, month - 1)
  }

  /** Days from 0001-01-01 to the first of January of the given year, in the proleptic
      Gregorian calendar: the lengths of all the years before it. */
  function DaysBeforeYear(year: nat): nat
  {
    if year <= 1 then 0 else DaysBeforeYear(year - 1) + DaysInYear(year - 1)
  }

  /** `date.toordinal()`: 0001-01-01 is day 1. */
  function Ordinal(dt: DateTime): int
  {
    DaysBeforeYear(dt.year) + DaysBeforeMonth(dt.year, dt.month) + dt.day
  }

  /** `toordinal() * 86400` plus the seconds of the time of day; the difference of two
      such values is `(a - b).total_seconds()` for naive datetimes (meaningful for valid
      ones). */
  function ToSeconds(dt: DateTime): int
  {
    Ordinal(dt) * 86400 + dt.hour * 3600 + dt.minute * 60 + dt.second
  }

  /** The twelve months of a year add up to the days of that year. */
  lemma MonthsFillYear(year: int)
    ensures DaysBeforeMonth(year, 13) == DaysInYear(year)
  {
    var feb := DaysInMonth(year, 2);
    assert DaysBeforeMonth(year, 3) == 31 + feb;
    assert DaysBeforeMonth(year, 5) == 92 + feb;
    assert DaysBeforeMonth(year, 7) == 153 + feb;
    assert DaysBeforeMonth(year, 9) == 215 + feb;
    assert DaysBeforeMonth(year, 11) == 276 + feb;
  }

  /** Later months of a year start no earlier. */
  lemma {:induction false} DaysBeforeMonthGrows(year: int, m: int, n: int)
    requires m <= n
    ensures DaysBeforeMonth(year, m) <= DaysBeforeMonth(year, n)
    decreases n
  {
    if m < n && n > 1 {
      DaysBeforeMonthGrows(year, m, n - 1);
    }
  }

  /** Later years start no earlier. */
  lemma {:induction false} DaysBeforeYearGrows(y: nat, z: nat)
    requires y <= z
    ensures DaysBeforeYear(y) <= DaysBeforeYear(z)
    decreases z
  {
    if y < z {
      DaysBeforeYearGrows(y, z - 1);
    }
  }

  /** A day of a valid date lies within its year: its day of the year is at most the
      year's length. */
  lemma DayWithinYear(dt: DateTime)
    requires dt.Valid()
    ensures 1 <= DaysBeforeMonth(dt.year, dt.month) + dt.day <= DaysInYear(dt.year)
  {
    DaysBeforeMonthGrows(dt.year, dt.month + 1, 13);
    MonthsFillYear(dt.year);
  }

  /** `a < b` on naive datetimes: field by field, the year first. */
  predicate Earlier(a: DateTime, b: DateTime)
  {
    if a.year != b.year then a.year < b.year
    else if a.month != b.month then a.month < b.month
    else if a.day != b.day then a.day < b.day
    else if a.hour != b.hour then a.hour < b.hour
    else if a.minute != b.minute then a.minute < b.minute
    else a.second < b.second
  }

  /** A date earlier in the calendar has a smaller ordinal. */
  lemma OrdinalGrows(a: DateTime, b: DateTime)
    requires a.Valid() && b.Valid()
    requires a.year < b.year || (a.year == b.year && (a.month < b.month || (a.month == b.month && a.day < b.day)))
    ensures Ordinal(a) < Ordinal(b)
  {
    var dayA := DaysBeforeMonth(a.year, a.month) + a.day;
    var dayB := DaysBeforeMonth(b.year, b.month) + b.day;
    assert Ordinal(a) == DaysBeforeYear(a.year) + dayA && Ordinal(b) == DaysBeforeYear(b.year) + dayB;
    if a.year < b.year {
      assert dayA <= DaysInYear(a.year) by { DayWithinYear(a); }
      assert DaysBeforeYear(a.year) + DaysInYear(a.year) <= DaysBeforeYear(b.year) by {
        DaysBeforeYearGrows(a.year + 1, b.year);
      }
    } else if a.month < b.month {
      assert dayA <= DaysBeforeMonth(a.year, b.month) by {
        DaysBeforeMonthGrows(a.year, a.month + 1, b.month);
      }
    }
  }

  /** Seconds since the epoch order valid datetimes exactly as the calendar does, so the
      gap `(a - b).total_seconds()` is positive exactly when `b` is earlier than `a`. */
  lemma ToSecondsOrder(a: DateTime, b: DateTime)
    requires a.Valid() && b.Valid()
    ensures Earlier(a, b) <==> ToSeconds(a) < ToSeconds(b)
    ensures ToSeconds(a) == ToSeconds(b) <==> a == b
  {
    if Earlier(a, b) {
      EarlierFewerSeconds(a, b);
    } else if Earlier(b, a) {
      EarlierFewerSeconds(b, a);
    }
  }

  /** The forward half of `ToSecondsOrder`. */
  lemma EarlierFewerSeconds(a: DateTime, b: DateTime)
    requires a.Valid() && b.Valid() && Earlier(a, b)
    ensures ToSeconds(a) < ToSeconds(b)
  {
    if a.year != b.year || a.month != b.month || a.day != b.day {
      OrdinalGrows(a, b);
    }
  }

  /** One piece of a `strptime`/`strftime` format: a zero-padded decimal field of a
      fixed width (`%Y` is 4 wide, `%m %d %H %M %S` are 2 wide) or a literal character. */
  datatype Directive = Field(width: nat) | Literal(c: char)

  /** "%Y-%m-%d" */
  const DateLayout: seq<Directive> := [Field(4), Literal('-'), Field(2), Literal('-'), Field(2)]

  /** " %H:%M:%S" */
  const TimeLayout: seq<Directive> := [Literal(' '), Field(2), Literal(':'), Field(2), Literal(':'), Field(2)]

  /** "%Y-%m-%d %H:%M:%S" */
  const Layout: seq<Directive> := DateLayout + TimeLayout

  /** Reads `s` against `layout`: the value of each field in order, or `None` when a
      field is not all digits, a literal does not match, or text is left over. */
  function Scan(s: string, layout: seq<Directive>): Option<seq<nat>>
    decreases |layout|
  {
    if layout == [] then (if s == [] then Some([]) else None)
    else
      match layout[0]
      case Literal(c) =>
        if |s| > 0 && s[0] == c then Scan(s[1..], layout[1..]) else None
      case Field(width) =>
        if |s| >= width && AllDigits(s[..width]) then
          match Scan(s[width..], layout[1..])
          case None => None
          case Some(rest) => Some([DigitsValue(s[..width])] + rest)
        else None
  }

  /** Values that fit `layout`: one per field, each within its field's width. */
  predicate Fits(layout: seq<Directive>, values: seq<nat>)
    decreases |layout|
  {
    if layout == [] then values == []
    else
      match layout[0]
      case Literal(_) => Fits(layout[1..], values)
      case Field(width) => width >= 1 && |values| > 0 && values[0] < Pow10(width) && Fits(layout[1..], values[1..])
  }

  /** Writes `values` into `layout`, each field zero-padded to its width (a field left
      without a value is written as nothing; values that fit leave none such). */
  function Render(layout: seq<Directive>, values: seq<nat>): string
    decreases |layout|
  {
    if layout == [] then ""
    else
      match layout[0]
      case Literal(c) => [c] + Render(layout[1..], values)
      case Field(width) =>
        if values == [] then Render(layout[1..], values)
        else ZeroPad(values[0], width) + Render(layout[1..], values[1..])
  }

  /** Reading back what was written gives the values that were written. */
  lemma {:induction false} ScanRender(layout: seq<Directive>, values: seq<nat>)
    requires Fits(layout, values)
    ensures Scan(Render(layout, values), layout) == Some(values)
    decreases |layout|
  {
    if layout != [] {
      var text := Render(layout, values);
      match layout[0]
      case Literal(c) =>
        ScanRender(layout[1..], values);
        assert text[1..] == Render(layout[1..], values);
      case Field(width) =>
        ScanRender(layout[1..], values[1..]);
        var digits := ZeroPad(values[0], width);
        ZeroPadDigits(values[0], width);
        NatToStringLength(values[0], width);
        assert text[..width] == digits && text[width..] == Render(layout[1..], values[1..]);
        assert values == [values[0]] + values[1..];
    }
  }

  /** The fields of a date and time, in the order the layout holds them. */
  function Values(dt: DateTime): seq<nat>
  {
    [dt.year, dt.month, dt.day, dt.hour, dt.minute, dt.second]
  }

  /** `datetime.strptime(s, "%Y-%m-%d %H:%M:%S")` on zero-padded fields; `None` where
      Python raises ValueError. */
  function Parse(s: string): (r: Option<DateTime>)
    ensures r.Some? ==> r.value.Valid()
  {
    match Scan(s, Layout)
    case None => None
    case Some(v) =>
      if |v| == 6 && DateTime(v[0], v[1], v[2], v[3], v[4], v[5]).Valid()
      then Some(DateTime(v[0], v[1], v[2], v[3], v[4], v[5]))
      else None
  }

  lemma ValidFits(dt: DateTime)
    requires dt.Valid()
    ensures Fits(Layout, Values(dt))
  {
    var v := Values(dt);
    assert Fits(Layout[10..], v[5..]);
    assert Fits(Layout[9..], v[5..]);
    assert Fits(Layout[8..], v[4..]);
    assert Fits(Layout[7..], v[4..]);
    assert Fits(Layout[6..], v[3..]);
    assert Fits(Layout[5..], v[3..]);
    assert Fits(Layout[4..], v[2..]);
    assert Fits(Layout[3..], v[2..]);
    assert Fits(Layout[2..], v[1..]);
    assert Fits(Layout[1..], v[1..]);
  }

  /** `dt.strftime("%Y-%m-%d %H:%M:%S")`. */
  function Format(dt: DateTime): string
  {
    ZeroPad(dt.year, 4) + ("-" + (Pad2(dt.month) + ("-" + (Pad2(dt.day) + TimeOfDay(dt)))))
  }

  /** `strftime(" %H:%M:%S")`: the part of `Format` after the date. */
  function TimeOfDay(dt: DateTime): string
  {
    " " + (Pad2(dt.hour) + (":" + (Pad2(dt.minute) + (":" + Pad2(dt.second)))))
  }

  /** The time of day as the layout writes it after the date. */
  lemma RenderTime(dt: DateTime)
    ensures Render(Layout[5..], Values(dt)[3..]) == TimeOfDay(dt)
  {
    var v := Values(dt);
    var s5 := Pad2(dt.second);
    assert Render(Layout[10..], v[5..]) == s5;
    var s4 := Pad2(dt.minute) + (":" + s5);
    assert Render(Layout[9..], v[5..]) == ":" + s5;
    assert Render(Layout[8..], v[4..]) == s4;
    assert Render(Layout[7..], v[4..]) == ":" + s4;
  }

  /** `strftime` writes the fields in the order and widths of the layout. */
  lemma FormatRenders(dt: DateTime)
    ensures Format(dt) == Render(Layout, Values(dt))
  {
    var v := Values(dt);
    RenderTime(dt);
    var s2 := Pad2(dt.day) + TimeOfDay(dt);
    assert Render(Layout[4..], v[2..]) == s2;
    var s1 := Pad2(dt.month) + ("-" + s2);
    assert Render(Layout[3..], v[2..]) == "-" + s2;
    assert Render(Layout[2..], v[1..]) == s1;
    assert Render(Layout[1..], v[1..]) == "-" + s1;
  }

  /** What `strftime` writes, `strptime` reads back as the same date and time. */
  lemma ParseFormat(dt: DateTime)
    requires dt.Valid()
    ensures Parse(Format(dt)) == Some(dt)
  {
    ValidFits(dt);
    ScanRender(Layout, Values(dt));
    FormatRenders(dt);
  }
}
