/** The reference-table generator of generator.py: for every UCY year from 0
    on, every week slot and every weekday, one row giving the day's index
    since the datum, its TT bounds and its start and end codes in the UCY
    wire format. The table is returned as a sequence of lines instead of
    being written to a file. */
module Generator {
  import opened RealMath
  import opened Octal
  import opened UcyFormat
  import Ucy

  const EPSILON: real := 0.000000001

  /** One data row of the table, without its two UTC renderings. */
  datatype Row = Row(
    dayIndex: int,
    startTt: real,
    endTt: real,
    year: int,
    week: int,
    day: int,
    startNano: int,
    endNano: int,
    startUcy: string,
    endUcy: string)

  /** The column header line, or one day's row. */
  datatype Line = Header | DayRow(row: Row)

  // ---------------------------------------------------------------------
  // The table as a function of the ephemeris
  // ---------------------------------------------------------------------

  /** The length in days of year `year`, as the classifier gives it. */
  function YearSize(eq: Ucy.Ephemeris, year: int): int {
    Ucy.ClassifyEphemeris(eq, year).size
  }

  /** The number of days in years 0 .. n-1. */
  function DaysBefore(eq: Ucy.Ephemeris, n: nat): int {
    if n == 0 then 0 else DaysBefore(eq, n - 1) + YearSize(eq, n - 1)
  }

  /** `day_in_year`: the position of (week, day) within its year; a short
      year numbers its weeks from 1. */
  function DayInYear(isShort: bool, week: int, day: int): int {
    if isShort then (week - 1) * 8 + day else week * 8 + day
  }

  /** The row the innermost loop body builds for one (year, week, day). */
  function MakeRow(datum: real, year: int, isShort: bool, yearStartDay: int, week: int, day: int): Row {
    var dayInYear := DayInYear(isShort, week, day);
    var dayBoundary := yearStartDay + dayInYear;
    var startNano := 0;
    var endNano := Ucy.DAY_NS - 1;
    Row(
      dayIndex := yearStartDay + dayInYear,
      startTt := datum + dayBoundary as real,
      endTt := datum + dayBoundary as real + 1.0 - EPSILON,
      year := year,
      week := week,
      day := day,
      startNano := 0,
      endNano := endNano,
      startUcy := Render(Fields(year, week, day, Ucy.FracCode(startNano))),
      endUcy := Render(Fields(year, week, day, Ucy.FracCode(endNano))))
  }

  /** The week number of the k-th day of a year: weeks 0..45 of a long year,
      1..45 of a short one. */
  function WeekOfDay(isShort: bool, k: int): int {
    k / 8 + (if isShort then 1 else 0)
  }

  /** The rows of one year in the order the loops emit them: for each day
      of the year, the row of its week slot. */
  function YearLines(eq: Ucy.Ephemeris, year: int, yearStartDay: int): (lines: seq<Line>)
    ensures |lines| == YearSize(eq, year)
  {
    var isShort := Ucy.ClassifyEphemeris(eq, year).isShort;
    seq(YearSize(eq, year), k requires 0 <= k =>
      DayRow(MakeRow(eq(0), year, isShort, yearStartDay, WeekOfDay(isShort, k), k % 8)))
  }

  /** A year contributes each of its days exactly once, in order: its k-th
      row is day k of the year (`dayIndex` runs up by one from the year's
      first day), with the week and weekday in range. */
  lemma YearLinesLayout(eq: Ucy.Ephemeris, year: int, yearStartDay: int)
    ensures var lines := YearLines(eq, year, yearStartDay);
      && RowsNumbered(lines, yearStartDay)
      && forall k :: 0 <= k < |lines| ==>
        && lines[k].row.year == year
        && (if YearSize(eq, year) == 360 then 1 else 0) <= lines[k].row.week <= 45
        && 0 <= lines[k].row.day < 8
  {
    YearSlots(Ucy.ClassifyEphemeris(eq, year).isShort);
  }

  /** Every line is a row, and the rows are days `from`, `from + 1`, ... */
  predicate RowsNumbered(lines: seq<Line>, from: int) {
    forall i :: 0 <= i < |lines| ==> lines[i].DayRow? && lines[i].row.dayIndex == from + i
  }

  lemma NumberedConcat(a: seq<Line>, b: seq<Line>, from: int)
    requires RowsNumbered(a, from) && RowsNumbered(b, from + |a|)
    ensures RowsNumbered(a + b, from)
  {
    forall i | 0 <= i < |a + b|
      ensures (a + b)[i].DayRow? && (a + b)[i].row.dayIndex == from + i
    {
      if i < |a| {
        assert (a + b)[i] == a[i];
      } else {
        assert (a + b)[i] == b[i - |a|];
      }
    }
  }

  /** The k-th day of a year sits in week `WeekOfDay(k)`, weekday `k % 8`,
      and that slot is day k again. */
  lemma YearSlots(isShort: bool)
    ensures forall k :: 0 <= k < (if isShort then 360 else 368) ==>
      && DayInYear(isShort, WeekOfDay(isShort, k), k % 8) == k
      && (if isShort then 1 else 0) <= WeekOfDay(isShort, k) <= 45
  {
    forall k | 0 <= k < (if isShort then 360 else 368)
      ensures DayInYear(isShort, WeekOfDay(isShort, k), k % 8) == k
      ensures (if isShort then 1 else 0) <= WeekOfDay(isShort, k) <= 45
    {
      assert k == (k / 8) * 8 + k % 8;
    }
  }

  /** Every week slot the loops visit names a day of the year, and the
      slot is recovered from that day. */
  lemma SlotIndex(isShort: bool, week: int, day: int)
    requires (if isShort then 1 else 0) <= week <= 45 && 0 <= day < 8
    ensures var k := DayInYear(isShort, week, day);
      && 0 <= k < (if isShort then 360 else 368)
      && WeekOfDay(isShort, k) == week && k % 8 == day
  {
    var k := DayInYear(isShort, week, day);
    var w := if isShort then week - 1 else week;
    assert k == w * 8 + day;
    assert k / 8 == w && k % 8 == day;
  }

  /** The row the loops build for a week slot is the year's row at that
      slot's day. */
  lemma YearLinesAt(eq: Ucy.Ephemeris, year: int, yearStartDay: int, week: int, day: int)
    requires var first := if Ucy.ClassifyEphemeris(eq, year).isShort then 1 else 0;
      first <= week <= 45 && 0 <= day < 8
    ensures var isShort := Ucy.ClassifyEphemeris(eq, year).isShort;
      var k := DayInYear(isShort, week, day);
      && 0 <= k < |YearLines(eq, year, yearStartDay)|
      && YearLines(eq, year, yearStartDay)[k] == DayRow(MakeRow(eq(0), year, isShort, yearStartDay, week, day))
  {
    SlotIndex(Ucy.ClassifyEphemeris(eq, year).isShort, week, day);
  }

  lemma AppendStep<T>(done: seq<T>, s: seq<T>, k: int)
    requires 0 <= k < |s|
    ensures done + s[..k + 1] == (done + s[..k]) + [s[k]]
  {
    assert s[..k + 1] == s[..k] + [s[k]];
  }

  /** The header line followed by the rows of years 0 .. n-1. */
  function Table(eq: Ucy.Ephemeris, n: nat): seq<Line> {
    if n == 0 then [Header] else Table(eq, n - 1) + YearLines(eq, n - 1, DaysBefore(eq, n - 1))
  }

  /** Generating year n appends that year's 360 or 368 rows to the table
      and its length to the running day count. */
  lemma TableStep(eq: Ucy.Ephemeris, n: nat)
    ensures var year := YearLines(eq, n, DaysBefore(eq, n));
      && Table(eq, n + 1) == Table(eq, n) + year
      && |year| == (if Ucy.ClassifyEphemeris(eq, n).isShort then 360 else 368)
      && DaysBefore(eq, n + 1) == DaysBefore(eq, n) + |year|
  {
  }

  /** `range(0, num_years)` is empty for a negative count. */
  function YearCount(numYears: int): nat {
    if numYears < 0 then 0 else numYears
  }

  // ---------------------------------------------------------------------
  // Properties of the table
  // ---------------------------------------------------------------------

  /** The table is one header line followed by one row per day, in day
      order: line i is the row of day i - 1, and there are exactly as many
      rows as days in the years generated. */
  lemma {:induction false} TableLayout(eq: Ucy.Ephemeris, n: nat)
    ensures |Table(eq, n)| == 1 + DaysBefore(eq, n)
    ensures Table(eq, n)[0] == Header
    ensures RowsNumbered(Table(eq, n)[1..], 0)
  {
    if n > 0 {
      TableLayout(eq, n - 1);
      var prev := Table(eq, n - 1);
      var ys := DaysBefore(eq, n - 1);
      var year := YearLines(eq, n - 1, ys);
      YearLinesLayout(eq, n - 1, ys);
      assert Table(eq, n)[1..] == prev[1..] + year;
      NumberedConcat(prev[1..], year, 0);
    }
  }

  /** Every year is a whole number of 8-day weeks, 360 or 368 days, so each
      year of the table starts on weekday 0 of the continuous cycle. */
  lemma {:induction false} DaysBeforeOnGrid(eq: Ucy.Ephemeris, n: nat)
    ensures DaysBefore(eq, n) % 8 == 0
    ensures 360 * n <= DaysBefore(eq, n) <= 368 * n
  {
    if n > 0 {
      DaysBeforeOnGrid(eq, n - 1);
      GridStep(DaysBefore(eq, n - 1), YearSize(eq, n - 1) / 8, 0);
    }
  }

  /** A multiple of 8 plus w whole weeks and d < 8 days leaves remainder d. */
  lemma GridStep(a: int, w: int, d: int)
    requires a % 8 == 0 && 0 <= d < 8
    ensures (a + 8 * w + d) % 8 == d
  {
    assert a == 8 * (a / 8);
    assert a + 8 * w + d == 8 * (a / 8 + w) + d;
  }

  /** The fraction codes of a day's first and last nanosecond render as
      `0000` and `7777`. */
  lemma OctalFourSevens()
    ensures Format(4095, 4) == "7777" && Format(0, 4) == "0000"
  {
    assert ToOctal(7) == "7";
    assert ToOctal(63) == ToOctal(7) + "7";
    assert ToOctal(511) == ToOctal(63) + "7";
    assert ToOctal(4095) == ToOctal(511) + "7";
    assert ToOctal(0) == "0";
    assert ZeroPad("0", 4) == Zeros(3) + "0";
  }

  /** A row's two codes name the same year, week and weekday: they agree
      up to the four fraction digits, which are `0000` for the first
      nanosecond of the day and `7777` for the last, and each parses back
      to the row's fields. */
  lemma RowCodes(datum: real, year: int, isShort: bool, yearStartDay: int, week: int, day: int)
    requires 0 <= week && 0 <= day
    ensures var r := MakeRow(datum, year, isShort, yearStartDay, week, day);
      && |r.startUcy| == |r.endUcy| >= 5
      && r.startUcy[..|r.startUcy| - 4] == r.endUcy[..|r.endUcy| - 4]
      && r.startUcy[|r.startUcy| - 4..] == "0000"
      && r.endUcy[|r.endUcy| - 4..] == "7777"
      && Parse(r.startUcy) == Some(Fields(year, week, day, 0))
      && Parse(r.endUcy) == Some(Fields(year, week, day, Ucy.FRAC_STEPS - 1))
  {
    var r := MakeRow(datum, year, isShort, yearStartDay, week, day);
    var first, last := Fields(year, week, day, 0), Fields(year, week, day, 4095);
    assert Ucy.FracCode(0) == 0 && Ucy.FracCode(Ucy.DAY_NS - 1) == 4095;
    RenderNonNegative(first);
    RenderNonNegative(last);
    OctalFourSevens();
    var prefix := ReplaceMinus(Format(year, 0)) + "_" + Format(week, 2) + "_" + Format(day, 0) + ".";
    assert r.startUcy == prefix + "0000";
    assert r.endUcy == prefix + "7777";
    ParseRender(first);
    ParseRender(last);
  }

  /** A row covers one day less EPSILON (a billionth of a day), starting a
      whole number of days (its index) after the datum; when its year
      starts on a week boundary of the datum's cycle, that start instant is
      the row's weekday at nanosecond 0 in `to_parts`' terms. */
  lemma RowInstants(datum: real, year: int, isShort: bool, yearStartDay: int, week: int, day: int)
    requires (if isShort then 1 else 0) <= week <= 45 && 0 <= day < 8
    ensures var r := MakeRow(datum, year, isShort, yearStartDay, week, day);
      && r.startTt == datum + r.dayIndex as real
      && r.endTt - r.startTt == 1.0 - EPSILON
    ensures var r := MakeRow(datum, year, isShort, yearStartDay, week, day);
      yearStartDay % 8 == 0 ==>
        Ucy.DayOfWeek(r.startTt - datum) == r.day && Ucy.NanoOfDay(r.startTt - datum) == r.startNano
  {
    var r := MakeRow(datum, year, isShort, yearStartDay, week, day);
    if yearStartDay % 8 == 0 {
      var slot := if isShort then week - 1 else week;
      GridStep(yearStartDay, slot, day);
      assert r.dayIndex == yearStartDay + 8 * slot + day;
      assert r.startTt - datum == r.dayIndex as real;
      Ucy.WholeDays(r.dayIndex);
    }
  }

  /** A row starts at the weekday it is labelled with and at its
      labelled nanosecond, on the continuous cycle `to_parts` reads. */
  predicate StartsOnCycle(datum: real, line: Line) {
    line.DayRow? ==>
      Ucy.DayOfWeek(line.row.startTt - datum) == line.row.day
      && Ucy.NanoOfDay(line.row.startTt - datum) == line.row.startNano
  }

  lemma YearOnCycle(eq: Ucy.Ephemeris, n: nat)
    ensures AllOnCycle(eq(0), YearLines(eq, n, DaysBefore(eq, n)))
  {
    var ys := DaysBefore(eq, n);
    var year := YearLines(eq, n, ys);
    var isShort := Ucy.ClassifyEphemeris(eq, n).isShort;
    DaysBeforeOnGrid(eq, n);
    YearSlots(isShort);
    forall k | 0 <= k < |year| ensures StartsOnCycle(eq(0), year[k]) {
      var w := WeekOfDay(isShort, k);
      assert year[k] == DayRow(MakeRow(eq(0), n, isShort, ys, w, k % 8));
      RowInstants(eq(0), n, isShort, ys, w, k % 8);
    }
  }

  predicate AllOnCycle(datum: real, lines: seq<Line>) {
    forall i :: 0 <= i < |lines| ==> StartsOnCycle(datum, lines[i])
  }

  lemma OnCycleConcat(datum: real, a: seq<Line>, b: seq<Line>)
    requires AllOnCycle(datum, a) && AllOnCycle(datum, b)
    ensures AllOnCycle(datum, a + b)
  {
    forall i | 0 <= i < |a + b| ensures StartsOnCycle(datum, (a + b)[i]) {
      if i < |a| {
        assert (a + b)[i] == a[i];
      } else {
        assert (a + b)[i] == b[i - |a|];
      }
    }
  }

  /** Every row of the table starts at the weekday it is labelled with and
      at nanosecond 0 of the continuous cycle that `to_parts` reads. */
  lemma {:induction false} TableOnCycle(eq: Ucy.Ephemeris, n: nat)
    ensures AllOnCycle(eq(0), Table(eq, n))
  {
    if n > 0 {
      TableOnCycle(eq, n - 1);
      YearOnCycle(eq, n - 1);
      OnCycleConcat(eq(0), Table(eq, n - 1), YearLines(eq, n - 1, DaysBefore(eq, n - 1)));
    }
  }

  /** When years 0 .. n are regular and none has its equinox halfway
      between week boundaries, the classifier's start of year n is the
      datum plus the day count the generator keeps in `year_start_day`. */
  lemma {:induction false} TableMatchesClassifier(eq: Ucy.Ephemeris, n: nat)
    requires forall z :: 0 <= z <= n ==> Ucy.Regular(eq, z) && !Ucy.Halfway(eq, z)
    ensures Ucy.IsShortYear(eq, n).startTt == eq(0) + DaysBefore(eq, n) as real
  {
    if n == 0 {
      Ucy.YearBoundaries(eq, 0);
      RealModUnique(0.0, Ucy.WEEK_DAYS, 0, 0.0);
      assert Ucy.NearestBoundary(eq(0), eq(0)) == eq(0);
    } else {
      TableMatchesClassifier(eq, n - 1);
      Ucy.YearsTile(eq, n - 1);
    }
  }

  /** Without the no-tie condition the day count and the classifier part
      ways: in `Ucy.TieEphemeris` the generator starts year 2 on day 736,
      where year 1 ends, while the classifier starts it on day 728; the
      count meets the classifier again at year 3, day 1096. */
  lemma TieTable()
    ensures DaysBefore(Ucy.TieEphemeris(), 2) == 736
    ensures Ucy.IsShortYear(Ucy.TieEphemeris(), 2).startTt == 728.0
    ensures DaysBefore(Ucy.TieEphemeris(), 3) == 1096
    ensures Ucy.IsShortYear(Ucy.TieEphemeris(), 3).startTt == 1096.0
  {
    var eq := Ucy.TieEphemeris();
    Ucy.TieExample();
    Ucy.TieGap();
    assert eq(0) == 0.0 && eq(1) == 366.0;
    RealModUnique(366.0, Ucy.WEEK_DAYS, 45, 6.0);
    assert YearSize(eq, 0) == 368;
  }

  /** The table agrees with `to_parts`: when years -1 .. y+1 are regular
      with no halfway tie, and the mean-year guess for a row's start instant
      is off by at most one year, decomposing that instant gives back the
      row's year, week and weekday at nanosecond 0. */
  lemma RowDecomposes(eq: Ucy.Ephemeris, y: nat, k: int)
    requires forall z :: (if y == 0 then -1 else 0) <= z <= y + 1 ==> Ucy.Regular(eq, z) && !Ucy.Halfway(eq, z)
    requires 0 <= k < YearSize(eq, y)
    requires var r := YearLines(eq, y, DaysBefore(eq, y))[k].row;
      y - 1 <= Trunc((r.startTt - Ucy.Datum(eq)) / Ucy.TROPICAL_YEAR_DAYS) <= y + 1
    ensures var r := YearLines(eq, y, DaysBefore(eq, y))[k].row;
      Ucy.ToParts(eq, r.startTt) == Ucy.Parts(r.year, r.week, r.day, r.startNano)
  {
    var ys := DaysBefore(eq, y);
    var isShort := Ucy.ClassifyEphemeris(eq, y).isShort;
    var r := YearLines(eq, y, ys)[k].row;
    YearSlots(isShort);
    assert r == MakeRow(eq(0), y, isShort, ys, WeekOfDay(isShort, k), k % 8);
    TableMatchesClassifier(eq, y);
    assert Ucy.Regular(eq, y - 1) && !Ucy.Halfway(eq, y - 1);
    assert Ucy.Regular(eq, y + 1) && !Ucy.Halfway(eq, y + 1);
    Ucy.YearDayDecomposes(eq, y, k, r.startTt);
  }

  /** Classifying year n adds years n, n+1 and 0 to the cache: if it held
      `initial` and years 0 .. n before (none when n is 0), it holds
      `initial` and years 0 .. n+1 after. */
  lemma CacheStep(initial: map<int, real>, before: map<int, real>, after: map<int, real>,
                  n: nat, eq: Ucy.Ephemeris)
    requires forall y :: y in before <==> y in initial || (0 < n && 0 <= y <= n)
    requires after == before[n := eq(n)][n + 1 := eq(n + 1)][0 := eq(0)]
    ensures forall y :: y in after <==> y in initial || (0 <= y <= n + 1)
  {
  }

  // ---------------------------------------------------------------------
  // The generator object
  // ---------------------------------------------------------------------

  class UcyGenerator {
    const numYears: int
    /** Stands for the ephemeris search `_get_equinox_by_year` performs on a miss. */
    const ephemeris: Ucy.Ephemeris
    /** `_equinox_cache`: equinox instants already looked up, by year. */
    var equinoxCache: map<int, real>

    /** Every cached instant is the ephemeris value for its year. */
    ghost predicate Valid()
      reads this
    {
      forall y :: y in equinoxCache ==> equinoxCache[y] == ephemeris(y)
    }

    /** The dataclass constructor with `__post_init__`, which empties the cache. */
    constructor (numYears: int, ephemeris: Ucy.Ephemeris)
      ensures this.numYears == numYears && this.ephemeris == ephemeris
      ensures equinoxCache == map[] && Valid()
    {
      this.numYears := numYears;
      this.ephemeris := ephemeris;
      equinoxCache := map[];
    }

    /** `_get_equinox_by_year`: a hit returns the cached instant and leaves
        the cache alone; a miss looks the year up and adds it. */
    method EquinoxByYear(ucyYear: int) returns (e: real)
      requires Valid()
      modifies this
      ensures Valid()
      ensures e == ephemeris(ucyYear)
      ensures ucyYear in old(equinoxCache) ==> e == old(equinoxCache)[ucyYear] && equinoxCache == old(equinoxCache)
      ensures ucyYear !in old(equinoxCache) ==> equinoxCache == old(equinoxCache)[ucyYear := e]
      ensures equinoxCache == old(equinoxCache)[ucyYear := ephemeris(ucyYear)]
    {
      if ucyYear in equinoxCache {
        return equinoxCache[ucyYear];
      }
      e := ephemeris(ucyYear);
      equinoxCache := equinoxCache[ucyYear := e];
    }

    /** `_is_short_year`: the same threshold and phase rule as the
        classifier of ucy.py. */
    method IsShortYear(ucyYear: int) returns (isShort: bool)
      requires Valid()
      modifies this
      ensures Valid()
      ensures equinoxCache == old(equinoxCache)[ucyYear := ephemeris(ucyYear)]
        [ucyYear + 1 := ephemeris(ucyYear + 1)][0 := ephemeris(0)]
      ensures isShort == Ucy.ClassifyEphemeris(ephemeris, ucyYear).isShort
      ensures isShort == Ucy.IsShortYear(ephemeris, ucyYear).isShort
    {
      var yearEquinox := EquinoxByYear(ucyYear);
      var nextEquinox := EquinoxByYear(ucyYear + 1);
      var actualYear := nextEquinox - yearEquinox;
      var threshold := 4.0 - (368.0 - actualYear);
      var datumTt := EquinoxByYear(0);
      var phase := RealMod(nextEquinox - datumTt, Ucy.WEEK_DAYS);
      isShort := threshold <= phase < 4.0;
    }

    /** The body of the innermost loop of `generate`: the row for one
        (year, week, weekday), the datum read through the cache. */
    method BuildRow(ucyYear: int, isShort: bool, yearStartDay: int, ucyWeek: int, ucyDay: int) returns (row: Row)
      requires Valid()
      modifies this
      ensures Valid()
      ensures 0 in old(equinoxCache) ==> equinoxCache == old(equinoxCache)
      ensures 0 !in old(equinoxCache) ==> equinoxCache == old(equinoxCache)[0 := ephemeris(0)]
      ensures row == MakeRow(ephemeris(0), ucyYear, isShort, yearStartDay, ucyWeek, ucyDay)
    {
      var dayInYear := if isShort then (ucyWeek - 1) * 8 + ucyDay else ucyWeek * 8 + ucyDay;
      var datumTt := EquinoxByYear(0);
      var dayBoundary := yearStartDay + dayInYear;
      var startTt := datumTt + dayBoundary as real;
      var endTt := datumTt + dayBoundary as real + 1.0 - EPSILON;
      var startNano := 0;
      var startUcy := Render(Fields(ucyYear, ucyWeek, ucyDay, Ucy.FracCode(startNano)));
      var endNano := Ucy.DAY_NS - 1;
      var endUcy := Render(Fields(ucyYear, ucyWeek, ucyDay, Ucy.FracCode(endNano)));
      row := Row(dayBoundary, startTt, endTt, ucyYear, ucyWeek, ucyDay, 0, endNano, startUcy, endUcy);
    }

    /** The week and weekday loops of `generate` for one year: append the
        year's rows to `lines`. The datum is already cached, so the cache
        stays as it was. */
    method AppendYear(lines: seq<Line>, ucyYear: int, isShort: bool, yearStartDay: int) returns (out: seq<Line>)
      requires Valid() && 0 in equinoxCache
      requires isShort == Ucy.ClassifyEphemeris(ephemeris, ucyYear).isShort
      modifies this
      ensures Valid() && equinoxCache == old(equinoxCache)
      ensures out == lines + YearLines(ephemeris, ucyYear, yearStartDay)
    {
      out := lines;
      ghost var year := YearLines(ephemeris, ucyYear, yearStartDay);
      ghost var first := if isShort then 1 else 0;
      var ucyWeek := 0;
      while ucyWeek < 46
        invariant Valid() && equinoxCache == old(equinoxCache)
        invariant 0 <= ucyWeek <= 46
        invariant out == lines + year[..if ucyWeek < first then 0 else DayInYear(isShort, ucyWeek, 0)]
      {
        if !(isShort && ucyWeek == 0) {
          var ucyDay := 0;
          while ucyDay < 8
            invariant Valid() && equinoxCache == old(equinoxCache)
            invariant 0 <= ucyDay <= 8
            invariant out == lines + year[..DayInYear(isShort, ucyWeek, ucyDay)]
          {
            var dayInYear := if isShort then (ucyWeek - 1) * 8 + ucyDay else ucyWeek * 8 + ucyDay;
            var row := BuildRow(ucyYear, isShort, yearStartDay, ucyWeek, ucyDay);
            YearLinesAt(ephemeris, ucyYear, yearStartDay, ucyWeek, ucyDay);
            AppendStep(lines, year, dayInYear);
            out := out + [DayRow(row)];
            ucyDay := ucyDay + 1;
          }
        }
        ucyWeek := ucyWeek + 1;
      }
      assert DayInYear(isShort, ucyWeek, 0) == |year|;
      assert year[..|year|] == year;
    }

    /** `generate`, returning the lines and the final `year_start_day`
        instead of writing a file: the header, then every day of years
        0 .. num_years-1. Afterwards the cache holds what it held before
        and, when a year was generated, every year 0 .. num_years that the
        classification looked up; every entry is the ephemeris value. */
    method Generate() returns (lines: seq<Line>, yearStartDay: int)
      requires Valid()
      modifies this
      ensures Valid()
      ensures forall y :: y in equinoxCache <==> y in old(equinoxCache) || (0 < numYears && 0 <= y <= numYears)
      ensures lines == Table(ephemeris, YearCount(numYears))
      ensures yearStartDay == DaysBefore(ephemeris, YearCount(numYears))
    {
      lines := [Header];
      yearStartDay := 0;
      var ucyYear := 0;
      while ucyYear < numYears
        invariant Valid()
        invariant forall y :: y in equinoxCache <==> y in old(equinoxCache) || (0 < ucyYear && 0 <= y <= ucyYear)
        invariant 0 <= ucyYear <= YearCount(numYears)
        invariant yearStartDay == DaysBefore(ephemeris, ucyYear)
        invariant lines == Table(ephemeris, ucyYear)
      {
        ghost var before := equinoxCache;
        var isShort := IsShortYear(ucyYear);
        CacheStep(old(equinoxCache), before, equinoxCache, ucyYear, ephemeris);
        var yearSize := if isShort then 360 else 368;
        lines := AppendYear(lines, ucyYear, isShort, yearStartDay);
        TableStep(ephemeris, ucyYear);
        yearStartDay := yearStartDay + yearSize;
        ucyYear := ucyYear + 1;
      }
      assert ucyYear == YearCount(numYears);
    }
  }
}
