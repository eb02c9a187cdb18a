/** The UCY calendar of ucy.py: years anchored to the spring equinox, made of
    8-day weeks, 360 days long ("short") or 368 days long ("long"), and the
    conversion of a Terrestrial Time instant (a Julian Date) to and from the
    `Y_WW_D.FFFF` string.

    Instants are exact reals. The ephemeris that finds each year's equinox is
    a parameter: `eq(y)` is the equinox instant of UCY year `y`, and the datum
    (`DATUM_TT`) is `eq(0)`. */
module Ucy {
  import opened RealMath
  import opened UcyFormat

  /** The spring-equinox instant (TT, Julian days) of every UCY year. */
  type Ephemeris = int -> real

  const FAST_MODE := false
  const FAST_MIN_YEAR := 1843
  const FAST_MAX_YEAR := 2243
  const TROPICAL_YEAR_DAYS: real := 365.24224853515625
  const DAY_NS := 86_400_000_000_000
  const WEEK_DAYS: real := 8.0
  /** 8 ** 4: the number of steps of the four-digit fraction of a day. */
  const FRAC_STEPS := 4096

  /** DATUM_TT: the equinox of year 0, origin of every count. */
  function Datum(eq: Ephemeris): real {
    eq(0)
  }

  /** What `is_short_year` returns for a year. */
  datatype YearInfo = YearInfo(isShort: bool, startTt: real, size: int)

  // ---------------------------------------------------------------------
  // Year classifier
  // ---------------------------------------------------------------------

  /** Where the next equinox falls in the 8-day cycle counted from the datum. */
  function Phase(datum: real, nextEquinox: real): (p: real)
    ensures 0.0 <= p < WEEK_DAYS
  {
    RealMod(nextEquinox - datum, WEEK_DAYS)
  }

  /** The part of `is_short_year` both of its branches share: the year is
      short when the next equinox's phase lies in [threshold, 4), and the year
      starts a whole number of weeks before that equinox's week boundary. */
  function ClassifyFrom(datum: real, nextEquinox: real, threshold: real): (info: YearInfo)
    ensures info.size == (if info.isShort then 360 else 368)
    ensures info.isShort <==> threshold <= Phase(datum, nextEquinox) < 4.0
    ensures OnGrid(info.startTt - datum, WEEK_DAYS)
    ensures nextEquinox - 376.0 < info.startTt <= nextEquinox - 360.0
  {
    var phase := Phase(datum, nextEquinox);
    var isShort := threshold <= phase < 4.0;
    var yearSize := if isShort then 360 else 368;
    var offset := if phase > threshold then 360 else 368;
    var yearStartTt := nextEquinox - phase - offset as real;
    RealModQuotient(nextEquinox - datum, WEEK_DAYS);
    var q := Floor((nextEquinox - datum) / WEEK_DAYS);
    var weeks := if phase > threshold then 45 else 46;
    assert offset as real == WEEK_DAYS * weeks as real;
    assert nextEquinox - datum - phase == (q as real) * WEEK_DAYS;
    assert yearStartTt - datum == WEEK_DAYS * (q - weeks) as real;
    OnGridIntro(yearStartTt - datum, WEEK_DAYS, q - weeks);
    YearInfo(isShort, yearStartTt, yearSize)
  }

  /** The default branch: the year's actual length, from two equinoxes,
      sets the threshold. */
  function ClassifyEphemeris(eq: Ephemeris, year: int): (info: YearInfo)
    ensures info.size == (if info.isShort then 360 else 368)
    ensures info.isShort <==> 4.0 - (368.0 - (eq(year + 1) - eq(year))) <= Phase(Datum(eq), eq(year + 1)) < 4.0
    ensures OnGrid(info.startTt - Datum(eq), WEEK_DAYS)
    ensures eq(year + 1) - 376.0 < info.startTt <= eq(year + 1) - 360.0
  {
    var yearEquinox := eq(year);
    var nextEquinox := eq(year + 1);
    var actualYear := nextEquinox - yearEquinox;
    var threshold := 4.0 - (368.0 - actualYear);
    ClassifyFrom(Datum(eq), nextEquinox, threshold)
  }

  /** The opt-in fast branch: a mean tropical year stands in for the
      ephemeris, so only the datum is needed. */
  function ClassifyFast(datum: real, year: int): (info: YearInfo)
    ensures info.size == (if info.isShort then 360 else 368)
    ensures OnGrid(info.startTt - datum, WEEK_DAYS)
    ensures var nextEquinox := datum + (year + 1) as real * TROPICAL_YEAR_DAYS;
      nextEquinox - 376.0 < info.startTt <= nextEquinox - 360.0
  {
    var nextEquinox := datum + (year + 1) as real * TROPICAL_YEAR_DAYS;
    var threshold := 4.0 - (368.0 - TROPICAL_YEAR_DAYS);
    ClassifyFrom(datum, nextEquinox, threshold)
  }

  /** `is_short_year`. */
  function IsShortYear(eq: Ephemeris, year: int): (info: YearInfo)
    ensures info.size == (if info.isShort then 360 else 368)
    ensures OnGrid(info.startTt - Datum(eq), WEEK_DAYS)
  {
    if FAST_MODE && FAST_MIN_YEAR <= year <= FAST_MAX_YEAR then ClassifyFast(Datum(eq), year)
    else ClassifyEphemeris(eq, year)
  }

  /** Equinoxes exactly one mean tropical year apart, starting at the datum. */
  function MeanYearEphemeris(datum: real): Ephemeris {
    y => datum + y as real * TROPICAL_YEAR_DAYS
  }

  /** The fast branch is the ephemeris branch run on mean-year equinoxes,
      whose every year is regular in the sense of `Regular` below. */
  lemma FastModeIsMeanYear(datum: real, year: int)
    ensures ClassifyFast(datum, year) == ClassifyEphemeris(MeanYearEphemeris(datum), year)
    ensures Regular(MeanYearEphemeris(datum), year)
  {
    var eq := MeanYearEphemeris(datum);
    assert eq(0) == datum;
    assert eq(year + 1) - eq(year) == TROPICAL_YEAR_DAYS;
  }

  // ---------------------------------------------------------------------
  // How consecutive years fit together
  // ---------------------------------------------------------------------

  /** The week boundary nearest to `e` on the 8-day grid through the datum,
      a point exactly halfway going to the later boundary. */
  function NearestBoundary(datum: real, e: real): (g: real)
    ensures OnGrid(g - datum, WEEK_DAYS)
    ensures e - 4.0 < g <= e + 4.0
  {
    var p := Phase(datum, e);
    RealModQuotient(e - datum, WEEK_DAYS);
    var k := Floor((e - datum) / WEEK_DAYS) + (if p >= 4.0 then 1 else 0);
    OnGridIntro(e - p + (if p >= 4.0 then 8.0 else 0.0) - datum, WEEK_DAYS, k);
    e - p + (if p >= 4.0 then 8.0 else 0.0)
  }

  /** The year's equinox-to-equinox length lies in [364, 368) days, as every
      real tropical year does (about 365.24 days). */
  predicate Regular(eq: Ephemeris, year: int) {
    364.0 <= eq(year + 1) - eq(year) < 368.0
  }

  /** The year's own equinox falls exactly halfway between two week
      boundaries. */
  predicate Halfway(eq: Ephemeris, year: int) {
    Phase(Datum(eq), eq(year)) == 4.0
  }

  /** A regular year ends at the week boundary nearest the next equinox and,
      unless its own equinox is exactly halfway between boundaries, starts
      at the boundary nearest its own equinox. At that halfway tie it is a
      short year that starts 8 days before that boundary, because the offset
      test (`phase > threshold`) is strict where the short-year test
      (`threshold <= phase`) is not. */
  lemma {:induction false} YearBoundaries(eq: Ephemeris, year: int)
    requires Regular(eq, year)
    ensures var info := IsShortYear(eq, year);
      !Halfway(eq, year) ==>
        && info.startTt == NearestBoundary(Datum(eq), eq(year))
        && info.startTt + info.size as real == NearestBoundary(Datum(eq), eq(year + 1))
    ensures var info := IsShortYear(eq, year);
      Halfway(eq, year) ==>
        && info.isShort
        && info.startTt == NearestBoundary(Datum(eq), eq(year)) - WEEK_DAYS
        && info.startTt + info.size as real == NearestBoundary(Datum(eq), eq(year + 1)) - WEEK_DAYS
  {
    var d, e0, e1 := Datum(eq), eq(year), eq(year + 1);
    var info := IsShortYear(eq, year);
    var p := Phase(d, e1);
    var threshold := 4.0 - (368.0 - (e1 - e0));
    var q := Floor((e1 - d) / WEEK_DAYS);
    RealModQuotient(e1 - d, WEEK_DAYS);
    // e1 sits p days after the boundary g; e0 sits (p + 4 - threshold) days
    // after the boundary 368 days before g.
    var g := e1 - p;
    assert g - d == q as real * 8.0;
    var low := g - 368.0;
    assert e0 == low + (p + 4.0 - threshold);
    assert 0.0 <= p + 4.0 - threshold < 12.0;
    var r0 := p + 4.0 - threshold;
    var k0 := if r0 < 8.0 then q - 46 else q - 45;
    var rem0 := if r0 < 8.0 then r0 else r0 - 8.0;
    RealModUnique(e0 - d, WEEK_DAYS, k0, rem0);
    assert Phase(d, e0) == rem0;
    assert Halfway(eq, year) <==> p == threshold;
    var end := NearestBoundary(d, e1);
    assert end == if p >= 4.0 then g + 8.0 else g;
    var start := NearestBoundary(d, e0);
    assert start == if p >= threshold then g - 360.0 else g - 368.0;
  }

  /** Consecutive regular years with no halfway tie fit end to end: each year
      starts exactly where the one before it ends, so year starts strictly
      increase. */
  lemma YearsTile(eq: Ephemeris, year: int)
    requires Regular(eq, year) && Regular(eq, year + 1)
    requires !Halfway(eq, year) && !Halfway(eq, year + 1)
    ensures IsShortYear(eq, year + 1).startTt == IsShortYear(eq, year).startTt + IsShortYear(eq, year).size as real
    ensures IsShortYear(eq, year).startTt < IsShortYear(eq, year + 1).startTt
  {
    YearBoundaries(eq, year);
    YearBoundaries(eq, year + 1);
  }

  /** Two regular years in a row are never both short, a halfway tie
      included: each spans the nearest boundaries of its equinoxes (a tie
      year shifted back by a week), and those equinoxes are at least 728
      days apart, so together the two years cover more than 720 days. */
  lemma NoConsecutiveShortYears(eq: Ephemeris, year: int)
    requires Regular(eq, year) && Regular(eq, year + 1)
    ensures !(IsShortYear(eq, year).isShort && IsShortYear(eq, year + 1).isShort)
  {
    YearBoundaries(eq, year);
    YearBoundaries(eq, year + 1);
    var d := Datum(eq);
    var lo, hi := NearestBoundary(d, eq(year)), NearestBoundary(d, eq(year + 2));
    assert hi - lo > 720.0;
  }

  /** At a halfway tie the year begins 8 days before its predecessor ends:
      the two years overlap by a week. */
  lemma HalfwayYearOverlaps(eq: Ephemeris, year: int)
    requires Regular(eq, year - 1) && !Halfway(eq, year - 1)
    requires Regular(eq, year) && Halfway(eq, year)
    ensures IsShortYear(eq, year).startTt == IsShortYear(eq, year - 1).startTt + IsShortYear(eq, year - 1).size as real - WEEK_DAYS
  {
    YearBoundaries(eq, year - 1);
    YearBoundaries(eq, year);
  }

  /** Equinoxes 366, 366 and then 365 days apart put the equinox of year 2
      exactly halfway between week boundaries. */
  function TieEphemeris(): Ephemeris {
    y => if y <= 2 then 366.0 * y as real else 732.0 + 365.0 * (y - 2) as real
  }

  /** In `TieEphemeris` year 1 is long and ends on day 736, year 2 is short
      and starts on day 728. */
  lemma TieExample()
    ensures IsShortYear(TieEphemeris(), 1) == YearInfo(false, 368.0, 368)
    ensures IsShortYear(TieEphemeris(), 2) == YearInfo(true, 728.0, 360)
  {
    var eq := TieEphemeris();
    assert eq(0) == 0.0 && eq(1) == 366.0 && eq(2) == 732.0 && eq(3) == 1097.0;
    RealModUnique(732.0, WEEK_DAYS, 91, 4.0);
    RealModUnique(1097.0, WEEK_DAYS, 137, 1.0);
  }

  /** The tie also leaves a gap after the short year: in `TieEphemeris` year
      2 ends on day 1088 but year 3 starts on day 1096. No year covers the
      week between, and `to_parts` keeps it in year 2, giving day 360 of a
      360-day year week 45. */
  lemma TieGap()
    ensures IsShortYear(TieEphemeris(), 3) == YearInfo(false, 1096.0, 368)
    ensures var p := ToParts(TieEphemeris(), 1088.0);
      p.year == 2 && p.week == 45
  {
    var eq := TieEphemeris();
    TieExample();
    assert eq(3) == 1097.0 && eq(4) == 1462.0;
    RealModUnique(1462.0, WEEK_DAYS, 182, 6.0);
    assert Trunc(1088.0 / TROPICAL_YEAR_DAYS) == 2;
    assert ChooseYear(eq, 1088.0) == 2;
    assert Floor(360.0 / 8.0) == 45;
  }

  // ---------------------------------------------------------------------
  // Date decomposer
  // ---------------------------------------------------------------------

  /** What `to_parts` returns. */
  datatype Parts = Parts(year: int, week: int, day: int, nano: int)

  /** `math.floor(total_elapsed_days % 8)`: the weekday, counted on one
      continuous 8-day cycle from the datum. */
  function DayOfWeek(elapsed: real): (d: int)
    ensures 0 <= d <= 7
  {
    Floor(RealMod(elapsed, WEEK_DAYS))
  }

  /** `math.floor((total_elapsed_days % 1) * DAY_NS)`: the nanosecond of the day. */
  function NanoOfDay(elapsed: real): (n: int)
    ensures 0 <= n < DAY_NS
  {
    Floor(RealMod(elapsed, 1.0) * DAY_NS as real)
  }

  /** The year guess `int(total_elapsed_days / TROPICAL_YEAR_DAYS)` and its
      one-step correction. */
  function ChooseYear(eq: Ephemeris, t: real): (y: int)
    ensures var guess := Trunc((t - Datum(eq)) / TROPICAL_YEAR_DAYS);
      && guess - 1 <= y <= guess + 1
      && (IsShortYear(eq, guess).startTt <= t < IsShortYear(eq, guess + 1).startTt ==> y == guess)
      && (y == guess + 1 ==> IsShortYear(eq, y).startTt <= t)
      && (y == guess - 1 ==> t < IsShortYear(eq, y + 1).startTt)
  {
    var year := Trunc((t - Datum(eq)) / TROPICAL_YEAR_DAYS);
    if t < IsShortYear(eq, year).startTt then year - 1
    else if t >= IsShortYear(eq, year + 1).startTt then year + 1
    else year
  }

  /** The 2-second guard before day 360 of a long, non-negative year. */
  predicate InGuardWindow(info: YearInfo, year: int, daysIntoYear: real) {
    !info.isShort && year >= 0 && 0.0 < 360.0 - daysIntoYear < 2.0 / 86400.0
  }

  /** The week of `to_parts`: whole weeks since the year's start, shifted by
      one in a short year (which has no week 0), forced to 45 inside the
      guard window and capped at 45. */
  function WeekOf(info: YearInfo, year: int, daysIntoYear: real): (week: int)
    ensures week <= 45
    ensures 0.0 <= daysIntoYear ==> 0 <= week
    ensures 0.0 <= daysIntoYear && info.isShort ==> 1 <= week
    ensures 0.0 <= daysIntoYear && week == 0 ==> !info.isShort && daysIntoYear < WEEK_DAYS
    ensures InGuardWindow(info, year, daysIntoYear) ==> week == 45
    ensures var slot := week - (if info.isShort then 1 else 0);
      0.0 <= daysIntoYear < (if info.isShort then 360.0 else 368.0)
      && !InGuardWindow(info, year, daysIntoYear) ==>
        8.0 * slot as real <= daysIntoYear < 8.0 * slot as real + 8.0
  {
    var week := Floor(daysIntoYear / 8.0);
    var week := if info.isShort && week < 45 then week + 1 else week;
    var week := if InGuardWindow(info, year, daysIntoYear) then 45 else week;
    if week < 45 then week else 45
  }

  /** `to_parts` for an explicit instant. */
  function ToParts(eq: Ephemeris, t: real): (p: Parts)
    ensures p.week <= 45 && 0 <= p.day <= 7 && 0 <= p.nano < DAY_NS
    ensures IsShortYear(eq, p.year).startTt <= t ==> 0 <= p.week
    ensures IsShortYear(eq, p.year).startTt <= t && IsShortYear(eq, p.year).isShort ==> p.week != 0
    ensures p.day == DayOfWeek(t - Datum(eq)) && p.nano == NanoOfDay(t - Datum(eq))
  {
    var totalElapsedDays := t - Datum(eq);
    var year := ChooseYear(eq, t);
    var info := IsShortYear(eq, year);
    var daysIntoYear := t - info.startTt;
    var week := WeekOf(info, year, daysIntoYear);
    Parts(year, week, DayOfWeek(totalElapsedDays), NanoOfDay(totalElapsedDays))
  }

  /** The weekday and nanosecond depend on the elapsed time alone: the
      weekday repeats every 8 days and steps by one (mod 8) each day, the
      nanosecond repeats every day, and both are 0 at the datum. */
  lemma DayAndNanoCycle(elapsed: real)
    ensures DayOfWeek(elapsed + WEEK_DAYS) == DayOfWeek(elapsed)
    ensures DayOfWeek(elapsed + 1.0) == (DayOfWeek(elapsed) + 1) % 8
    ensures NanoOfDay(elapsed + 1.0) == NanoOfDay(elapsed)
    ensures DayOfWeek(0.0) == 0 && NanoOfDay(0.0) == 0
  {
    RealModShift(elapsed, WEEK_DAYS, 1);
    RealModShift(elapsed, 1.0, 1);
    RealModUnique(0.0, WEEK_DAYS, 0, 0.0);
    RealModUnique(0.0, 1.0, 0, 0.0);
    var r := RealMod(elapsed, WEEK_DAYS);
    RealModQuotient(elapsed, WEEK_DAYS);
    var q := Floor(elapsed / WEEK_DAYS);
    if r + 1.0 < WEEK_DAYS {
      RealModUnique(elapsed + 1.0, WEEK_DAYS, q, r + 1.0);
    } else {
      RealModUnique(elapsed + 1.0, WEEK_DAYS, q + 1, r + 1.0 - WEEK_DAYS);
    }
  }

  /** If the classifier lays the years end to end around year `y` and the
      mean-year guess is off by at most one, the one-step correction lands
      on the year that contains `t`. */
  lemma ChooseYearFindsContainingYear(eq: Ephemeris, t: real, y: int)
    requires IsShortYear(eq, y - 1).startTt <= IsShortYear(eq, y).startTt
    requires IsShortYear(eq, y).startTt <= t < IsShortYear(eq, y + 1).startTt
    requires y - 1 <= Trunc((t - Datum(eq)) / TROPICAL_YEAR_DAYS) <= y + 1
    ensures ChooseYear(eq, t) == y
  {
    var guess := Trunc((t - Datum(eq)) / TROPICAL_YEAR_DAYS);
    if guess == y - 1 {
      assert IsShortYear(eq, guess + 1).startTt <= t;
    } else if guess == y + 1 {
      assert t < IsShortYear(eq, guess).startTt;
    }
  }

  /** The start of the k-th day of a year lies on the weekday k % 8 of the
      continuous cycle, at nanosecond 0, because every year starts on a
      week boundary of the datum's cycle. */
  lemma DayStartOnCycle(eq: Ephemeris, year: int, k: int)
    requires 0 <= k
    ensures var t := IsShortYear(eq, year).startTt + k as real;
      DayOfWeek(t - Datum(eq)) == k % 8 && NanoOfDay(t - Datum(eq)) == 0
  {
    var start := IsShortYear(eq, year).startTt;
    assert k == 8 * (k / 8) + k % 8;
    assert start + k as real == start + 8.0 * (k / 8) as real + (k % 8) as real;
    WithinWeek(eq, year, k / 8, (k % 8) as real);
    DayAndNanoCycle(0.0);
  }

  /** The start of the k-th day of a year whose neighbours lay end to end
      with it decomposes to that year, week k / 8 (one more in a short
      year), weekday k % 8 and nanosecond 0, when the mean-year guess is
      off by at most one year. */
  lemma YearDayDecomposes(eq: Ephemeris, year: int, k: int, t: real)
    requires Regular(eq, year - 1) && Regular(eq, year) && Regular(eq, year + 1)
    requires !Halfway(eq, year - 1) && !Halfway(eq, year) && !Halfway(eq, year + 1)
    requires 0 <= k < IsShortYear(eq, year).size
    requires t == IsShortYear(eq, year).startTt + k as real
    requires year - 1 <= Trunc((t - Datum(eq)) / TROPICAL_YEAR_DAYS) <= year + 1
    ensures ToParts(eq, t) == Parts(year, k / 8 + (if IsShortYear(eq, year).isShort then 1 else 0), k % 8, 0)
  {
    var info := IsShortYear(eq, year);
    ChoosesTiledYear(eq, year, t);
    DayStartOnCycle(eq, year, k);
    WeekOfWholeDay(info, year, k);
  }

  /** Inside a year of a tiled run, the corrected guess is that year. */
  lemma ChoosesTiledYear(eq: Ephemeris, year: int, t: real)
    requires Regular(eq, year - 1) && Regular(eq, year) && Regular(eq, year + 1)
    requires !Halfway(eq, year - 1) && !Halfway(eq, year) && !Halfway(eq, year + 1)
    requires IsShortYear(eq, year).startTt <= t < IsShortYear(eq, year).startTt + IsShortYear(eq, year).size as real
    requires year - 1 <= Trunc((t - Datum(eq)) / TROPICAL_YEAR_DAYS) <= year + 1
    ensures ChooseYear(eq, t) == year
  {
    YearsTile(eq, year - 1);
    YearsTile(eq, year);
    ChooseYearFindsContainingYear(eq, t, year);
  }

  /** Whole day k of a year is in week k / 8, one more in a short year;
      the guard window never holds a whole day. */
  lemma WeekOfWholeDay(info: YearInfo, year: int, k: int)
    requires 0 <= k < (if info.isShort then 360 else 368)
    ensures WeekOf(info, year, k as real) == k / 8 + (if info.isShort then 1 else 0)
  {
    assert !InGuardWindow(info, year, k as real);
    var slot := WeekOf(info, year, k as real) - (if info.isShort then 1 else 0);
    assert 8.0 * slot as real <= k as real < 8.0 * slot as real + 8.0;
    assert 8 * slot <= k < 8 * slot + 8;
  }

  /** A whole number of days after the datum is weekday n mod 8 at
      nanosecond 0. */
  lemma WholeDays(n: int)
    ensures DayOfWeek(n as real) == n % 8 && NanoOfDay(n as real) == 0
  {
    RealModUnique(n as real, WEEK_DAYS, n / 8, (n % 8) as real);
    RealModUnique(n as real, 1.0, n, 0.0);
  }

  /** The datum itself is year 0, weekday 0, nanosecond 0, in week 1 of a
      short year 0 and week 0 of a long one. */
  lemma DatumDecomposes(eq: Ephemeris)
    requires Regular(eq, 0) && Regular(eq, 1)
    ensures ToParts(eq, Datum(eq)) == Parts(0, if IsShortYear(eq, 0).isShort then 1 else 0, 0, 0)
  {
    var d := Datum(eq);
    RealModUnique(0.0, WEEK_DAYS, 0, 0.0);
    assert !Halfway(eq, 0);
    YearBoundaries(eq, 1);
    YearBoundaries(eq, 0);
    RealModUnique(0.0, WEEK_DAYS, 0, 0.0);
    assert NearestBoundary(d, d) == d;
    assert Trunc((d - d) / TROPICAL_YEAR_DAYS) == 0;
    DayAndNanoCycle(0.0);
  }

  // ---------------------------------------------------------------------
  // Encoder and decoder
  // ---------------------------------------------------------------------

  /** `(nano * 8**4) // DAY_NS`: the four-octal-digit fraction of the day. */
  function FracCode(nano: int): (frac: int)
    ensures 0 <= nano < DAY_NS ==> 0 <= frac < FRAC_STEPS
  {
    nano * FRAC_STEPS / DAY_NS
  }

  /** `to_ucy`. */
  function ToUcy(eq: Ephemeris, t: real): string {
    var p := ToParts(eq, t);
    Render(Fields(p.year, p.week, p.day, FracCode(p.nano)))
  }

  /** Lines 91-95 of `to_utc`: the instant a parsed date denotes. The week
      slot is `week - 1` in a short year; the weekday is matched against the
      continuous cycle of `DayOfWeek`. */
  function InstantOf(eq: Ephemeris, f: Fields): real {
    var info := IsShortYear(eq, f.year);
    var weekIndex := WeekIndex(info, f.week);
    var baseDays := (info.startTt - Datum(eq)) + (weekIndex * 8) as real;
    var dayOffset := RealMod(f.day as real - RealMod(baseDays, WEEK_DAYS), WEEK_DAYS);
    var totalDays := baseDays + dayOffset + f.frac as real / FRAC_STEPS as real;
    Datum(eq) + totalDays
  }

  /** The week slot a week number names: week - 1 in a short year, which
      has no week 0. */
  function WeekIndex(info: YearInfo, week: int): int {
    if info.isShort && week > 0 then week - 1 else week
  }

  /** `to_utc` up to the TT instant, which the source then hands to a UTC
      formatter; strings that do not parse give `None`. */
  function FromUcy(eq: Ephemeris, s: string): Option<real> {
    match Parse(s)
    case None => None
    case Some(f) => Some(InstantOf(eq, f))
  }

  /** In the uncovered week after the tie year of `TieEphemeris` the round
      trip fails: day 1090 is labelled year 2, week 45, weekday 2, and that
      label decodes to day 1082, 8 days earlier. */
  lemma TieRoundTripGap()
    ensures ToParts(TieEphemeris(), 1090.0) == Parts(2, 45, 2, 0)
    ensures FromUcy(TieEphemeris(), ToUcy(TieEphemeris(), 1090.0)) == Some(1082.0)
  {
    var f := Fields(2, 45, 2, 0);
    TieGapLabel();
    assert FracCode(0) == 0;
    assert ToUcy(TieEphemeris(), 1090.0) == Render(f);
    ParseRender(f);
    TieGapDecode();
  }

  /** `to_parts` keeps day 1090 of `TieEphemeris` in year 2, week 45. */
  lemma TieGapLabel()
    ensures ToParts(TieEphemeris(), 1090.0) == Parts(2, 45, 2, 0)
  {
    var eq := TieEphemeris();
    TieExample();
    TieGap();
    assert Trunc(1090.0 / TROPICAL_YEAR_DAYS) == 2;
    assert ChooseYear(eq, 1090.0) == 2;
    assert Floor(362.0 / 8.0) == 45;
    RealModUnique(1090.0, WEEK_DAYS, 136, 2.0);
    RealModUnique(1090.0, 1.0, 1090, 0.0);
  }

  /** Year 2, week 45, weekday 2 of `TieEphemeris` decodes to day 1082. */
  lemma TieGapDecode()
    ensures InstantOf(TieEphemeris(), Fields(2, 45, 2, 0)) == 1082.0
  {
    TieExample();
    RealModUnique(1080.0, WEEK_DAYS, 135, 0.0);
    RealModUnique(2.0, WEEK_DAYS, 0, 2.0);
  }

  /** With equinoxes exactly one mean tropical year apart from day 0, years
      -18 .. -16 are regular and untied: year -18 is long from day -6576,
      year -17 long from day -6208 and year -16 short from day -5840. */
  lemma NegativeYearsExample()
    ensures var eq := MeanYearEphemeris(0.0);
      forall y :: -18 <= y <= -16 ==> Regular(eq, y) && !Halfway(eq, y)
    ensures IsShortYear(MeanYearEphemeris(0.0), -18) == YearInfo(false, -6576.0, 368)
    ensures IsShortYear(MeanYearEphemeris(0.0), -17) == YearInfo(false, -6208.0, 368)
    ensures IsShortYear(MeanYearEphemeris(0.0), -16) == YearInfo(true, -5840.0, 360)
  {
    var eq := MeanYearEphemeris(0.0);
    assert eq(-18) == -6574.3604736328125 && eq(-17) == -6209.11822509765625;
    assert eq(-16) == -5843.8759765625 && eq(-15) == -5478.63372802734375;
    RealModUnique(eq(-18), WEEK_DAYS, -822, 1.6395263671875);
    RealModUnique(eq(-17), WEEK_DAYS, -777, 6.88177490234375);
    RealModUnique(eq(-16), WEEK_DAYS, -731, 4.1240234375);
    RealModUnique(eq(-15), WEEK_DAYS, -685, 1.36627197265625);
  }

  /** The guess truncates toward zero, so before the datum it can be two
      years late, beyond what the one-step correction repairs: on those
      ideal equinoxes day -6209, day 367 of year -18, is labelled year -17,
      week -1, weekday 7. */
  lemma NegativeYearLabel()
    ensures var eq := MeanYearEphemeris(0.0);
      IsShortYear(eq, -18).startTt <= -6209.0 < IsShortYear(eq, -17).startTt
    ensures ToParts(MeanYearEphemeris(0.0), -6209.0) == Parts(-17, -1, 7, 0)
  {
    var eq := MeanYearEphemeris(0.0);
    NegativeYearsExample();
    assert Trunc(-6209.0 / TROPICAL_YEAR_DAYS) == -16;
    assert ChooseYear(eq, -6209.0) == -17;
    assert Floor(-1.0 / 8.0) == -1;
    RealModUnique(-6209.0, WEEK_DAYS, -777, 7.0);
    RealModUnique(-6209.0, 1.0, -6209, 0.0);
  }

  /** So the encoder's string for day -6209 decodes to day -6193, 16 days
      later: the round trip fails before the datum even on ideal data. */
  lemma NegativeYearRoundTrip()
    ensures ToUcy(MeanYearEphemeris(0.0), -6209.0) == "021_01_7.0000"
    ensures FromUcy(MeanYearEphemeris(0.0), ToUcy(MeanYearEphemeris(0.0), -6209.0)) == Some(-6193.0)
  {
    NegativeYearLabel();
    assert FracCode(0) == 0;
    NegativeWeekRender();
    NegativeYearDecode();
  }

  /** Year -17, week 1, weekday 7 of those equinoxes is day -6193. */
  lemma NegativeYearDecode()
    ensures InstantOf(MeanYearEphemeris(0.0), Fields(-17, 1, 7, 0)) == -6193.0
  {
    NegativeYearsExample();
    assert MeanYearEphemeris(0.0)(0) == 0.0;
    RealModUnique(-6200.0, WEEK_DAYS, -775, 0.0);
    RealModUnique(7.0, WEEK_DAYS, 0, 7.0);
  }

  /** Every fraction of a day in [0, 1) is written as a code whose step
      starts at or before it and ends after it: decoding loses less than
      1/4096 of a day (about 21 seconds), never more. */
  lemma FracQuantization(fr: real)
    requires 0.0 <= fr < 1.0
    ensures var frac := FracCode(NanoOfDay(fr));
      0 <= frac < FRAC_STEPS
      && 0.0 <= fr - frac as real / FRAC_STEPS as real < 1.0 / FRAC_STEPS as real
  {
    RealModUnique(fr, 1.0, 0, fr);
    var nano := NanoOfDay(fr);
    var m := 21_093_750_000;
    assert DAY_NS == FRAC_STEPS * m;
    var frac := FracCode(nano);
    FracCodeSteps(nano);
    assert frac * m <= nano < frac * m + m;
    assert nano as real <= fr * DAY_NS as real < nano as real + 1.0;
    assert (frac * m) as real <= fr * DAY_NS as real;
    assert fr * DAY_NS as real < (frac * m + m) as real;
  }

  /** 4096 divides DAY_NS, so the fraction code is a whole number of
      21093750000-nanosecond steps. */
  lemma FracCodeSteps(nano: int)
    requires 0 <= nano
    ensures FracCode(nano) == nano / 21_093_750_000
  {
    var m := 21_093_750_000;
    var q, r := nano / m, nano % m;
    assert nano * FRAC_STEPS == q * DAY_NS + r * FRAC_STEPS;
    assert 0 <= r * FRAC_STEPS < DAY_NS;
    DivDayUnique(nano * FRAC_STEPS, q);
  }

  lemma DivDayUnique(n: int, q: int)
    requires q * DAY_NS <= n < q * DAY_NS + DAY_NS
    ensures n / DAY_NS == q
  {
  }

  /** A date's four fields name an instant in week slot `weekIndex` of its
      year, on the requested weekday of the continuous cycle, at the
      requested fraction: decoding does not drift off the grid. */
  lemma InstantOfMeetsFields(eq: Ephemeris, f: Fields)
    requires 0 <= f.day <= 7 && 0 <= f.frac < FRAC_STEPS
    ensures var info := IsShortYear(eq, f.year);
      InstantOf(eq, f) == info.startTt + (8 * WeekIndex(info, f.week) + f.day) as real + f.frac as real / FRAC_STEPS as real
    ensures DayOfWeek(InstantOf(eq, f) - Datum(eq)) == f.day
    ensures FracCode(NanoOfDay(InstantOf(eq, f) - Datum(eq))) == f.frac
  {
    var d := Datum(eq);
    var info := IsShortYear(eq, f.year);
    var weekIndex := WeekIndex(info, f.week);
    var baseDays := (info.startTt - d) + (weekIndex * 8) as real;
    RealModQuotient(info.startTt - d, WEEK_DAYS);
    var k := Floor((info.startTt - d) / WEEK_DAYS) + weekIndex;
    assert baseDays == WEEK_DAYS * k as real;
    RealModUnique(baseDays, WEEK_DAYS, k, 0.0);
    RealModUnique(f.day as real, WEEK_DAYS, 0, f.day as real);
    var fr := f.frac as real / FRAC_STEPS as real;
    var elapsed := baseDays + f.day as real + fr;
    assert InstantOf(eq, f) - d == elapsed;
    RealModUnique(elapsed, WEEK_DAYS, k, f.day as real + fr);
    RealModUnique(elapsed, 1.0, 8 * k + f.day, fr);
    var m := 21_093_750_000;
    assert fr * DAY_NS as real == (f.frac * m) as real;
    assert NanoOfDay(elapsed) == f.frac * m;
    assert FracCode(f.frac * m) == f.frac by {
      assert f.frac * m * FRAC_STEPS == f.frac * DAY_NS;
    }
  }

  /** What `to_ucy` writes has the `Y_WW_D.FFFF` shape and parses back to
      exactly the year, week, weekday and fraction it was made from, when
      the instant is not before the start of the year it was assigned to. */
  lemma ToUcyParses(eq: Ephemeris, t: real)
    requires IsShortYear(eq, ToParts(eq, t).year).startTt <= t
    ensures UcyShape(ToUcy(eq, t))
    ensures var p := ToParts(eq, t);
      Parse(ToUcy(eq, t)) == Some(Fields(p.year, p.week, p.day, FracCode(p.nano)))
  {
    var p := ToParts(eq, t);
    var f := Fields(p.year, p.week, p.day, FracCode(p.nano));
    RenderShape(f);
    ParseRender(f);
  }

  /** Inside its year and outside the guard window, an instant sits in
      the week slot its week number names, `day` whole days into it, and
      the nanosecond is taken from the remaining fraction of that day. */
  lemma EncodedPosition(eq: Ephemeris, t: real)
    requires var p := ToParts(eq, t); var info := IsShortYear(eq, p.year);
      && info.startTt <= t < info.startTt + info.size as real
      && !InGuardWindow(info, p.year, t - info.startTt)
    ensures var p := ToParts(eq, t); var info := IsShortYear(eq, p.year);
      var fr := t - info.startTt - (8 * WeekIndex(info, p.week) + p.day) as real;
      && 0.0 <= fr < 1.0
      && p.nano == NanoOfDay(fr)
  {
    var p := ToParts(eq, t);
    var info := IsShortYear(eq, p.year);
    var slot := WeekIndex(info, p.week);
    assert 8.0 * slot as real <= t - info.startTt < 8.0 * slot as real + 8.0;
    WithinWeek(eq, p.year, slot, t - info.startTt - 8.0 * slot as real);
  }

  /** An instant r days into week slot w of a year (0 <= r < 8) falls on
      weekday floor(r) of the continuous cycle, and its nanosecond is that
      of the remaining fraction of the day. */
  lemma WithinWeek(eq: Ephemeris, year: int, w: int, r: real)
    requires 0.0 <= r < WEEK_DAYS
    ensures var t := IsShortYear(eq, year).startTt + 8.0 * w as real + r;
      && DayOfWeek(t - Datum(eq)) == Floor(r)
      && 0.0 <= r - Floor(r) as real < 1.0
      && NanoOfDay(t - Datum(eq)) == NanoOfDay(r - Floor(r) as real)
  {
    var d := Datum(eq);
    var start := IsShortYear(eq, year).startTt;
    var t := start + 8.0 * w as real + r;
    RealModQuotient(start - d, WEEK_DAYS);
    var k := Floor((start - d) / WEEK_DAYS) + w;
    assert t - d == WEEK_DAYS * k as real + r;
    RealModUnique(t - d, WEEK_DAYS, k, r);
    var day := Floor(r);
    var fr := r - day as real;
    RealModUnique(t - d, 1.0, 8 * k + day, fr);
    RealModUnique(fr, 1.0, 0, fr);
  }

  /** Decoding what the encoder wrote gives back the instant rounded down
      to the 1/4096-day step, for an instant inside the year it was assigned
      to and outside the 2-second guard window. */
  lemma DecodeEncode(eq: Ephemeris, t: real)
    requires var p := ToParts(eq, t); var info := IsShortYear(eq, p.year);
      && info.startTt <= t < info.startTt + info.size as real
      && !InGuardWindow(info, p.year, t - info.startTt)
    ensures FromUcy(eq, ToUcy(eq, t)).Some?
    ensures 0.0 <= t - FromUcy(eq, ToUcy(eq, t)).value < 1.0 / FRAC_STEPS as real
  {
    var p := ToParts(eq, t);
    var info := IsShortYear(eq, p.year);
    var f := Fields(p.year, p.week, p.day, FracCode(p.nano));
    ToUcyParses(eq, t);
    assert FromUcy(eq, ToUcy(eq, t)) == Some(InstantOf(eq, f));
    InstantOfMeetsFields(eq, f);
    EncodedPosition(eq, t);
    FracQuantization(t - info.startTt - (8 * WeekIndex(info, p.week) + p.day) as real);
  }
}
