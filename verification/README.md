# UCY calendar in Dafny

A verified model of the UCY calendar (pbierkortte/UCY). UCY counts years from
the spring equinox after Caesar's death (the datum). Each year is made of
8-day weeks and is either short (360 days, weeks 1..45) or long (368 days,
weeks 0..45). The model covers:

- the year classifier `is_short_year`;
- the decomposer `to_parts`, which turns a Terrestrial Time instant
  (Julian days) into year, week, weekday and nanosecond;
- the encoder `to_ucy`, which writes the `Y_WW_D.FFFF` base-8 string;
- the arithmetic of the decoder `to_utc`;
- the reference-table generator of `generator.py`.

Instants are exact reals. The equinox search is a parameter: an
`Ephemeris` maps each UCY year to its equinox instant, and the datum is the
equinox of year 0.

Modules:

- `RealMath`: Python's `math.floor`, `int()` on a float, and `%` on floats.
- `Octal`: `format(n, 'o')`, `format(n, '0<w>o')`, `int(s, 8)` and the
  `"-"` to `"0"` replacement.
- `UcyFormat`: the string format. `UcyFormat.Render` is the f-string of
  `to_ucy` with its `replace("-", "0")`; `UcyFormat.Parse` is the
  `re.split` and `int(s, 8)` part of `to_utc`.
- `Ucy`: `Ucy.IsShortYear` is `is_short_year`; `Ucy.ToParts` is `to_parts`,
  with `Ucy.ChooseYear` its year guess and correction; `Ucy.ToUcy` is
  `to_ucy`; `Ucy.FromUcy` is `to_utc` up to the TT instant, with
  `Ucy.InstantOf` its arithmetic.
- `Generator`: `Generator.MakeRow` is the body of the innermost loop of
  `generate`, and `Generator.Table` the whole table it produces, as a
  function of the ephemeris. The `UcyGenerator` class holds the equinox
  cache (`EquinoxByYear`, `IsShortYear`) and runs the loops (`Generate`).

How consecutive years fit together: each year starts at the week boundary
nearest its own equinox and ends at the one nearest the next equinox
(`Ucy.YearBoundaries`). So when every equinox-to-equinox length lies in
[364, 368) days, the years tile the time line (`Ucy.YearsTile`).

There is one exception. An equinox can fall exactly halfway between two
boundaries of the datum's 8-day cycle. At that tie the short-year test
(`threshold <= phase`) and the start-offset test (`phase > threshold`)
disagree. The year is classified as short but placed as if it were long:
it starts 8 days before its predecessor ends (`Ucy.HalfwayYearOverlaps`,
worked out concretely in `Ucy.TieExample`). Being short, it also ends 8
days before the next year starts, and no year covers that week:
`to_parts` keeps it in the tie year and calls day 360 of a 360-day year
week 45 (`Ucy.TieGap`). Decoding that label lands 8 days earlier, so the
round trip fails in that week (`Ucy.TieRoundTripGap`). The generator does not follow the classifier
there either. Its running day count starts the tie year where its
predecessor ends, 8 days after the classifier's start, and the two agree
again from the next year on (`Generator.TieTable`). The model keeps this
behaviour as written.

Years before the datum have a second gap. The year guess
`int(elapsed / TROPICAL_YEAR_DAYS)` truncates toward zero, so for a
negative elapsed time it can be two years late, and the one-step
correction then lands in a year that has not started yet. This happens even
with equinoxes exactly one mean tropical year apart: day -6209 from the
datum lies in year -18, but `to_parts` labels it year -17, week -1
(`Ucy.NegativeYearLabel`). `to_ucy` writes week -1 as `01`, the way it writes
week +1 (`UcyFormat.NegativeWeekRender`), and the string decodes to day
-6193, 16 days later (`Ucy.NegativeYearRoundTrip`). The model keeps this
behaviour as written too.

## Model

| member | source | states |
|---|---|---|
| Ucy.ClassifyEphemeris | ucy.py:42-51 | the default branch: the year is short iff the threshold set by its actual length is at most the next equinox's phase and the phase is below 4; the size is 360 or 368 accordingly; the start is on the datum's week grid, between 376 and 360 days before the next equinox |
| Ucy.ClassifyFast | ucy.py:38-51 | the fast branch: size 360 or 368 by shortness, and a start on the datum's week grid between 376 and 360 days before the mean-year equinox |
| Ucy.IsShortYear | ucy.py:35-51 | `is_short_year` in either branch gives a size of 360 for a short year and 368 for a long one, and a start a whole number of weeks from the datum |
| Ucy.Phase | ucy.py:46 | the phase of the next equinox in the datum's 8-day cycle lies in [0, 8) |
| Ucy.ClassifyFrom | ucy.py:46-51 | the year is short iff threshold <= phase < 4; its size is 360 when short and 368 otherwise; its start is a whole number of weeks from the datum and lies between 376 and 360 days before the next equinox |
| Ucy.FastModeIsMeanYear | ucy.py:38-40 | the FAST_MODE branch is the ephemeris branch run on equinoxes one mean tropical year apart, and every such year is regular |
| Ucy.NearestBoundary | ucy.py:46-50 | the week boundary nearest an instant is on the datum's grid and within (e - 4, e + 4] of the instant |
| Ucy.YearBoundaries | ucy.py:46-51 | a regular year with no halfway tie runs from the boundary nearest its equinox to the boundary nearest the next equinox; at a halfway tie it is short and both ends move 8 days earlier |
| Ucy.YearsTile | ucy.py:46-51 | consecutive regular years with no halfway tie fit end to end: the next year starts where this one ends, so starts strictly increase |
| Ucy.NoConsecutiveShortYears | test_ucy.py:82-96 | two consecutive regular years are never both short, a halfway tie included |
| Ucy.HalfwayYearOverlaps | ucy.py:47-50 | at a halfway tie the year starts 8 days before its predecessor ends |
| Ucy.TieExample | ucy.py:46-51 | with equinoxes 366, 366 and 365 days apart, year 1 is long from day 368 and year 2 is short from day 728, overlapping year 1 by 8 days |
| Ucy.TieRoundTripGap | ucy.py:54-95 | in the same example day 1090, in the uncovered week, is labelled year 2, week 45, weekday 2, and that label decodes to day 1082, 8 days earlier |
| Ucy.TieGap | ucy.py:46-51 | in the same example year 3 starts on day 1096, 8 days after year 2 ends, and `to_parts` puts day 1088 in year 2, week 45 |
| Ucy.DayOfWeek | ucy.py:74 | the weekday lies in 0..7 |
| Ucy.NanoOfDay | ucy.py:75 | the nanosecond of the day lies in [0, DAY_NS) |
| Ucy.WeekOf | ucy.py:66-73 | the week is at most 45; it is at least 0 from the year's start on and at least 1 in a short year; week 0 only happens in the first 8 days of a long year; inside the guard window it is 45; otherwise inside the year the week's slot contains the instant |
| Ucy.WeekOfWholeDay | ucy.py:66-73 | whole day k of a year is in week k div 8, one more in a short year; no whole day falls in the guard window |
| Ucy.ToParts | ucy.py:54-76 | week <= 45, weekday in 0..7, nanosecond in [0, DAY_NS); week >= 0 from the chosen year's start and never 0 in a short year; weekday and nanosecond come from the continuous cycle since the datum |
| Ucy.DayAndNanoCycle | ucy.py:74-75 | the weekday repeats every 8 days and steps by one (mod 8) per day; the nanosecond repeats every day; both are 0 at the datum |
| Ucy.ChooseYear | ucy.py:58-65 | the chosen year is within one of the mean-year guess; the guess is kept when its year contains the instant; a step forward only goes to a year that has started, and a step back only when the guessed year has not |
| Ucy.ChooseYearFindsContainingYear | ucy.py:58-65 | when years lie end to end and the mean-year guess is off by at most one, the one-step correction picks the year containing the instant |
| Ucy.ChoosesTiledYear | ucy.py:58-65 | inside a year of a run of regular years with no halfway tie, when the mean-year guess is off by at most one, the corrected guess is that year |
| Ucy.DatumDecomposes | ucy.py:54-76 | when years 0 and 1 are regular (a tie at year 1 included), the datum is year 0, weekday 0, nanosecond 0, in week 1 of a short year 0 or week 0 of a long one |
| Ucy.WithinWeek | ucy.py:66-75 | an instant r days into a week slot falls on weekday floor(r), and its nanosecond is that of the rest of the day |
| Ucy.WholeDays | ucy.py:74-75 | a whole number n of days after the datum is weekday n mod 8 at nanosecond 0 |
| Ucy.DayStartOnCycle | ucy.py:74-75 | the start of day k of any year is weekday k mod 8 at nanosecond 0 |
| Ucy.YearDayDecomposes | ucy.py:57-76 | the start of day k of a year inside a tiled run decomposes to that year, week k div 8 (plus one in a short year), weekday k mod 8, nanosecond 0 |
| Ucy.NegativeYearsExample | ucy.py:35-51 | on equinoxes one mean year apart from datum 0, years -18 and -17 are long (from days -6576 and -6208) and year -16 is short (from day -5840), all regular with no tie |
| Ucy.NegativeYearLabel | ucy.py:54-76 | in that example day -6209 lies in year -18, but the guess truncated toward zero and the one-step correction label it year -17, week -1, weekday 7, nanosecond 0 |
| Ucy.NegativeYearDecode | ucy.py:86-95 | in that example the date year -17, week 1, weekday 7, fraction 0 decodes to day -6193 |
| Ucy.NegativeYearRoundTrip | ucy.py:54-95 | in that example day -6209 is encoded as `021_01_7.0000`, which decodes to day -6193, 16 days later |
| Ucy.FracCode | ucy.py:82 | a nanosecond of the day becomes a fraction code in [0, 4096) |
| Ucy.FracCodeSteps | ucy.py:82 | the fraction code counts whole steps of DAY_NS / 4096 nanoseconds |
| Ucy.FracQuantization | ucy.py:82 | the code of a fraction of the day in [0, 1) stands for the step that contains it, less than 1/4096 day below it |
| Ucy.InstantOfMeetsFields | ucy.py:91-95 | a parsed date denotes the instant in its week slot at its weekday and fraction; the decomposer reads that weekday and fraction back |
| Ucy.ToUcyParses | ucy.py:79-83 | for an instant not before the start of the year the decomposer chose, the encoder writes the Y_WW_D.FFFF shape, and the parser reads back exactly the year, week, weekday and fraction code |
| Ucy.EncodedPosition | ucy.py:66-75 | inside its year and outside the guard window, an instant lies in the week slot and on the weekday it is labelled with, and its nanosecond comes from the rest of that day |
| Ucy.DecodeEncode | ucy.py:79-95 | decoding the encoder's string succeeds and gives the instant rounded down to the 1/4096-day step, for an instant inside its year and outside the guard window |
| Ucy.ToUcy | ucy.py:79-83 | `to_ucy`: stated by Ucy.ToUcyParses (shape and exact read-back) and Ucy.DecodeEncode (round trip) |
| Ucy.InstantOf | ucy.py:91-95 | the arithmetic of `to_utc`: stated by Ucy.InstantOfMeetsFields (the instant in the date's week slot at its weekday and fraction) |
| Ucy.FromUcy | ucy.py:86-95 | `to_utc` up to the TT instant, `None` where the string does not parse: stated by Ucy.DecodeEncode |
| Octal.Format | ucy.py:83 | `format(n, '0<w>o')` writes at least one character; its digits and width are stated by Octal.FormatNonNegative and Octal.SignedField |
| Octal.FromOctal | ucy.py:89 | `int(s, 8)` on ASCII octal digits: stated by Octal.FromToOctal (it reads back what `format` wrote) |
| Octal.ToOctal | ucy.py:83 | base-8 digits, never empty, with a leading 0 only for zero |
| Octal.FromToOctal | ucy.py:89 | reading back the digits `format(n, 'o')` wrote gives n |
| Octal.FormatNonNegative | ucy.py:83 | a non-negative number is written in octal digits only, reads back as itself, and fills exactly its width when it fits |
| Octal.SignedField | ucy.py:83-90 | the year field has octal digits only, starts with '0' exactly when the year is not positive, and reads back as the year's magnitude |
| Octal.ReplaceMinus | ucy.py:83 | replacing '-' by '0' keeps the length |
| UcyFormat.Render | ucy.py:83 | the f-string of `to_ucy` with its sign replacement: stated by UcyFormat.RenderShape and UcyFormat.ParseRender |
| UcyFormat.NegativeWeekRender | ucy.py:83-90 | week -1 and week +1 of year -17 render to the same string `021_01_7.0000`, which parses as week +1 |
| UcyFormat.Split | ucy.py:88 | splitting on '_' and '.' gives one more piece than there are separators, and no piece holds a separator |
| UcyFormat.Parse | ucy.py:88-90 | an accepted string has exactly three separators and nothing but octal digits besides; the week, weekday and fraction read are non-negative |
| UcyFormat.RenderNonNegative | ucy.py:83 | with a non-negative week, weekday and fraction, the rendered string is the signed year field and three plain octal fields between the separators |
| UcyFormat.SplitRender | ucy.py:83-88 | splitting a rendered string gives back its four fields |
| UcyFormat.ParseRender | ucy.py:83-90 | parsing a rendered date gives back its year (negative and zero included), week, weekday and fraction |
| UcyFormat.RenderShape | ucy.py:83 | weeks below 64, weekdays below 8 and fractions below 4096 always render in the Y_WW_D.FFFF shape |
| Generator.DaysBefore | generator.py:65-122 | `year_start_day` before year n: stated by Generator.DaysBeforeOnGrid and Generator.TableMatchesClassifier |
| Generator.MakeRow | generator.py:76-120 | the body of the innermost loop: stated by Generator.RowCodes, Generator.RowInstants and Generator.RowDecomposes |
| Generator.Table | generator.py:60-122 | the lines `generate` produces: stated by Generator.TableLayout, Generator.TableOnCycle and Generator.TableMatchesClassifier |
| Generator.YearLines | generator.py:71-120 | a year contributes exactly as many rows as it has days, 360 for a short year and 368 for a long one |
| Generator.YearLinesLayout | generator.py:71-120 | a year's k-th row is day k of the year counted from its first day, labelled with that year, a week within 0..45 (1..45 in a short year) and a weekday within 0..7 |
| Generator.YearSlots | generator.py:71-79 | the k-th day of a year sits in week k div 8 (plus one in a short year), weekday k mod 8, and that slot's `day_in_year` is k |
| Generator.SlotIndex | generator.py:71-79 | every week slot the loops visit names a day of the year, from which the slot is recovered |
| Generator.YearLinesAt | generator.py:71-120 | the row built for a visited week slot is the year's row at that slot's day |
| Generator.TableLayout | generator.py:60-122 | the table is one header followed only by rows, for days 0, 1, 2, ... in order, as many as the days of the years generated |
| Generator.DaysBeforeOnGrid | generator.py:65-122 | `year_start_day` is a multiple of 8 and between 360 and 368 days per year generated |
| Generator.RowCodes | generator.py:90-109 | a row's two codes share the year, week and weekday prefix; the start code ends in 0000 and the end code in 7777; both parse back to the row's fields |
| Generator.RowInstants | generator.py:85-88 | a row starts its index in days after the datum and ends one day less EPSILON later; in a year starting on a week boundary its start instant is its weekday at nanosecond 0 |
| Generator.YearOnCycle | generator.py:74-93 | every row of a year starts at its labelled weekday and nanosecond on the continuous cycle |
| Generator.TableOnCycle | generator.py:60-122 | every row of the table starts at its labelled weekday and nanosecond on the continuous cycle |
| Generator.TableStep | generator.py:65-122 | generating one more year appends that year's 360 or 368 rows and adds its length to `year_start_day` |
| Generator.TieTable | generator.py:65-122 | at a halfway tie the running day count starts the tie year 8 days after the classifier does (day 736 against 728) and meets it again at the next year (day 1096) |
| Generator.CacheStep | generator.py:48-56 | classifying year n adds years n, n+1 and 0 to the cache, so after years 0 .. n-1 it holds exactly the initial entries and years 0 .. n+1 |
| Generator.TableMatchesClassifier | generator.py:65-122 | over regular years with no halfway tie, the generator's running day count lands on the start instant of each year as the classifier computes it |
| Generator.RowDecomposes | generator.py:67-115 | when years 0 .. y+1 (and year -1 for year 0) are regular with no halfway tie, decomposing a row's start instant gives back the row's year, week, weekday and nanosecond |
| Generator.UcyGenerator.constructor | generator.py:28-32 | a new generator has the given year count and an empty equinox cache |
| Generator.UcyGenerator.EquinoxByYear | generator.py:34-46 | the equinox of a year: a cached year is returned with the cache unchanged; a missing year is looked up and added, so the cache only grows and each year is added once |
| Generator.UcyGenerator.IsShortYear | generator.py:48-56 | the generator classifies every year exactly as the classifier of ucy.py does; afterwards the cache is the old cache plus years y, y+1 and 0 with their ephemeris values |
| Generator.UcyGenerator.BuildRow | generator.py:76-120 | the loop body builds exactly the specified row for its year, week and weekday; the cache gains year 0 when missing and is otherwise unchanged |
| Generator.UcyGenerator.AppendYear | generator.py:71-120 | the week and weekday loops append exactly that year's rows, in order, and leave a cache that already holds year 0 unchanged |
| Generator.UcyGenerator.Generate | generator.py:58-122 | the lines produced are the specified table for the requested number of years, and the final `year_start_day` is the total day count; the cache keeps its old entries and afterwards holds exactly those plus years 0 .. num_years, each with its ephemeris value |

## Left out

- The equinox search (Skyfield's `find_discrete` over the DE431 ephemeris, in `get_equinox_by_year` and `_get_equinox_by_year`): the ephemeris is a parameter, and both files read it from the same parameter.
- `lru_cache` on `get_equinox_by_year` and `is_short_year`: memoisation does not change results.
- `ts.now()` and the `jd_tt or ...` fallback of `to_parts`: the instant is always given. The fallback would also treat an instant of exactly 0.0 as "now"; that is not modelled.
- UTC rendering: the last step of `to_utc`, and the generator's `start_utc`, `end_utc` and `end_tt_adjusted`. The decoder stops at the TT instant.
- Text layout of the table (`{start_tt:.9f}` and the comma-separated line): rows are records, and the header line is a constructor.
- File writing and the closing `print` of `generate`.
- The generator's `end_nano_actual` and its `TROPICAL_YEAR_DAYS`: both are computed or declared but never used.
- Floating point: instants are exact reals, so the 2-second guard window and EPSILON are exact, and no IEEE rounding is modelled.
- Ucy.DecodeEncode: states nothing for instants inside the 2-second guard window before day 360 of a long year. There `to_parts` forces week 45, which in exact arithmetic names a different day. It also requires the instant to lie inside the year the decomposer chose. That excludes the uncovered week after a halfway-tie year, where the decoded instant is 8 days off (`Ucy.TieRoundTripGap`), and the wrongly chosen negative years of the next line.
- Ucy.YearDayDecomposes: assumes the year guess `int(elapsed / TROPICAL_YEAR_DAYS)` is off by at most one year. That does not follow from the ephemeris: `int()` truncates toward zero, so before the datum the guess can be two years late even on equinoxes exactly one mean year apart. For up to 4 days before the start of a negative year that starts after `datum + year * TROPICAL_YEAR_DAYS`, the correction then picks the following year, which has not started. `to_parts` gives week -1 of it when it is long and week 0 when it is short, and the decoded instant is 16 or 8 days late (`Ucy.NegativeYearRoundTrip` proves the long-year case on day -6209). Ucy.ChooseYearFindsContainingYear and Generator.RowDecomposes assume the same; the generator's years are 0 and up.
- `int(s, 8)` accepts more than ASCII octal digits: a sign, surrounding whitespace, a `0o` prefix, and non-ASCII decimal digits below 8 (Arabic-Indic ones, for example). Underscores never reach it, because `_` already splits the fields. The parser accepts only ASCII octal digits and rejects the rest.
- The dataclass defaults `num_years = 3000` and `output_file`: the constructor takes the year count explicitly, and no file is written.
- The equinox cache is a class attribute in `generator.py`, shared by all instances and emptied by each `__post_init__`. It is modelled as a field of each object, emptied by its constructor.
- The decoder does not range-check week, weekday or fraction: out-of-range fields are decoded by the same arithmetic, as the code does.
- The ephemeris-dependent expectations of the tests (concrete dates, year lengths, the at-least-27-year runs of `test_generational_stability`) are properties of the real ephemeris and are not modelled.
