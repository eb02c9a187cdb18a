/** The UCY wire format `Y_WW_D.FFFF`: every field in base 8, the year's minus
    sign written as a leading `'0'` (so `"0"` alone is year zero), the week in
    two digits, the weekday in one and the fraction of the day in four. */
module UcyFormat {
  import opened Octal

  datatype Option<T> = None | Some(value: T)

  /** The four numbers a UCY date string carries. */
  datatype Fields = Fields(year: int, week: int, day: int, frac: int)

  /** `f"{year:o}_{week:02o}_{day:o}.{frac:04o}".replace("-", "0")`. */
  function Render(f: Fields): string {
    ReplaceMinus(Format(f.year, 0) + "_" + Format(f.week, 2) + "_" + Format(f.day, 0) + "." + Format(f.frac, 4))
  }

  predicate IsSeparator(c: char) {
    c == '_' || c == '.'
  }

  predicate NoSeparator(p: string) {
    forall k :: 0 <= k < |p| ==> !IsSeparator(p[k])
  }

  function CountSeparators(s: string): nat {
    if s == [] then 0 else (if IsSeparator(s[0]) then 1 else 0) + CountSeparators(s[1..])
  }

  /** `re.split(r"[_.]", s)`: the pieces between separators, empty pieces
      kept; either separator splits, wherever it stands. */
  function Split(s: string): (parts: seq<string>)
    ensures |parts| == CountSeparators(s) + 1
    ensures forall j :: 0 <= j < |parts| ==> NoSeparator(parts[j])
  {
    if s == [] then [""]
    else
      var rest := Split(s[1..]);
      if IsSeparator(s[0]) then [""] + rest
      else [[s[0]] + rest[0]] + rest[1..]
  }

  /** A field `int(s, 8)` accepts here: one or more octal digits. */
  predicate ValidField(p: string) {
    p != [] && AllOctal(p)
  }

  /** The parsing half of `to_utc`: exactly four fields, each of octal
      digits; a year field that starts with `'0'` denotes the negated value. */
  function Parse(s: string): (r: Option<Fields>)
    ensures r.Some? ==> CountSeparators(s) == 3
    ensures r.Some? ==> forall i :: 0 <= i < |s| ==> IsOctalDigit(s[i]) || IsSeparator(s[i])
    ensures r.Some? ==> 0 <= r.value.week && 0 <= r.value.day && 0 <= r.value.frac
  {
    var parts := Split(s);
    if |parts| == 4 && ValidField(parts[0]) && ValidField(parts[1])
      && ValidField(parts[2]) && ValidField(parts[3])
    then
      SplitCharacters(s);
      var yearAbs: int := FromOctal(parts[0]);
      var year := if parts[0][0] == '0' then -yearAbs else yearAbs;
      Some(Fields(year, FromOctal(parts[1]), FromOctal(parts[2]), FromOctal(parts[3])))
    else
      None
  }

  /** When every piece is made of octal digits, so is everything in `s`
      that is not a separator. */
  lemma {:induction false} SplitCharacters(s: string)
    requires forall j :: 0 <= j < |Split(s)| ==> AllOctal(Split(s)[j])
    ensures forall i :: 0 <= i < |s| ==> IsOctalDigit(s[i]) || IsSeparator(s[i])
  {
    if s != [] {
      var rest := Split(s[1..]);
      if IsSeparator(s[0]) {
        assert Split(s) == [""] + rest;
        forall j | 0 <= j < |rest| ensures AllOctal(rest[j]) {
          assert rest[j] == Split(s)[j + 1];
        }
      } else {
        assert Split(s)[0] == [s[0]] + rest[0];
        forall k | 0 <= k < |rest[0]| ensures IsOctalDigit(rest[0][k]) {
          assert rest[0][k] == Split(s)[0][k + 1];
        }
        forall j | 1 <= j < |rest| ensures AllOctal(rest[j]) {
          assert rest[j] == Split(s)[j];
        }
        assert Split(s)[0][0] == s[0];
      }
      SplitCharacters(s[1..]);
      forall i | 1 <= i < |s| ensures IsOctalDigit(s[i]) || IsSeparator(s[i]) {
        assert s[i] == s[1..][i - 1];
      }
    }
  }

  lemma {:induction false} SplitWhole(a: string)
    requires NoSeparator(a)
    ensures Split(a) == [a]
  {
    if a != [] {
      SplitWhole(a[1..]);
      assert [a[0]] + a[1..] == a;
    }
  }

  lemma {:induction false} SplitAt(a: string, c: char, b: string)
    requires NoSeparator(a) && IsSeparator(c)
    ensures Split(a + [c] + b) == [a] + Split(b)
  {
    if a == [] {
      assert a + [c] + b == [c] + b;
      assert ([c] + b)[1..] == b;
    } else {
      assert (a + [c] + b)[1..] == a[1..] + [c] + b;
      SplitAt(a[1..], c, b);
      assert [a[0]] + a[1..] == a;
    }
  }

  /** The sign replacement acts on each field separately. */
  lemma RenderPieces(f: Fields)
    ensures Render(f) == ReplaceMinus(Format(f.year, 0)) + "_" + ReplaceMinus(Format(f.week, 2))
      + "_" + ReplaceMinus(Format(f.day, 0)) + "." + ReplaceMinus(Format(f.frac, 4))
  {
    var y, w, d, q := Format(f.year, 0), Format(f.week, 2), Format(f.day, 0), Format(f.frac, 4);
    ReplaceMinusAppend(y + "_" + w + "_" + d + ".", q);
    ReplaceMinusAppend(y + "_" + w + "_" + d, ".");
    ReplaceMinusAppend(y + "_" + w + "_", d);
    ReplaceMinusAppend(y + "_" + w, "_");
    ReplaceMinusAppend(y + "_", w);
    ReplaceMinusAppend(y, "_");
    assert ReplaceMinus("_") == "_";
    assert ReplaceMinus(".") == ".";
  }

  /** With non-negative week, weekday and fraction, the rendered string is
      the year field and the three plain octal fields between separators. */
  lemma RenderNonNegative(f: Fields)
    requires 0 <= f.week && 0 <= f.day && 0 <= f.frac
    ensures Render(f) == ReplaceMinus(Format(f.year, 0)) + "_" + Format(f.week, 2)
      + "_" + Format(f.day, 0) + "." + Format(f.frac, 4)
    ensures AllOctal(Format(f.week, 2)) && AllOctal(Format(f.day, 0)) && AllOctal(Format(f.frac, 4))
  {
    RenderPieces(f);
    FormatNonNegative(f.week, 2);
    FormatNonNegative(f.day, 0);
    FormatNonNegative(f.frac, 4);
    ReplaceMinusOctal(Format(f.week, 2));
    ReplaceMinusOctal(Format(f.day, 0));
    ReplaceMinusOctal(Format(f.frac, 4));
  }

  /** The fields the encoder writes are the fields the decoder reads, for
      every year (negative ones and zero included) and every non-negative
      week, weekday and fraction. */
  lemma ParseRender(f: Fields)
    requires 0 <= f.week && 0 <= f.day && 0 <= f.frac
    ensures Parse(Render(f)) == Some(f)
  {
    var w, d, q := Format(f.week, 2), Format(f.day, 0), Format(f.frac, 4);
    var y := ReplaceMinus(Format(f.year, 0));
    SplitRender(f);
    SignedField(f.year);
    FormatNonNegative(f.week, 2);
    FormatNonNegative(f.day, 0);
    FormatNonNegative(f.frac, 4);
    var parts := Split(Render(f));
    assert ValidField(parts[0]) && ValidField(parts[1]) && ValidField(parts[2]) && ValidField(parts[3]);
  }

  /** Splitting a rendered string recovers its four fields. */
  lemma SplitRender(f: Fields)
    requires 0 <= f.week && 0 <= f.day && 0 <= f.frac
    ensures Split(Render(f)) == [ReplaceMinus(Format(f.year, 0)), Format(f.week, 2), Format(f.day, 0), Format(f.frac, 4)]
  {
    SignedField(f.year);
    RenderNonNegative(f);
    SplitFour(ReplaceMinus(Format(f.year, 0)), Format(f.week, 2), Format(f.day, 0), Format(f.frac, 4));
  }

  /** Four separator-free pieces joined by `_`, `_` and `.` split back into
      those four pieces. */
  lemma SplitFour(y: string, w: string, d: string, q: string)
    requires AllOctal(y) && AllOctal(w) && AllOctal(d) && AllOctal(q)
    ensures Split(y + "_" + w + "_" + d + "." + q) == [y, w, d, q]
  {
    JoinFour(y, w, d, q);
    SplitAt(y, '_', w + ['_'] + (d + ['.'] + q));
    SplitAt(w, '_', d + ['.'] + q);
    SplitAt(d, '.', q);
    SplitWhole(q);
  }

  lemma JoinFour(y: string, w: string, d: string, q: string)
    ensures y + "_" + w + "_" + d + "." + q == y + ['_'] + (w + ['_'] + (d + ['.'] + q))
  {
  }

  /** `Y_WW_D.FFFF`, read from the right: four octal digits after a `'.'`,
      one before it, two between the two `'_'`, and a non-empty run of octal
      digits for the year. */
  predicate UcyShape(s: string) {
    var n := |s|;
    && n >= 11
    && AllOctal(s[..n - 10]) && s[n - 10] == '_'
    && AllOctal(s[n - 9..n - 7]) && s[n - 7] == '_'
    && IsOctalDigit(s[n - 6]) && s[n - 5] == '.'
    && AllOctal(s[n - 4..])
  }

  /** Weeks up to 0o77, weekdays up to 7 and fractions up to 0o7777 always
      render in the fixed `Y_WW_D.FFFF` shape. */
  lemma RenderShape(f: Fields)
    requires 0 <= f.week < 64 && 0 <= f.day < 8 && 0 <= f.frac < 4096
    ensures UcyShape(Render(f))
  {
    SignedField(f.year);
    assert Pow8(1) == 8 && Pow8(2) == 64 && Pow8(4) == 4096;
    FormatNonNegative(f.week, 2);
    FormatNonNegative(f.day, 0);
    FormatNonNegative(f.frac, 4);
    RenderNonNegative(f);
    ShapeOf(ReplaceMinus(Format(f.year, 0)), Format(f.week, 2), Format(f.day, 0), Format(f.frac, 4));
  }

  /** A non-empty year, two week digits, one weekday digit and four
      fraction digits, joined by `_`, `_` and `.`, have the UCY shape. */
  lemma ShapeOf(y: string, w: string, d: string, q: string)
    requires 1 <= |y| && |w| == 2 && |d| == 1 && |q| == 4
    requires AllOctal(y) && AllOctal(w) && AllOctal(d) && AllOctal(q)
    ensures UcyShape(y + "_" + w + "_" + d + "." + q)
  {
    var s := y + "_" + w + "_" + d + "." + q;
    var n := |s|;
    assert s[..n - 10] == y;
    assert s[n - 9..n - 7] == w;
    assert s[n - 6] == d[0];
    assert s[n - 4..] == q;
  }

  /** A negative week is not read back: week -1 is written `"-1"`, which
      the sign replacement turns into `"01"`, the way week +1 is written, so
      the string reads back as week +1. */
  lemma NegativeWeekRender()
    ensures Render(Fields(-17, -1, 7, 0)) == "021_01_7.0000" == Render(Fields(-17, 1, 7, 0))
    ensures Parse(Render(Fields(-17, -1, 7, 0))) == Some(Fields(-17, 1, 7, 0))
  {
    MinusWeekRender();
    PlusWeekRender();
    ParseRender(Fields(-17, 1, 7, 0));
  }

  /** Week -1 of year -17, weekday 7, fraction 0 is written `021_01_7.0000`. */
  lemma MinusWeekRender()
    ensures Render(Fields(-17, -1, 7, 0)) == "021_01_7.0000"
  {
    RenderPieces(Fields(-17, -1, 7, 0));
    assert ToOctal(17) == "21" && ToOctal(1) == "1" && ToOctal(7) == "7" && ToOctal(0) == "0";
    assert Format(-17, 0) == "-21" && Format(-1, 2) == "-1";
    assert Format(7, 0) == "7" && Format(0, 4) == "0000";
    assert ReplaceMinus("-21") == "021" && ReplaceMinus("-1") == "01";
    assert ReplaceMinus("7") == "7" && ReplaceMinus("0000") == "0000";
  }

  /** Week +1 of year -17, weekday 7, fraction 0 is written `021_01_7.0000`. */
  lemma PlusWeekRender()
    ensures Render(Fields(-17, 1, 7, 0)) == "021_01_7.0000"
  {
    RenderNonNegative(Fields(-17, 1, 7, 0));
    assert ToOctal(17) == "21" && ToOctal(1) == "1" && ToOctal(7) == "7" && ToOctal(0) == "0";
    assert Format(-17, 0) == "-21" && Format(1, 2) == "01";
    assert Format(7, 0) == "7" && Format(0, 4) == "0000";
    assert ReplaceMinus("-21") == "021";
  }
}
