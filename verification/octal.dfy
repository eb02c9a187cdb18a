/** Base-8 text as Python produces and reads it: `format(n, 'o')`,
    `format(n, '0<w>o')`, `int(s, 8)` on plain digit strings, and
    `str.replace("-", "0")`. */
module Octal {

  predicate IsOctalDigit(c: char) {
    '0' <= c <= '7'
  }

  predicate AllOctal(s: string) {
    forall i :: 0 <= i < |s| ==> IsOctalDigit(s[i])
  }

  function DigitValue(c: char): (d: int)
    requires IsOctalDigit(c)
    ensures 0 <= d < 8
  {
    c as int - '0' as int
  }

  function DigitChar(d: int): (c: char)
    requires 0 <= d < 8
    ensures IsOctalDigit(c) && DigitValue(c) == d
  {
    ('0' as int + d) as char
  }

  function Pow8(k: nat): (p: nat)
    ensures 1 <= p
  {
    if k == 0 then 1 else 8 * Pow8(k - 1)
  }

  /** `format(n, 'o')` for a non-negative `n`: its base-8 digits, most
      significant first, with no leading zero except for `n == 0` itself. */
  function ToOctal(n: nat): (s: string)
    ensures 1 <= |s| && AllOctal(s)
    ensures s[0] == '0' <==> n == 0
  {
    if n < 8 then [DigitChar(n)] else ToOctal(n / 8) + [DigitChar(n % 8)]
  }

  /** `int(s, 8)` for a string made only of octal digits (the empty string
      reads as 0 here; callers reject it before). */
  function FromOctal(s: string): (n: nat)
    requires AllOctal(s)
  {
    if s == [] then 0 else FromOctal(s[..|s| - 1]) * 8 + DigitValue(s[|s| - 1])
  }

  /** Reading back the digits `format(n, 'o')` wrote gives `n`. */
  lemma {:induction false} FromToOctal(n: nat)
    ensures FromOctal(ToOctal(n)) == n
  {
    if n >= 8 {
      var s := ToOctal(n);
      assert s[..|s| - 1] == ToOctal(n / 8);
      FromToOctal(n / 8);
    }
  }

  /** A number below 8^k needs at most k octal digits. */
  lemma {:induction false} ToOctalLength(n: nat, k: nat)
    requires 1 <= k && n < Pow8(k)
    ensures |ToOctal(n)| <= k
  {
    if n >= 8 {
      ToOctalLength(n / 8, k - 1);
    }
  }

  function Zeros(k: nat): (z: string)
    ensures |z| == k && AllOctal(z)
    ensures forall i :: 0 <= i < k ==> z[i] == '0'
  {
    seq(k, _ => '0')
  }

  /** Left-pads `s` with `'0'` up to width `w`; longer strings are kept whole. */
  function ZeroPad(s: string, w: nat): (r: string)
    ensures |r| == if |s| < w then w else |s|
  {
    if |s| < w then Zeros(w - |s|) + s else s
  }

  /** Leading zeros do not change the value read. */
  lemma {:induction false} FromOctalLeadingZeros(k: nat, s: string)
    requires AllOctal(s)
    ensures AllOctal(Zeros(k) + s)
    ensures FromOctal(Zeros(k) + s) == FromOctal(s)
  {
    var z := Zeros(k) + s;
    if s == [] {
      assert z == Zeros(k);
      AllZerosReadZero(k);
    } else {
      assert z[..|z| - 1] == Zeros(k) + s[..|s| - 1];
      FromOctalLeadingZeros(k, s[..|s| - 1]);
    }
  }

  lemma {:induction false} AllZerosReadZero(k: nat)
    ensures FromOctal(Zeros(k)) == 0
  {
    if k > 0 {
      assert Zeros(k)[..k - 1] == Zeros(k - 1);
      AllZerosReadZero(k - 1);
    }
  }

  /** `format(n, '0<width>o')`, and `format(n, 'o')` for `width == 0`: a
      negative number is written as `'-'` followed by the digits of its
      magnitude, and the zero padding goes between sign and digits, the sign
      counting toward the width. */
  function Format(n: int, width: nat): (s: string)
    ensures 1 <= |s|
  {
    if n < 0 then "-" + ZeroPad(ToOctal(-n), if width == 0 then 0 else width - 1)
    else ZeroPad(ToOctal(n), width)
  }

  /** A non-negative number is written with octal digits only, fills
      exactly its width when it fits, and reads back as itself. */
  lemma FormatNonNegative(n: int, width: nat)
    requires 0 <= n
    ensures AllOctal(Format(n, width))
    ensures FromOctal(Format(n, width)) == n
    ensures var w := if width == 0 then 1 else width;
      n < Pow8(w) ==> |Format(n, width)| == w
  {
    var d := ToOctal(n);
    FromToOctal(n);
    if |d| < width {
      FromOctalLeadingZeros(width - |d|, d);
    }
    var w := if width == 0 then 1 else width;
    if n < Pow8(w) {
      ToOctalLength(n, w);
    }
  }

  /** `str.replace("-", "0")`. */
  function ReplaceMinus(s: string): (r: string)
    ensures |r| == |s|
  {
    seq(|s|, i requires 0 <= i < |s| => if s[i] == '-' then '0' else s[i])
  }

  lemma ReplaceMinusAppend(a: string, b: string)
    ensures ReplaceMinus(a + b) == ReplaceMinus(a) + ReplaceMinus(b)
  {
    assert forall i :: 0 <= i < |a + b| ==> ReplaceMinus(a + b)[i] == (ReplaceMinus(a) + ReplaceMinus(b))[i];
  }

  /** A year as the wire format writes it, `f"{year:o}"` with its minus sign
      replaced by a `'0'`: octal digits only, starting with `'0'` exactly when
      the year is not positive, and reading back as the year's magnitude. */
  lemma SignedField(y: int)
    ensures var f := ReplaceMinus(Format(y, 0));
      && 1 <= |f| && AllOctal(f)
      && (f[0] == '0' <==> y <= 0)
      && FromOctal(f) == if y < 0 then -y else y
  {
    if y < 0 {
      var d := ToOctal(-y);
      assert Format(y, 0) == "-" + d;
      ReplaceMinusAppend("-", d);
      ReplaceMinusOctal(d);
      assert ReplaceMinus(Format(y, 0)) == Zeros(1) + d;
      FromToOctal(-y);
      FromOctalLeadingZeros(1, d);
    } else {
      assert Format(y, 0) == ToOctal(y);
      ReplaceMinusOctal(ToOctal(y));
      FromToOctal(y);
    }
  }

  lemma ReplaceMinusOctal(s: string)
    requires AllOctal(s)
    ensures ReplaceMinus(s) == s
  {
  }
}
