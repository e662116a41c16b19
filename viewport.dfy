/**
 * The viewport option (webshot.py:23): the option string is lower-cased and
 * split on `x`; it must give exactly two parts, and `int()` must accept both.
 * `None` stands for the ValueError that then ends the program before any
 * browser is started.
 */
module Viewport {
  import opened Wrappers
  import opened Text

  const DefaultViewport: string := "1366x768"

  /**
   * CPython's default for `sys.set_int_max_str_digits`, which the program
   * leaves as it is: `int()` raises ValueError on a literal with more digits.
   */
  const MaxIntDigits: nat := 4300

  predicate IsDigit(c: char) {
    '0' <= c <= '9'
  }

  /**
   * The whitespace `int()` skips around a number. CPython maps non-ASCII
   * whitespace to a space but keeps ASCII characters as they are, and then
   * skips only the six C whitespace characters, so U+001C..U+001F, which
   * `str.isspace()` accepts, are refused here.
   */
  predicate IsIntSpace(c: char) {
    IsSpace(c) && !('\U{1C}' <= c <= '\U{1F}')
  }

  /** A base-10 literal as `int()` accepts it: digits, with single `_` allowed between two digits. */
  predicate IsDigitGroup(t: string) {
    && |t| > 0
    && IsDigit(t[0])
    && IsDigit(t[|t| - 1])
    && (forall i :: 0 <= i < |t| ==> IsDigit(t[i]) || t[i] == '_')
    && (forall i :: 0 <= i < |t| - 1 ==> t[i] == '_' ==> t[i + 1] != '_')
  }

  /** The number that a string of decimal digits denotes, most significant first. */
  function DigitsValue(d: string): nat
    requires forall i :: 0 <= i < |d| ==> IsDigit(d[i])
  {
    if d == [] then 0
    else
      assert IsDigit(d[|d| - 1]);
      DigitsValue(d[..|d| - 1]) * 10 + (d[|d| - 1] as int - '0' as int)
  }

  function ParseNatural(t: string): Option<nat> {
    if IsDigitGroup(t) && |Filter(IsDigit, t)| <= MaxIntDigits then Some(DigitsValue(Filter(IsDigit, t))) else None
  }

  predicate IsSigned(t: string) {
    |t| > 0 && (t[0] == '-' || t[0] == '+')
  }

  /** What `int()` accepts once the whitespace is stripped: an optional sign, then at most 4300 digits in groups. */
  predicate IsIntLiteral(t: string) {
    var digits := if IsSigned(t) then t[1..] else t;
    IsDigitGroup(digits) && |Filter(IsDigit, digits)| <= MaxIntDigits
  }

  /** `int(s)` for a string in base 10. */
  function ParseInt(s: string): (r: Option<int>)
    ensures r.Some? <==> IsIntLiteral(Trim(s, IsIntSpace))
    ensures r.Some? && Trim(s, IsIntSpace)[0] == '-' ==> r.value <= 0
    ensures r.Some? && Trim(s, IsIntSpace)[0] != '-' ==> r.value >= 0
  {
    var t := Trim(s, IsIntSpace);
    if |t| > 0 && (t[0] == '-' || t[0] == '+') then
      match ParseNatural(t[1..])
      case Some(n) => var v: int := if t[0] == '-' then -(n as int) else n; Some(v)
      case None => None
    else
      match ParseNatural(t)
      case Some(n) => Some(n)
      case None => None
  }

  function DigitChar(d: nat): (c: char)
    requires d < 10
    ensures IsDigit(c) && c as int - '0' as int == d
  {
    ('0' as int + d) as char
  }

  /** The decimal digits of `n`, as `str(n)` writes them. */
  function Decimal(n: nat): (d: string)
    ensures |d| > 0
    ensures forall i :: 0 <= i < |d| ==> IsDigit(d[i])
  {
    if n < 10 then [DigitChar(n)] else Decimal(n / 10) + [DigitChar(n % 10)]
  }

  function Abs(i: int): nat {
    if i < 0 then -i else i
  }

  /** `str(i)`. */
  function IntToString(i: int): (s: string)
    ensures forall k :: 0 <= k < |s| ==> IsDigit(s[k]) || s[k] == '-'
  {
    if i < 0 then "-" + Decimal(-i) else Decimal(i)
  }

  /** `w, h = (int(x) for x in spec.lower().split("x"))`. */
  function ParseViewport(spec: string): (r: Option<(int, int)>)
    ensures r.Some? ==> Count(Lower(spec), 'x') == 1
  {
    var parts := Split(Lower(spec), 'x');
    if |parts| != 2 then None
    else
      match (ParseInt(parts[0]), ParseInt(parts[1]))
      case (Some(w), Some(h)) => Some((w, h))
      case _ => None
  }

  lemma {:induction false} DecimalValue(n: nat)
    ensures DigitsValue(Decimal(n)) == n
  {
    if n >= 10 {
      var d := Decimal(n);
      DecimalValue(n / 10);
      assert d[..|d| - 1] == Decimal(n / 10);
    }
  }

  /** The digits `str` writes for a natural number read back as that number. */
  lemma DecimalParses(n: nat)
    requires |Decimal(n)| <= MaxIntDigits
    ensures ParseNatural(Decimal(n)) == Some(n)
  {
    var d := Decimal(n);
    FilterAll(IsDigit, d);
    DecimalValue(n);
    assert |Filter(IsDigit, d)| <= MaxIntDigits;
    assert IsDigitGroup(d);
  }

  /** `str(i)` has no whitespace around it for `int()` to skip. */
  lemma IntToStringUntrimmed(i: int)
    requires |Decimal(Abs(i))| <= MaxIntDigits
    ensures Trim(IntToString(i), IsIntSpace) == IntToString(i)
  {
    var s := IntToString(i);
    assert IsDigit(s[0]) || s[0] == '-';
    assert IsDigit(s[|s| - 1]);
    TrimIdentity(s, IsIntSpace);
  }

  /** An unsigned literal with nothing to trim parses to its value. */
  lemma ParseUnsigned(s: string, n: nat)
    requires Trim(s, IsIntSpace) == s
    requires ParseNatural(s) == Some(n)
    ensures ParseInt(s) == Some(n)
  {
    assert IsDigit(s[0]);
  }

  /** A literal `-d` with nothing to trim parses to minus the value of `d`. */
  lemma ParseNegative(s: string, n: nat)
    requires Trim(s, IsIntSpace) == s
    requires |s| > 0 && s[0] == '-' && ParseNatural(s[1..]) == Some(n)
    ensures ParseInt(s) == Some(-(n as int))
  {
  }

  /** `int` reads back what `str` writes, up to the 4300 digits `int` accepts. */
  lemma IntRoundTrip(i: int)
    requires |Decimal(Abs(i))| <= MaxIntDigits
    ensures ParseInt(IntToString(i)) == Some(i)
  {
    var s := IntToString(i);
    var n := Abs(i);
    IntToStringUntrimmed(i);
    DecimalParses(n);
    if i < 0 {
      assert s[1..] == Decimal(n);
      ParseNegative(s, n);
    } else {
      assert s == Decimal(n);
      ParseUnsigned(s, n);
    }
  }

  /** A literal of more than 4300 digits is refused, however well formed. */
  lemma LongLiteralRefused(t: string)
    requires |t| > MaxIntDigits && forall i :: 0 <= i < |t| ==> IsDigit(t[i])
    ensures ParseInt(t) == None
  {
    assert !IsIntSpace(t[0]) && !IsIntSpace(t[|t| - 1]);
    TrimIdentity(t, IsIntSpace);
    FilterAll(IsDigit, t);
    assert !IsSigned(t);
  }

  lemma {:induction false} CountConcat(a: string, b: string, c: char)
    ensures Count(a + b, c) == Count(a, c) + Count(b, c)
  {
    if a == [] {
      assert a + b == b;
    } else {
      assert (a + b)[1..] == a[1..] + b;
      CountConcat(a[1..], b, c);
    }
  }

  lemma {:induction false} CountPresent(s: string, c: char)
    requires c in s
    ensures Count(s, c) >= 1
  {
    if s[0] != c {
      CountPresent(s[1..], c);
    }
  }

  /**
   * With the lower-cased option written as `a + "x" + b`, parsing gives
   * `(w, h)` exactly when neither side holds another `x` and `int()`
   * reads `w` from the left side and `h` from the right side.
   */
  lemma ParseViewportSides(spec: string, a: string, b: string, w: int, h: int)
    requires Lower(spec) == a + "x" + b
    ensures ParseViewport(spec) == Some((w, h)) <==>
      'x' !in a && 'x' !in b && ParseInt(a) == Some(w) && ParseInt(b) == Some(h)
  {
    if 'x' !in a && 'x' !in b {
      assert Join([a, b], 'x') == a + "x" + b by {
        assert Join([a, b][1..], 'x') == b;
      }
      SplitJoin([a, b], 'x');
    } else {
      CountConcat(a + "x", b, 'x');
      CountConcat(a, "x", 'x');
      if 'x' in a {
        CountPresent(a, 'x');
      } else {
        CountPresent(b, 'x');
      }
    }
  }

  /** `X` is accepted as the separator, because the option is lower-cased first. */
  lemma UpperSeparatorAccepted(a: string, b: string)
    ensures ParseViewport(a + "X" + b) == ParseViewport(a + "x" + b)
  {
    var upper, lower := a + "X" + b, a + "x" + b;
    assert forall i :: 0 <= i < |upper| ==> LowerChar(upper[i]) == LowerChar(lower[i]);
    assert Lower(upper) == Lower(lower);
  }

  /** Any `WIDTHxHEIGHT` written with `str` parses back to that width and height, up to 4300 digits each. */
  lemma ViewportRoundTrip(w: int, h: int)
    requires |Decimal(Abs(w))| <= MaxIntDigits && |Decimal(Abs(h))| <= MaxIntDigits
    ensures ParseViewport(IntToString(w) + "x" + IntToString(h)) == Some((w, h))
  {
    var a, b := IntToString(w), IntToString(h);
    var s := a + "x" + b;
    assert forall k :: 0 <= k < |s| ==> IsDigit(s[k]) || s[k] == '-' || s[k] == 'x';
    assert Lower(s) == s;
    assert 'x' !in a && 'x' !in b;
    IntRoundTrip(w);
    IntRoundTrip(h);
    ParseViewportSides(a + "x" + b, a, b, w, h);
  }

  /** The default option gives a 1366 by 768 viewport. */
  lemma DefaultViewportParses()
    ensures ParseViewport(DefaultViewport) == Some((1366, 768))
  {
    assert Decimal(1366) == "1366" by {
      assert DigitChar(1) == '1' && DigitChar(3) == '3' && DigitChar(6) == '6';
      assert Decimal(13) == "13";
      assert Decimal(136) == "136";
    }
    assert Decimal(768) == "768" by {
      assert DigitChar(7) == '7' && DigitChar(6) == '6' && DigitChar(8) == '8';
      assert Decimal(76) == "76";
    }
    assert IntToString(1366) + "x" + IntToString(768) == DefaultViewport;
    ViewportRoundTrip(1366, 768);
  }
}
