/** The textual forms the calendar uses: decimal digits, the `Y-m-d` date
    (PHP's `format('Y-m-d')`, the key of calendar entries), PHP's notion of a
    falsy string, and ASCII upper-casing. */
module Text {
  import opened Options
  import opened Gregorian

  predicate IsDigit(c: char) {
    '0' <= c <= '9'
  }

  predicate AllDigits(s: string) {
    forall i :: 0 <= i < |s| ==> IsDigit(s[i])
  }

  function DigitChar(d: int): (c: char)
    requires 0 <= d <= 9
    ensures IsDigit(c) && DigitValue(c) == d
  {
    (('0' as int) + d) as char
  }

  function DigitValue(c: char): int {
    (c as int) - ('0' as int)
  }

  /** Decimal text of n, no leading zeros. */
  function NatText(n: nat): (s: string)
    ensures 1 <= |s| && AllDigits(s)
  {
    if n < 10 then [DigitChar(n)] else NatText(n / 10) + [DigitChar(n % 10)]
  }

  /** The number a string of digits denotes. */
  function DigitsValue(s: string): nat
    requires AllDigits(s)
  {
    if s == [] then 0
    else DigitsValue(s[..|s| - 1]) * 10 + DigitValue(s[|s| - 1])
  }

  /** Left-pads with '0' up to `width` characters. */
  function ZeroPad(s: string, width: nat): (r: string)
    requires AllDigits(s)
    ensures AllDigits(r) && |r| >= |s| && |r| >= width
    ensures DigitsValue(r) == DigitsValue(s)
    decreases width - |s|
  {
    if |s| >= width then s
    else
      LeadingZero(s);
      ZeroPad("0" + s, width)
  }

  lemma {:induction false} LeadingZero(s: string)
    requires AllDigits(s)
    ensures AllDigits("0" + s) && DigitsValue("0" + s) == DigitsValue(s)
    decreases |s|
  {
    if s != [] {
      var t := "0" + s;
      assert t[..|t| - 1] == "0" + s[..|s| - 1];
      LeadingZero(s[..|s| - 1]);
    }
  }

  lemma {:induction false} NatTextValue(n: nat)
    ensures DigitsValue(NatText(n)) == n
  {
    if n >= 10 {
      var s := NatText(n);
      assert s[..|s| - 1] == NatText(n / 10);
      NatTextValue(n / 10);
    }
  }

  /** PHP's `Y`: at least four digits, with a minus sign before year 0. */
  function YearText(y: int): (s: string)
    ensures |s| >= 4
  {
    (if y < 0 then "-" else "") + ZeroPad(NatText(if y < 0 then -y else y), 4)
  }

  /** PHP's `m`, `d` and `W`: two digits with a leading zero. */
  function TwoDigits(n: int): (s: string)
    requires 0 <= n <= 99
    ensures |s| == 2 && AllDigits(s) && DigitsValue(s) == n
  {
    var s := [DigitChar(n / 10), DigitChar(n % 10)];
    assert s[..1] == [DigitChar(n / 10)];
    assert DigitsValue(s[..1]) == n / 10 by {
      assert s[..1][..0] == [];
    }
    s
  }

  /** `format('Y-m-d')`. */
  function IsoDate(x: Date): string {
    YearText(x.year) + "-" + TwoDigits(x.month) + "-" + TwoDigits(x.day)
  }

  /** Reads a year written as YearText writes it. */
  function ParseYear(p: string): Option<int> {
    if |p| >= 2 && p[0] == '-' && AllDigits(p[1..]) then Some(-(DigitsValue(p[1..]) as int))
    else if |p| >= 1 && AllDigits(p) then Some(DigitsValue(p) as int)
    else None
  }

  /** Reads `Y-m-d` text back into its fields; None when it is not of that shape. */
  function ParseIsoDate(s: string): Option<Ymd> {
    if |s| < 7 then None
    else
      var n := |s|;
      var mm := s[n - 5..n - 3];
      var dd := s[n - 2..];
      var y := ParseYear(s[..n - 6]);
      if s[n - 6] == '-' && s[n - 3] == '-' && AllDigits(mm) && AllDigits(dd) && y.Some? then
        Some(Ymd(y.value, DigitsValue(mm), DigitsValue(dd)))
      else None
  }

  lemma YearTextRoundTrip(y: int)
    ensures ParseYear(YearText(y)) == Some(y)
  {
    var a := if y < 0 then -y else y;
    NatTextValue(a);
    var digits := ZeroPad(NatText(a), 4);
    if y < 0 {
      assert YearText(y)[1..] == digits;
    } else {
      assert YearText(y) == digits;
      assert IsDigit(digits[0]);
    }
  }

  /** Reading back the `Y-m-d` text of a date gives the date. */
  lemma IsoDateRoundTrip(x: Date)
    ensures ParseIsoDate(IsoDate(x)) == Some(x)
  {
    var s := IsoDate(x);
    var n := |s|;
    var ys := YearText(x.year);
    assert s[..n - 6] == ys;
    assert s[n - 5..n - 3] == TwoDigits(x.month);
    assert s[n - 2..] == TwoDigits(x.day);
    YearTextRoundTrip(x.year);
  }

  /** Distinct dates have distinct `Y-m-d` texts, so entries keyed by that text
      belong to exactly one date. */
  lemma IsoDateInjective(x: Date, z: Date)
    requires IsoDate(x) == IsoDate(z)
    ensures x == z
  {
    IsoDateRoundTrip(x);
    IsoDateRoundTrip(z);
  }

  /** PHP treats "" and "0" as false; `array_filter` drops such values. */
  predicate Truthy(s: string) {
    s != "" && s != "0"
  }

  /** A string field after `array_filter`: present only when truthy. */
  function Sparse(s: string): (r: Option<string>)
    ensures r.Some? <==> Truthy(s)
    ensures r.Some? ==> r.value == s
  {
    if Truthy(s) then Some(s) else None
  }

  /** An optional string field (`null` when unset) after `array_filter`. */
  function SparseOpt(s: Option<string>): (r: Option<string>)
    ensures r.Some? <==> s.Some? && Truthy(s.value)
    ensures r.Some? ==> r == s
  {
    if s.Some? then Sparse(s.value) else None
  }

  /** An integer field after `array_filter`: present only when non-zero. */
  function NonZero(n: int): (r: Option<int>)
    ensures r.Some? <==> n != 0
    ensures r.Some? ==> r.value == n
  {
    if n != 0 then Some(n) else None
  }

  /** `strtoupper` on ASCII letters. */
  function UpperChar(c: char): (u: char)
    ensures 'a' <= c <= 'z' ==> u as int == c as int - 32
    ensures !('a' <= c <= 'z') ==> u == c
  {
    if 'a' <= c <= 'z' then (c as int - 32) as char else c
  }

  function Upper(s: string): (r: string)
    ensures |r| == |s|
    ensures forall i :: 0 <= i < |s| ==> r[i] == UpperChar(s[i])
  {
    seq(|s|, i requires 0 <= i < |s| => UpperChar(s[i]))
  }
}
