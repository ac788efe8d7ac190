/** Calendar dates as Python's `datetime.date` holds them: a proleptic
    Gregorian year in 1..9999, a month and a day of that month. */
module Dates {
  import opened Common
  import opened Text

  datatype Date = Date(year: int, month: int, day: int)

  predicate IsLeapYear(y: int) {
    y % 4 == 0 && (y % 100 != 0 || y % 400 == 0)
  }

  function DaysInMonth(y: int, m: int): (n: int)
    requires 1 <= m <= 12
    ensures 28 <= n <= 31
  {
    if m == 2 then (if IsLeapYear(y) then 29 else 28)
    else if m == 4 || m == 6 || m == 9 || m == 11 then 30
    else 31
  }

  /** The dates `datetime.date` can represent. */
  predicate ValidDate(d: Date) {
    && 1 <= d.year <= 9999
    && 1 <= d.month <= 12
    && 1 <= d.day <= DaysInMonth(d.year, d.month)
  }

  /** `a < b` on dates: chronological, i.e. lexicographic on (year, month, day). */
  predicate Before(a: Date, b: Date) {
    a.year < b.year
    || (a.year == b.year && a.month < b.month)
    || (a.year == b.year && a.month == b.month && a.day < b.day)
  }

  /** `str(d)`, i.e. `d.isoformat()`: "YYYY-MM-DD". */
  function IsoFormat(d: Date): (r: string)
    requires ValidDate(d)
    ensures |r| == 10 && r[4] == '-' && r[7] == '-'
  {
    Padded(d.year, 4) + "-" + Padded(d.month, 2) + "-" + Padded(d.day, 2)
  }

  predicate IsoShaped(s: string) {
    && |s| == 10 && s[4] == '-' && s[7] == '-'
    && (forall i :: 0 <= i < 4 ==> IsDigit(s[i]))
    && (forall i :: 5 <= i < 7 ==> IsDigit(s[i]))
    && (forall i :: 8 <= i < 10 ==> IsDigit(s[i]))
  }

  /** `date.fromisoformat(s)` for the "YYYY-MM-DD" form: the reference
      reading of what `IsoFormat` writes. */
  function ParseIso(s: string): (r: Option<Date>)
    ensures r.Some? ==> ValidDate(r.value)
  {
    if !IsoShaped(s) then None
    else
      var d := Date(Decimal(s[..4]), Decimal(s[5..7]), Decimal(s[8..]));
      if ValidDate(d) then Some(d) else None
  }

  /** Every digit string of width `w` is the padded form of its value. */
  lemma {:induction false} PaddedDecimal(s: string)
    requires forall i :: 0 <= i < |s| ==> IsDigit(s[i])
    ensures Padded(Decimal(s), |s|) == s
  {
    if s != [] {
      var n := Decimal(s);
      var init := s[..|s| - 1];
      PaddedDecimal(init);
      assert n / 10 == Decimal(init);
      assert n % 10 == DigitValue(s[|s| - 1]);
      assert s == init + [s[|s| - 1]];
    }
  }

  /** Formatting then parsing gives back the date. */
  lemma IsoRoundTrip(d: Date)
    requires ValidDate(d)
    ensures ParseIso(IsoFormat(d)) == Some(d)
  {
    var s := IsoFormat(d);
    assert s[..4] == Padded(d.year, 4);
    assert s[5..7] == Padded(d.month, 2);
    assert s[8..] == Padded(d.day, 2);
    DecimalPadded(d.year, 4);
    DecimalPadded(d.month, 2);
    DecimalPadded(d.day, 2);
  }

  /** A "YYYY-MM-DD"-shaped text is its three digit groups joined by dashes. */
  lemma IsoSplit(s: string)
    requires |s| == 10 && s[4] == '-' && s[7] == '-'
    ensures s == s[..4] + "-" + s[5..7] + "-" + s[8..]
  {
    var t := s[..4] + "-" + s[5..7] + "-" + s[8..];
    assert |t| == 10;
    forall i | 0 <= i < 10 ensures s[i] == t[i] {
    }
  }

  /** Parsing then formatting gives back the text: the "YYYY-MM-DD" text of
      a date is unique. */
  lemma ParseThenFormat(s: string)
    requires ParseIso(s).Some?
    ensures IsoFormat(ParseIso(s).value) == s
  {
    assert IsoShaped(s);
    var y, m, d := s[..4], s[5..7], s[8..];
    assert forall i :: 0 <= i < 4 ==> y[i] == s[i];
    assert forall i :: 0 <= i < 2 ==> m[i] == s[i + 5] && d[i] == s[i + 8];
    PaddedDecimal(y);
    PaddedDecimal(m);
    PaddedDecimal(d);
    var date := Date(Decimal(y), Decimal(m), Decimal(d));
    assert ParseIso(s) == Some(date);
    assert IsoFormat(date) == y + "-" + m + "-" + d;
    IsoSplit(s);
  }

  /** Distinct dates have distinct texts. */
  lemma IsoFormatInjective(a: Date, b: Date)
    requires ValidDate(a) && ValidDate(b)
    ensures IsoFormat(a) == IsoFormat(b) <==> a == b
  {
    IsoRoundTrip(a);
    IsoRoundTrip(b);
  }

  /** `Before` is a strict total order on dates. */
  lemma BeforeIsStrictTotalOrder(a: Date, b: Date, c: Date)
    ensures !Before(a, a)
    ensures Before(a, b) && Before(b, c) ==> Before(a, c)
    ensures a == b || Before(a, b) || Before(b, a)
    ensures !(Before(a, b) && Before(b, a))
  {
  }
}
