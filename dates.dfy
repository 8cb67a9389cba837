/** Calendar dates as the inventory stores them: `YYYY-MM-DD` strings, the
    form Python's `str(date)` and `strftime("%Y-%m-%d")` produce. The point of
    this module is that comparing two such strings with `<` compares the
    dates, which is what the overdue filter relies on. */
module Dates {
  import opened Text

  datatype Date = Date(year: int, month: int, day: int)

  /** The ranges of Python's `date` fields (month lengths are not checked;
      nothing below depends on them). */
  predicate Valid(d: Date)
  {
    1 <= d.year <= 9999 && 1 <= d.month <= 12 && 1 <= d.day <= 31
  }

  /** Chronological order: by year, then month, then day. */
  predicate Before(d: Date, e: Date)
  {
    d.year < e.year || (d.year == e.year && (d.month < e.month || (d.month == e.month && d.day < e.day)))
  }

  /** A well-formed `YYYY-MM-DD` string. */
  predicate IsIsoDate(s: string)
  {
    |s| == 10 && AllDigits(s[..4]) && s[4] == '-' && AllDigits(s[5..7]) && s[7] == '-' && AllDigits(s[8..])
  }

  /** The date an ISO string denotes. */
  function ParseIso(s: string): Date
    requires IsIsoDate(s)
  {
    Date(Value(s[..4]), Value(s[5..7]), Value(s[8..]))
  }

  /** Python's `str(d)` for a `date`: `'%04d-%02d-%02d'`. The result is a
      well-formed ISO string that parses back to d. */
  function FormatIso(d: Date): (s: string)
    requires Valid(d)
    ensures IsIsoDate(s) && ParseIso(s) == d
  {
    var s := Pad(d.year, 4) + "-" + Pad(d.month, 2) + "-" + Pad(d.day, 2);
    assert s[..4] == Pad(d.year, 4) && s[5..7] == Pad(d.month, 2) && s[8..] == Pad(d.day, 2);
    ValueOfPad(d.year, 4);
    ValueOfPad(d.month, 2);
    ValueOfPad(d.day, 2);
    s
  }

  /** An ISO string splits into its three digit fields and two dashes. */
  lemma IsoParts(s: string)
    requires IsIsoDate(s)
    ensures s == s[..4] + ([s[4]] + (s[5..7] + ([s[7]] + s[8..])))
  {
  }

  /** Parsing an ISO string that denotes a valid date and formatting the
      result gives the string back. */
  lemma FormatParse(s: string)
    requires IsIsoDate(s) && Valid(ParseIso(s))
    ensures FormatIso(ParseIso(s)) == s
  {
    var y, m, d := s[..4], s[5..7], s[8..];
    PadOfValue(y);
    PadOfValue(m);
    PadOfValue(d);
    calc {
      FormatIso(ParseIso(s));
      Pad(Value(y), 4) + "-" + Pad(Value(m), 2) + "-" + Pad(Value(d), 2);
      y + "-" + m + "-" + d;
      { IsoParts(s); }
      s;
    }
  }

  /** String order on well-formed ISO dates is chronological order. */
  lemma IsoOrder(a: string, b: string)
    requires IsIsoDate(a) && IsIsoDate(b)
    ensures LexLess(a, b) <==> Before(ParseIso(a), ParseIso(b))
  {
    IsoParts(a);
    IsoParts(b);
    DigitsOrder(a[..4], b[..4]);
    DigitsOrder(a[5..7], b[5..7]);
    DigitsOrder(a[8..], b[8..]);
    assert !LexLess([a[4]], [b[4]]) && !LexLess([a[7]], [b[7]]);
    LexLessAppend(a[..4], [a[4]] + (a[5..7] + ([a[7]] + a[8..])), b[..4], [b[4]] + (b[5..7] + ([b[7]] + b[8..])));
    LexLessAppend([a[4]], a[5..7] + ([a[7]] + a[8..]), [b[4]], b[5..7] + ([b[7]] + b[8..]));
    LexLessAppend(a[5..7], [a[7]] + a[8..], b[5..7], [b[7]] + b[8..]);
    LexLessAppend([a[7]], a[8..], [b[7]], b[8..]);
  }

  /** Comparing the `str` forms of two valid dates compares the dates. */
  lemma FormattedOrder(d: Date, e: Date)
    requires Valid(d) && Valid(e)
    ensures LexLess(FormatIso(d), FormatIso(e)) <==> Before(d, e)
  {
    IsoOrder(FormatIso(d), FormatIso(e));
  }
}
