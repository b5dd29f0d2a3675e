/** Timestamps as the site uses them: only the calendar date matters, and
    it is printed with Go's layout "2006-01-02". */
module Dates {
  import opened Text
  import opened Decimal

  type Year = y: int | 0 <= y <= 9999
  type Month = m: int | 1 <= m <= 12 witness 1
  type Day = d: int | 1 <= d <= 31 witness 1

  /** A `time.Time` reduced to its calendar date; clock time and zone play
      no part in anything the pipeline prints. */
  datatype Date = Date(year: Year, month: Month, day: Day)

  /** Go's zero `time.Time`: January 1 of year 1. */
  const ZeroDate: Date := Date(1, 1, 1)

  /** Chronological order of dates. */
  predicate Before(a: Date, b: Date) {
    || a.year < b.year
    || (a.year == b.year && a.month < b.month)
    || (a.year == b.year && a.month == b.month && a.day < b.day)
  }

  /** `t.Format("2006-01-02")`: four-digit year, two-digit month and day,
      all zero-padded. */
  function FormatDate(d: Date): (r: string)
    ensures |r| == 10 && r[4] == '-' && r[7] == '-'
    ensures AllDigits(r[..4]) && AllDigits(r[5..7]) && AllDigits(r[8..])
    ensures Value(r[..4]) == d.year && Value(r[5..7]) == d.month && Value(r[8..]) == d.day
  {
    var y, m, dd := ZeroPad(d.year, 4), ZeroPad(d.month, 2), ZeroPad(d.day, 2);
    var r := y + ("-" + (m + ("-" + dd)));
    assert r[..4] == y && r[5..7] == m && r[8..] == dd;
    r
  }

  lemma ZeroDateText()
    ensures FormatDate(ZeroDate) == "0001-01-01"
  {
    var r := FormatDate(ZeroDate);
    assert r[..4] == "0001" by {
      assert Value(r[..4]) == 1;
      WidthValueUnique(r[..4], "0001");
    }
    assert r[5..7] == "01" by {
      WidthValueUnique(r[5..7], "01");
    }
    assert r[8..] == "01" by {
      WidthValueUnique(r[8..], "01");
    }
    assert r == r[..4] + "-" + r[5..7] + "-" + r[8..];
  }

  /** Equal-width digit strings with the same value are the same text. */
  lemma WidthValueUnique(a: string, b: string)
    requires AllDigits(a) && AllDigits(b) && |a| == |b| && Value(a) == Value(b)
    ensures a == b
  {
    DigitsOrder(a, b);
  }

  /** Textual order of formatted dates is chronological order, and the
      format is injective: this is why the sitemap may compare date strings
      with `<`. */
  lemma FormatDateOrder(a: Date, b: Date)
    ensures LexLess(FormatDate(a), FormatDate(b)) <==> Before(a, b)
    ensures FormatDate(a) == FormatDate(b) <==> a == b
  {
    var ya, ma, da := ZeroPad(a.year, 4), ZeroPad(a.month, 2), ZeroPad(a.day, 2);
    var yb, mb, db := ZeroPad(b.year, 4), ZeroPad(b.month, 2), ZeroPad(b.day, 2);
    assert a.year < Pow10(4) && b.year < Pow10(4);
    assert a.month < Pow10(2) && b.month < Pow10(2);
    assert a.day < Pow10(2) && b.day < Pow10(2);
    DigitsOrder(ya, yb);
    DigitsOrder(ma, mb);
    DigitsOrder(da, db);
    LexLessIrreflexive("-");
    // day level
    LexLessConcat("-", da, "-", db);
    // month level
    LexLessConcat(ma, "-" + da, mb, "-" + db);
    LexLessConcat("-", ma + ("-" + da), "-", mb + ("-" + db));
    // year level
    LexLessConcat(ya, "-" + (ma + ("-" + da)), yb, "-" + (mb + ("-" + db)));
    assert FormatDate(a) == ya + ("-" + (ma + ("-" + da)));
    assert FormatDate(b) == yb + ("-" + (mb + ("-" + db)));
    if FormatDate(a) == FormatDate(b) {
      assert FormatDate(a)[..4] == FormatDate(b)[..4];
      assert FormatDate(a)[5..7] == FormatDate(b)[5..7];
      assert FormatDate(a)[8..] == FormatDate(b)[8..];
    }
  }
}
