/** One episode record from one parsed feed item (`CreateFromItem`), and the
    normalisation of its duration field (`NormalizeDuration`). */
module EpisodeBuilder {
  import opened Wrappers
  import opened Decimal
  import opened Dates
  import Clean
  import HtmlGen

  /** The iTunes extension of a feed item; only its duration is used. */
  datatype ITunesExt = ITunesExt(duration: string)

  /** The fields of a parsed feed item the site reads. `publishedParsed` is
      None when the feed parser could not read the date. */
  datatype Item = Item(
    title: string,
    description: string,
    link: string,
    published: string,
    publishedParsed: Option<Date>,
    iTunesExt: Option<ITunesExt>)

  datatype Episode = Episode(
    title: string,
    description: string,
    published: Date,
    publishedStr: string,
    link: string,
    duration: string)

  /** Duration shown when the feed gives none ("unknown"). */
  const Unknown: string := "unbekannt"

  /** The largest int64, the bound of `strconv.ParseInt(_, 10, 64)`. */
  const MaxInt64: nat := 0x7FFF_FFFF_FFFF_FFFF

  /** RE2's `\s`: tab, newline, form feed, carriage return and space. */
  predicate IsSpace(c: char) {
    c == '\t' || c == '\n' || c as int == 12 || c == '\r' || c == ' '
  }

  /** `s[lo..hi]` is all `\s`. */
  predicate SpacesIn(s: string, lo: nat, hi: nat)
    requires lo <= hi <= |s|
  {
    forall k :: lo <= k < hi ==> IsSpace(s[k])
  }

  /** `s[lo..hi]` is all `\d`. */
  predicate DigitsIn(s: string, lo: nat, hi: nat)
    requires lo <= hi <= |s|
  {
    forall k :: lo <= k < hi ==> IsDigit(s[k])
  }

  /** Where the leading `\s*` of `s[k..]` ends: the first non-space at or
      after `k`, or the end. */
  function SkipSpaces(s: string, k: nat): (i: nat)
    requires k <= |s|
    ensures k <= i <= |s| && SpacesIn(s, k, i)
    ensures i == |s| || !IsSpace(s[i])
    decreases |s| - k
  {
    if k < |s| && IsSpace(s[k]) then SkipSpaces(s, k + 1) else k
  }

  /** Where the trailing `\s*` of `s[lo..hi]` starts: just after the last
      non-space, or `lo`. */
  function SkipSpacesBack(s: string, lo: nat, hi: nat): (j: nat)
    requires lo <= hi <= |s|
    ensures lo <= j <= hi && SpacesIn(s, j, hi)
    ensures j == lo || !IsSpace(s[j - 1])
    decreases hi
  {
    if hi > lo && IsSpace(s[hi - 1]) then SkipSpacesBack(s, lo, hi - 1) else hi
  }

  /** The whole of `s` matches `^\s*(\d+)\s*$` with the group at `s[i..j]`. */
  predicate SecondsMatch(s: string, i: nat, j: nat) {
    && i < j <= |s|
    && SpacesIn(s, 0, i)
    && DigitsIn(s, i, j)
    && SpacesIn(s, j, |s|)
  }

  /** The captured digits of `^\s*(\d+)\s*$`, or None if `s` does not match. */
  function MatchSeconds(s: string): (r: Option<string>)
    ensures r.Some? ==> |r.value| > 0 && AllDigits(r.value)
  {
    var i := SkipSpaces(s, 0);
    var j := SkipSpacesBack(s, i, |s|);
    if i < j && DigitsIn(s, i, j) then
      assert forall k :: 0 <= k < j - i ==> s[i..j][k] == s[i + k];
      Some(s[i..j])
    else None
  }

  /** `MatchSeconds` finds exactly the regular expression's matches. */
  lemma MatchSecondsIff(s: string, d: string)
    ensures MatchSeconds(s) == Some(d) <==> exists i: nat, j: nat :: SecondsMatch(s, i, j) && d == s[i..j]
  {
    var i := SkipSpaces(s, 0);
    var j := SkipSpacesBack(s, i, |s|);
    if MatchSeconds(s) == Some(d) {
      assert SecondsMatch(s, i, j);
    }
    if exists i': nat, j': nat :: SecondsMatch(s, i', j') && d == s[i'..j'] {
      var i': nat, j': nat :| SecondsMatch(s, i', j') && d == s[i'..j'];
      MatchSecondsUnique(s, i', j');
    }
  }

  /** A match fixes the group: the first non-space starts it and the last
      non-space ends it. */
  lemma MatchSecondsUnique(s: string, i: nat, j: nat)
    requires SecondsMatch(s, i, j)
    ensures MatchSeconds(s) == Some(s[i..j])
  {
    assert IsDigit(s[i]) && IsDigit(s[j - 1]);
    SkipSpacesAt(s, 0, i);
    SkipSpacesBackAt(s, i, |s|, j);
  }

  /** Skipping forward from `k` stops at the first non-space `i`. */
  lemma {:induction false} SkipSpacesAt(s: string, k: nat, i: nat)
    requires k <= i <= |s| && SpacesIn(s, k, i) && (i == |s| || !IsSpace(s[i]))
    ensures SkipSpaces(s, k) == i
    decreases i - k
  {
    if k < i {
      SkipSpacesAt(s, k + 1, i);
    }
  }

  /** Skipping backward from `hi` stops right after the last non-space. */
  lemma {:induction false} SkipSpacesBackAt(s: string, lo: nat, hi: nat, j: nat)
    requires lo <= j <= hi <= |s| && SpacesIn(s, j, hi) && (j == lo || !IsSpace(s[j - 1]))
    ensures SkipSpacesBack(s, lo, hi) == j
    decreases hi - j
  {
    if j < hi {
      SkipSpacesBackAt(s, lo, hi - 1, j);
    }
  }

  /** The three fields of an `H:MM:SS` duration. */
  datatype ClockFields = ClockFields(hours: nat, minutes: nat, seconds: nat)

  /** Reads an `H:MM:SS` string back: hour digits, colon, two minute digits,
      colon, two second digits. */
  function ParseClock(r: string): Option<ClockFields> {
    if |r| >= 7 && r[|r| - 6] == ':' && r[|r| - 3] == ':' then
      var hs, ms, ss := r[..|r| - 6], r[|r| - 5..|r| - 3], r[|r| - 2..];
      if AllDigits(hs) && AllDigits(ms) && AllDigits(ss) then
        Some(ClockFields(Value(hs), Value(ms), Value(ss)))
      else None
    else None
  }

  /** `fmt.Sprintf("%0d:%02d:%02d", h, m, s)` of a number of seconds. The
      text reads back as minutes and seconds below 60 that add up, with the
      hours, to the total; the hours carry no leading zero. */
  function ClockText(total: nat): (r: string)
    ensures ParseClock(r).Some?
    ensures var c := ParseClock(r).value;
      && c.hours * 3600 + c.minutes * 60 + c.seconds == total
      && c.minutes < 60 && c.seconds < 60
    ensures |r| == 7 || r[0] != '0'
  {
    var sec := total % 60;
    var totalM := total / 60;
    var m := totalM % 60;
    var h := totalM / 60;
    ClockArithmetic(total);
    var hs, ms, ss := NatToString(h), ZeroPad(m, 2), ZeroPad(sec, 2);
    assert m < Pow10(2) && sec < Pow10(2);
    ParseClockJoin(hs, ms, ss);
    hs + ":" + ms + ":" + ss
  }

  /** Seconds split into hours, minutes below 60 and seconds below 60. */
  lemma ClockArithmetic(total: nat)
    ensures total % 60 < 60 && (total / 60) % 60 < 60
    ensures (total / 60 / 60) * 3600 + ((total / 60) % 60) * 60 + total % 60 == total
  {
    var totalM := total / 60;
    assert total == totalM * 60 + total % 60;
    assert totalM == (totalM / 60) * 60 + totalM % 60;
  }

  /** Joining hour digits and two two-digit fields with colons reads back. */
  lemma ParseClockJoin(hs: string, ms: string, ss: string)
    requires |hs| >= 1 && |ms| == 2 && |ss| == 2
    requires AllDigits(hs) && AllDigits(ms) && AllDigits(ss)
    ensures ParseClock(hs + ":" + ms + ":" + ss) == Some(ClockFields(Value(hs), Value(ms), Value(ss)))
  {
    var n := |hs|;
    var r := hs + ":" + ms + ":" + ss;
    assert r[..n] == hs;
    assert r[n + 1..n + 3] == ms;
    assert r[n + 4..] == ss;
    assert |r| == n + 6 && r[n] == ':' && r[n + 3] == ':';
    assert r[..|r| - 6] == hs && r[|r| - 5..|r| - 3] == ms && r[|r| - 2..] == ss;
  }

  /** `NormalizeDuration`: a whitespace-padded count of seconds that fits an
      int64 becomes `H:MM:SS`; anything else is returned unchanged. */
  function NormalizeDuration(s: string): (r: string)
    ensures MatchSeconds(s).None? ==> r == s
    ensures MatchSeconds(s).Some? && Value(MatchSeconds(s).value) > MaxInt64 ==> r == s
    ensures MatchSeconds(s).Some? && Value(MatchSeconds(s).value) <= MaxInt64 ==>
      && ParseClock(r).Some?
      && var c := ParseClock(r).value;
      && c.hours * 3600 + c.minutes * 60 + c.seconds == Value(MatchSeconds(s).value)
      && c.minutes < 60 && c.seconds < 60
  {
    match MatchSeconds(s)
    case None => s
    case Some(digits) =>
      var total := Value(digits);
      if total <= MaxInt64 then ClockText(total) else s
  }

  /** A digit string too long for an int64 makes `ParseInt` fail, so it is
      passed through. */
  lemma NormalizeDurationOverflow(d: string)
    requires AllDigits(d) && |d| >= 20 && d[0] != '0'
    ensures NormalizeDuration(d) == d
  {
    MatchWholeDigits(d);
    ValueLeadingDigit(d);
    Pow10Monotone(19, |d| - 1);
    Pow10Nineteen();
  }

  lemma MatchWholeDigits(d: string)
    requires AllDigits(d) && |d| > 0
    ensures MatchSeconds(d) == Some(d)
  {
    assert d[0..|d|] == d;
    MatchSecondsUnique(d, 0, |d|);
  }

  /** A number without leading zero is at least 10^(digits - 1). */
  lemma ValueLeadingDigit(d: string)
    requires AllDigits(d) && |d| > 0 && d[0] != '0'
    ensures Value(d) >= Pow10(|d| - 1)
  {
    ValueConcat([d[0]], d[1..]);
    assert [d[0]] + d[1..] == d;
    assert [d[0]][..0] == [];
    assert Value([d[0]]) == DigitValue(d[0]) >= 1;
  }

  lemma Pow10Nineteen()
    ensures Pow10(19) > MaxInt64
  {
    assert Pow10(5) == 100000;
    assert Pow10(10) == 10000000000;
    assert Pow10(15) == 1000000000000000;
  }

  lemma {:induction false} Pow10Monotone(a: nat, b: nat)
    requires a <= b
    ensures Pow10(a) <= Pow10(b)
    decreases b
  {
    if a < b {
      Pow10Monotone(a, b - 1);
    }
  }

  /** Digits that fit an int64 are printed as a clock. */
  lemma NormalizeDurationDigits(s: string, d: string, n: nat)
    requires MatchSeconds(s) == Some(d) && Value(d) == n && n <= MaxInt64
    ensures NormalizeDuration(s) == ClockText(n)
  {
  }

  /** Text the regular expression rejects is returned unchanged. */
  lemma NormalizeDurationNoMatch(s: string)
    requires MatchSeconds(s) == None
    ensures NormalizeDuration(s) == s
  {
  }

  lemma Value125()
    ensures Value("125") == 125
  {
    assert "125"[..2] == "12";
    assert "12"[..1] == "1";
    assert "1"[..0] == "";
  }

  lemma Value3661()
    ensures Value("3661") == 3661
  {
    assert "3661"[..3] == "366";
    assert "366"[..2] == "36";
    assert "36"[..1] == "3";
    assert "3"[..0] == "";
  }

  lemma Clock125()
    ensures ClockText(125) == "0:02:05"
  {
    assert 125 % 60 == 5 && 125 / 60 == 2 && 2 % 60 == 2 && 2 / 60 == 0;
    SmallNumber(0);
    SmallPadded(2);
    SmallPadded(5);
  }

  lemma Clock3661()
    ensures ClockText(3661) == "1:01:01"
  {
    assert 3661 % 60 == 1 && 3661 / 60 == 61 && 61 % 60 == 1 && 61 / 60 == 1;
    SmallNumber(1);
    SmallPadded(1);
  }

  /** A single digit prints as itself ... */
  lemma SmallNumber(n: nat)
    requires n < 10
    ensures NatToString(n) == [DigitChar(n)]
  {
  }

  /** ... and padded to two digits it gets one leading zero. */
  lemma SmallPadded(n: nat)
    requires n < 10
    ensures ZeroPad(n, 2) == ['0', DigitChar(n)]
  {
    assert Zeros(1) == ['0'];
  }

  lemma MatchPadded()
    ensures MatchSeconds(" 125\n") == Some("125")
  {
    var s := " 125\n";
    assert s[1..4] == "125";
    MatchSecondsUnique(s, 1, 4);
  }

  /** Text that starts and ends with a non-space and holds a non-digit
      does not match. */
  lemma NoMatchAt(s: string, k: nat)
    requires 0 < |s| && !IsSpace(s[0]) && !IsSpace(s[|s| - 1])
    requires k < |s| && !IsDigit(s[k])
    ensures MatchSeconds(s) == None
  {
    SkipSpacesAt(s, 0, 0);
    SkipSpacesBackAt(s, 0, |s|, |s|);
  }

  lemma NoMatchExamples()
    ensures MatchSeconds("1:02:03") == None
    ensures MatchSeconds("") == None
    ensures MatchSeconds(Unknown) == None
  {
    NoMatchAt("1:02:03", 1);
    NoMatchAt(Unknown, 0);
  }

  /** Seconds become `H:MM:SS`. */
  lemma NormalizeDurationExample()
    ensures NormalizeDuration("125") == "0:02:05"
  {
    MatchWholeDigits("125");
    Value125();
    Clock125();
  }

  /** Whitespace around the seconds is ignored. */
  lemma NormalizeDurationPaddedExample()
    ensures NormalizeDuration(" 125\n") == "0:02:05"
  {
    MatchPadded();
    Value125();
    Clock125();
  }

  /** More than an hour carries into the hour field. */
  lemma NormalizeDurationHourExample()
    ensures NormalizeDuration("3661") == "1:01:01"
  {
    MatchWholeDigits("3661");
    Value3661();
    Clock3661();
  }

  /** Durations already in clock form, the empty string and the fallback
      text pass through. */
  lemma NormalizeDurationPassThrough()
    ensures NormalizeDuration("1:02:03") == "1:02:03"
    ensures NormalizeDuration("") == ""
    ensures NormalizeDuration(Unknown) == Unknown
  {
    NoMatchExamples();
    NormalizeDurationNoMatch("1:02:03");
    NormalizeDurationNoMatch("");
    NormalizeDurationNoMatch(Unknown);
  }

  /** `CreateFromItem`: title and link are copied; the description is
      cleaned, then rendered; a missing date becomes the zero time with the
      raw text kept for display; a missing duration becomes "unbekannt". */
  function CreateFromItem(markdown: string -> string, item: Item): (e: Episode)
    ensures e.title == item.title && e.link == item.link
    ensures e.description == HtmlGen.CreateHTML(markdown, Clean.CleanDescription(item.description))
    ensures item.publishedParsed.None? ==> e.published == ZeroDate && e.publishedStr == item.published
    ensures item.publishedParsed.Some? ==>
      && e.published == item.publishedParsed.value
      && e.publishedStr == FormatDate(e.published)
    ensures item.iTunesExt.None? ==> e.duration == Unknown
    ensures item.iTunesExt.Some? ==> e.duration == NormalizeDuration(item.iTunesExt.value.duration)
  {
    var published := if item.publishedParsed.Some? then item.publishedParsed.value else ZeroDate;
    var publishedStr := if item.publishedParsed.Some? then FormatDate(published) else item.published;
    var duration := if item.iTunesExt.Some? then item.iTunesExt.value.duration else Unknown;
    NormalizeDurationPassThrough();
    Episode(
      item.title,
      HtmlGen.CreateHTML(markdown, Clean.CleanDescription(item.description)),
      published,
      publishedStr,
      item.link,
      NormalizeDuration(duration))
  }
}
