/** Slug generation (`SanitizeName`): display name to URL path segment. */
module Sanitize {
  import opened Text

  /** The Unicode tables the sanitiser borrows from Go's libraries, per rune:
      `lower` is `unicode.ToLower`; `strip` is canonical decomposition (NFD)
      followed by the removal of non-spacing marks (category Mn). */
  datatype Folding = Folding(lower: char -> char, strip: char -> string)

  predicate IsAsciiUpper(c: char) {
    'A' <= c <= 'Z'
  }

  function AsciiLower(c: char): char {
    if IsAsciiUpper(c) then (c as int + 32) as char else c
  }

  /** What the real tables do on the characters the proofs care about:
      ASCII lowercases in the usual way and never decomposes, and the
      lowercase umlauts and eszett are their own lowercase. */
  predicate ActsLikeUnicode(u: Folding) {
    && (forall c: char :: c as int < 128 ==> u.lower(c) == AsciiLower(c))
    && (forall c: char :: c as int < 128 ==> u.strip(c) == [c])
    && u.lower('ä') == 'ä' && u.lower('ö') == 'ö' && u.lower('ü') == 'ü' && u.lower('ß') == 'ß'
  }

  /** The characters the final scan keeps. */
  predicate IsAlnum(c: char) {
    'a' <= c <= 'z' || '0' <= c <= '9'
  }

  predicate IsSlugChar(c: char) {
    IsAlnum(c) || c == '-'
  }

  /** A well-formed slug: letters, digits and single interior hyphens. */
  predicate IsSlug(s: string) {
    && (forall i :: 0 <= i < |s| ==> IsSlugChar(s[i]))
    && (s != [] ==> s[0] != '-' && s[|s| - 1] != '-')
    && (forall i :: 0 <= i < |s| - 1 ==> !(s[i] == '-' && s[i + 1] == '-'))
  }

  predicate HasAlnum(s: string) {
    exists i :: 0 <= i < |s| && IsAlnum(s[i])
  }

  /** The letters and digits of `s`, in order. */
  function Alnums(s: string): (r: string)
    ensures |r| <= |s|
  {
    if s == [] then []
    else Alnums(s[..|s| - 1]) + (if IsAlnum(s[|s| - 1]) then [s[|s| - 1]] else [])
  }

  /** `strings.ToLower`, rune by rune. */
  function Lower(u: Folding, s: string): (r: string)
    ensures |r| == |s|
    ensures forall i :: 0 <= i < |s| ==> r[i] == u.lower(s[i])
  {
    if s == [] then [] else [u.lower(s[0])] + Lower(u, s[1..])
  }

  predicate IsUmlaut(c: char) {
    c == 'ä' || c == 'ö' || c == 'ü' || c == 'ß'
  }

  /** The four German spellings, in source order. They run before anything
      could strip the umlauts, and none of the four letters is left. */
  function SpellOutUmlauts(s: string): (r: string)
    ensures forall c :: IsUmlaut(c) ==> c !in r
  {
    var s1 := ReplaceAll(s, "ä", "ae");
    var s2 := ReplaceAll(s1, "ö", "oe");
    var s3 := ReplaceAll(s2, "ü", "ue");
    ReplaceAllSingleChar(s, 'ä', "ae");
    ExpandCharRemoves(s, 'ä', "ae");
    ReplaceAllChars(s1, "ö", "oe", 'ä');
    ReplaceAllSingleChar(s1, 'ö', "oe");
    ExpandCharRemoves(s1, 'ö', "oe");
    ReplaceAllChars(s2, "ü", "ue", 'ä');
    ReplaceAllChars(s2, "ü", "ue", 'ö');
    ReplaceAllSingleChar(s2, 'ü', "ue");
    ExpandCharRemoves(s2, 'ü', "ue");
    ReplaceAllChars(s3, "ß", "ss", 'ä');
    ReplaceAllChars(s3, "ß", "ss", 'ö');
    ReplaceAllChars(s3, "ß", "ss", 'ü');
    ReplaceAllSingleChar(s3, 'ß', "ss");
    ExpandCharRemoves(s3, 'ß', "ss");
    ReplaceAll(s3, "ß", "ss")
  }

  /** The characters the six replacements turn into hyphens. */
  predicate IsHyphenated(c: char) {
    c == ' ' || c == '.' || c == '\'' || c == '"' || c == '(' || c == ')'
  }

  /** Space, period, apostrophe, double quote and parentheses become hyphens,
      one for one; every other character stays where it is. */
  function Hyphenate(s: string): (r: string)
    ensures |r| == |s|
    ensures forall i :: 0 <= i < |s| ==> r[i] == if IsHyphenated(s[i]) then '-' else s[i]
  {
    var s1 := ReplaceAll(s, " ", "-");
    var s2 := ReplaceAll(s1, ".", "-");
    var s3 := ReplaceAll(s2, "'", "-");
    var s4 := ReplaceAll(s3, "\"", "-");
    var s5 := ReplaceAll(s4, "(", "-");
    SubstituteChar(s, ' ', '-');
    SubstituteChar(s1, '.', '-');
    SubstituteChar(s2, '\'', '-');
    SubstituteChar(s3, '"', '-');
    SubstituteChar(s4, '(', '-');
    SubstituteChar(s5, ')', '-');
    ReplaceAll(s5, ")", "-")
  }

  /** Replacing a character by one character substitutes it in place. */
  lemma SubstituteChar(s: string, c: char, d: char)
    ensures |ReplaceAll(s, [c], [d])| == |s|
    ensures forall i :: 0 <= i < |s| ==> ReplaceAll(s, [c], [d])[i] == if s[i] == c then d else s[i]
  {
    ReplaceAllSingleChar(s, c, [d]);
    ExpandCharSingle(s, c, d);
  }

  /** Per-rune NFD followed by Mn removal. */
  function Fold(u: Folding, s: string): string {
    if s == [] then [] else u.strip(s[0]) + Fold(u, s[1..])
  }

  /** The text the character scan runs over. */
  function Prepared(u: Folding, s: string): string {
    Fold(u, Hyphenate(SpellOutUmlauts(Lower(u, s))))
  }

  /** State of the scan loop: the slug so far and the `lastSp` flag. */
  datatype ScanState = ScanState(out: string, lastSp: bool)

  /** What the scan loop keeps true after every character. */
  predicate ScanInvariant(st: ScanState) {
    && (forall i :: 0 <= i < |st.out| ==> IsSlugChar(st.out[i]))
    && (st.out != [] ==> st.out[0] != '-')
    && (forall i :: 0 <= i < |st.out| - 1 ==> !(st.out[i] == '-' && st.out[i + 1] == '-'))
    && (st.out != [] ==> (st.out[|st.out| - 1] == '-' <==> st.lastSp))
    && (st.out == [] ==> st.lastSp)
  }

  /** One iteration of the scan loop. */
  function Step(st: ScanState, c: char): ScanState {
    if 'a' <= c <= 'z' then ScanState(st.out + [c], false)
    else if '0' <= c <= '9' then ScanState(st.out + [c], false)
    else if !st.lastSp then ScanState(st.out + "-", true)
    else st
  }

  /** The scan loop over a whole string, starting with `lastSp` set. */
  function Scan(s: string): (st: ScanState)
    ensures ScanInvariant(st)
    ensures st.out == [] <==> !HasAlnum(s)
    ensures Alnums(st.out) == Alnums(s)
  {
    if s == [] then ScanState([], true)
    else
      var prev := Scan(s[..|s| - 1]);
      var c := s[|s| - 1];
      HasAlnumLast(s);
      StepKeepsInvariant(prev, c);
      AlnumsLast(s);
      AlnumsStep(prev, c);
      Step(prev, c)
  }

  /** The scan of a nonempty string is one step after the scan of its
      front. */
  lemma ScanLast(s: string)
    requires s != []
    ensures Scan(s) == Step(Scan(s[..|s| - 1]), s[|s| - 1])
  {
  }

  lemma HasAlnumLast(s: string)
    requires s != []
    ensures HasAlnum(s) <==> HasAlnum(s[..|s| - 1]) || IsAlnum(s[|s| - 1])
  {
    var p := s[..|s| - 1];
    if HasAlnum(s) && !IsAlnum(s[|s| - 1]) {
      var i :| 0 <= i < |s| && IsAlnum(s[i]);
      assert p[i] == s[i];
    }
    if HasAlnum(p) {
      var i :| 0 <= i < |p| && IsAlnum(p[i]);
      assert IsAlnum(s[i]);
    }
  }

  lemma AlnumsLast(s: string)
    requires s != []
    ensures Alnums(s) == Alnums(s[..|s| - 1]) + (if IsAlnum(s[|s| - 1]) then [s[|s| - 1]] else [])
  {
  }

  /** A step adds the character to the letters and digits kept, if it is one. */
  lemma AlnumsStep(st: ScanState, c: char)
    ensures Alnums(Step(st, c).out) == Alnums(st.out) + (if IsAlnum(c) then [c] else [])
  {
    var out := Step(st, c).out;
    if out != st.out {
      assert out[..|out| - 1] == st.out;
    }
  }

  /** A step keeps the scan invariant, and empties nothing. */
  lemma StepKeepsInvariant(st: ScanState, c: char)
    requires ScanInvariant(st)
    ensures ScanInvariant(Step(st, c))
    ensures Step(st, c).out == [] <==> st.out == [] && !IsAlnum(c)
  {
    var out := Step(st, c).out;
    assert out[..|st.out|] == st.out;
  }

  /** Drops the trailing hyphen left by a final run of separators. */
  function DropTrailingHyphen(st: ScanState): string {
    if st.lastSp && |st.out| > 0 then st.out[..|st.out| - 1] else st.out
  }

  /** `SanitizeName`: the result is a well-formed slug, empty exactly when the
      prepared text has no letter or digit, and keeps exactly the letters and
      digits of the prepared text, in order. */
  function SanitizeName(u: Folding, s: string): (r: string)
    ensures IsSlug(r)
    ensures r == [] <==> !HasAlnum(Prepared(u, s))
    ensures Alnums(r) == Alnums(Prepared(u, s))
  {
    var st := Scan(Prepared(u, s));
    DropTrailingHyphenSlug(st);
    DropTrailingHyphen(st)
  }

  /** Dropping the trailing hyphen of a scan state gives a slug with the
      same letters and digits, empty exactly when the scan output is. */
  lemma DropTrailingHyphenSlug(st: ScanState)
    requires ScanInvariant(st)
    ensures IsSlug(DropTrailingHyphen(st))
    ensures DropTrailingHyphen(st) == [] <==> st.out == []
    ensures Alnums(DropTrailingHyphen(st)) == Alnums(st.out)
  {
    var r := DropTrailingHyphen(st);
    if r != st.out {
      assert st.out == r + "-";
      assert st.out[..|st.out| - 1] == r;
    }
  }

  /** Where the run of letters and digits starting at `k` ends. */
  function RunEnd(t: string, k: nat): (e: nat)
    requires k <= |t|
    ensures k <= e <= |t|
    ensures forall i :: k <= i < e ==> IsAlnum(t[i])
    ensures e == |t| || !IsAlnum(t[e])
    decreases |t| - k
  {
    if k < |t| && IsAlnum(t[k]) then RunEnd(t, k + 1) else k
  }

  /** The slug defined directly from the text, independently of the scan:
      the maximal runs of letters and digits, in order, joined by single
      hyphens. Everything else only separates runs. */
  function Slugify(t: string): (r: string)
    ensures !HasAlnum(t) ==> r == []
    decreases |t|
  {
    if t == [] then []
    else if !IsAlnum(t[0]) then
      HasAlnumFirst(t);
      Slugify(t[1..])
    else
      var n := RunEnd(t, 0);
      if HasAlnum(t[n..]) then t[..n] + "-" + Slugify(t[n..]) else t[..n]
  }

  /** The scan loop read front to back, from any state. */
  function ScanFrom(st: ScanState, s: string): ScanState
    decreases |s|
  {
    if s == [] then st else ScanFrom(Step(st, s[0]), s[1..])
  }

  lemma {:induction false} ScanFromLast(st: ScanState, s: string)
    requires s != []
    ensures ScanFrom(st, s) == Step(ScanFrom(st, s[..|s| - 1]), s[|s| - 1])
    decreases |s|
  {
    if |s| > 1 {
      ScanFromLast(Step(st, s[0]), s[1..]);
      assert s[..|s| - 1][1..] == s[1..][..|s| - 2];
    }
  }

  /** The scan is the front-to-back scan from the loop's initial state. */
  lemma {:induction false} ScanIsScanFrom(s: string)
    ensures Scan(s) == ScanFrom(ScanState([], true), s)
    decreases |s|
  {
    if s != [] {
      ScanIsScanFrom(s[..|s| - 1]);
      ScanLast(s);
      ScanFromLast(ScanState([], true), s);
    }
  }

  /** A run of letters and digits is copied, and clears the flag. */
  lemma {:induction false} ScanFromRun(st: ScanState, t: string, n: nat)
    requires 0 < n <= |t| && forall i :: 0 <= i < n ==> IsAlnum(t[i])
    ensures ScanFrom(st, t) == ScanFrom(ScanState(st.out + t[..n], false), t[n..])
    decreases n
  {
    var st' := Step(st, t[0]);
    assert st' == ScanState(st.out + [t[0]], false);
    if n > 1 {
      ScanFromRun(st', t[1..], n - 1);
      assert st.out + [t[0]] + t[1..][..n - 1] == st.out + t[..n];
      assert t[1..][n - 1..] == t[n..];
    } else {
      assert [t[0]] == t[..1];
    }
  }

  /** From a state with the flag set, the scan adds the reference slug of the
      rest (with a hyphen after it if separators follow the last run), and
      adds nothing if the rest has no letter or digit. */
  lemma {:induction false} ScanFromSlugify(st: ScanState, t: string)
    requires st.lastSp
    ensures !HasAlnum(t) ==> ScanFrom(st, t) == st
    ensures HasAlnum(t) ==> DropTrailingHyphen(ScanFrom(st, t)) == st.out + Slugify(t)
    decreases |t|
  {
    if t != [] {
      HasAlnumFirst(t);
      if !IsAlnum(t[0]) {
        assert Step(st, t[0]) == st;
        ScanFromSlugify(st, t[1..]);
      } else {
        var n := RunEnd(t, 0);
        var rest := t[n..];
        var o := st.out + t[..n];
        ScanFromRun(st, t, n);
        if rest != [] {
          HasAlnumFirst(rest);
          assert Step(ScanState(o, false), rest[0]) == ScanState(o + "-", true);
          ScanFromSlugify(ScanState(o + "-", true), rest[1..]);
          if HasAlnum(rest) {
            assert Slugify(rest) == Slugify(rest[1..]);
            assert o + "-" + Slugify(rest) == st.out + (t[..n] + "-" + Slugify(rest));
          } else {
            assert (o + "-")[..|o + "-"| - 1] == o;
          }
        }
      }
    }
  }

  lemma HasAlnumFirst(t: string)
    requires t != []
    ensures HasAlnum(t) <==> IsAlnum(t[0]) || HasAlnum(t[1..])
  {
    if HasAlnum(t) && !IsAlnum(t[0]) {
      var i :| 0 <= i < |t| && IsAlnum(t[i]);
      assert IsAlnum(t[1..][i - 1]);
    }
    if HasAlnum(t[1..]) {
      var i :| 0 <= i < |t[1..]| && IsAlnum(t[1..][i]);
      assert IsAlnum(t[i + 1]);
    }
  }

  /** `SanitizeName` is the reference slug of the prepared text: each run of
      other characters between letters or digits becomes exactly one hyphen,
      and runs at either end disappear. */
  lemma SanitizeNameIsSlugify(u: Folding, s: string)
    ensures SanitizeName(u, s) == Slugify(Prepared(u, s))
  {
    var t := Prepared(u, s);
    ScanIsScanFrom(t);
    ScanFromSlugify(ScanState([], true), t);
  }

  /** Two runs of letters or digits around a nonempty separator are joined
      by exactly one hyphen. */
  lemma SlugifyJoin(a: string, sep: string, b: string)
    requires a != [] && forall i :: 0 <= i < |a| ==> IsAlnum(a[i])
    requires sep != [] && !HasAlnum(sep)
    requires HasAlnum(b)
    ensures Slugify(a + sep + b) == a + "-" + Slugify(b)
  {
    var t := a + sep + b;
    RunEndAt(t, 0, |a|);
    assert t[..|a|] == a && t[|a|..] == sep + b;
    SlugifySkip(sep, b);
    assert HasAlnum(sep + b) by {
      var i :| 0 <= i < |b| && IsAlnum(b[i]);
      assert (sep + b)[|sep| + i] == b[i];
    }
  }

  /** The run starting at `k` ends at the first non-letter, non-digit. */
  lemma {:induction false} RunEndAt(t: string, k: nat, e: nat)
    requires k <= e <= |t| && (forall i :: k <= i < e ==> IsAlnum(t[i])) && (e == |t| || !IsAlnum(t[e]))
    ensures RunEnd(t, k) == e
    decreases e - k
  {
    if k < e {
      RunEndAt(t, k + 1, e);
    }
  }

  /** Leading separators contribute nothing. */
  lemma {:induction false} SlugifySkip(sep: string, b: string)
    requires !HasAlnum(sep)
    ensures Slugify(sep + b) == Slugify(b)
    decreases |sep|
  {
    if sep != [] {
      HasAlnumFirst(sep);
      assert (sep + b)[1..] == sep[1..] + b;
      SlugifySkip(sep[1..], b);
    } else {
      assert sep + b == b;
    }
  }

  /** The scan loop as written, updating the slug and flag in place. */
  method ScanLoop(result: string) returns (s: string, lastSp: bool)
    ensures ScanState(s, lastSp) == Scan(result)
    ensures ScanInvariant(ScanState(s, lastSp))
  {
    s := "";
    lastSp := true;
    for k := 0 to |result|
      invariant ScanState(s, lastSp) == Scan(result[..k])
    {
      var ch := result[k];
      ghost var next := Step(ScanState(s, lastSp), ch);
      assert result[..k + 1][..k] == result[..k];
      ScanLast(result[..k + 1]);
      assert next == Scan(result[..k + 1]);
      if ch >= 'a' && ch <= 'z' {
        s := s + [ch];
        lastSp := false;
      } else if ch >= '0' && ch <= '9' {
        s := s + [ch];
        lastSp := false;
      } else {
        if !lastSp {
          s := s + "-";
          lastSp := true;
        }
      }
      assert ScanState(s, lastSp) == next;
    }
    assert result[..|result|] == result;
  }

  /** A slug prefix: slug characters, no leading or doubled hyphen, but it may
      still end in a hyphen. */
  predicate IsSlugPrefix(p: string) {
    && (forall i :: 0 <= i < |p| ==> IsSlugChar(p[i]))
    && (p != [] ==> p[0] != '-')
    && (forall i :: 0 <= i < |p| - 1 ==> !(p[i] == '-' && p[i + 1] == '-'))
  }

  /** On a slug prefix the scan copies every character and raises the flag
      exactly after a hyphen. */
  lemma {:induction false} ScanSlugPrefix(p: string)
    requires IsSlugPrefix(p)
    ensures Scan(p) == ScanState(p, p == [] || p[|p| - 1] == '-')
    decreases |p|
  {
    if p != [] {
      var q := p[..|p| - 1];
      var c := p[|p| - 1];
      SlugPrefixFront(p);
      ScanSlugPrefix(q);
      ScanLast(p);
      StepSlugPrefix(p);
    }
  }

  /** The last step over a slug prefix appends its last character and sets
      the flag exactly for a hyphen. */
  lemma StepSlugPrefix(p: string)
    requires IsSlugPrefix(p) && p != []
    ensures var q := p[..|p| - 1];
      Step(ScanState(q, q == [] || q[|q| - 1] == '-'), p[|p| - 1]) == ScanState(p, p[|p| - 1] == '-')
  {
    var q, c := p[..|p| - 1], p[|p| - 1];
    SlugPrefixFront(p);
    assert q + [c] == p;
    if c == '-' {
      assert q[|q| - 1] == p[|p| - 2];
    }
  }

  /** Dropping the last character of a slug prefix leaves a slug prefix; a
      final hyphen follows a letter or digit, and any other final character
      is one. */
  lemma SlugPrefixFront(p: string)
    requires IsSlugPrefix(p) && p != []
    ensures IsSlugPrefix(p[..|p| - 1])
    ensures p[|p| - 1] == '-' ==> |p| >= 2 && p[|p| - 2] != '-'
    ensures p[|p| - 1] != '-' ==> IsAlnum(p[|p| - 1])
  {
    var q := p[..|p| - 1];
    assert forall i :: 0 <= i < |q| ==> q[i] == p[i];
    if p[|p| - 1] == '-' {
      var k := |p| - 2;
      assert p[k + 1] == '-';
    }
  }

  lemma {:induction false} LowerFixesSlugChars(u: Folding, s: string)
    requires ActsLikeUnicode(u)
    requires forall i :: 0 <= i < |s| ==> IsSlugChar(s[i])
    ensures Lower(u, s) == s
    decreases |s|
  {
    if s != [] {
      assert u.lower(s[0]) == AsciiLower(s[0]);
      LowerFixesSlugChars(u, s[1..]);
    }
  }

  lemma {:induction false} FoldFixesAscii(u: Folding, s: string)
    requires ActsLikeUnicode(u)
    requires forall i :: 0 <= i < |s| ==> s[i] as int < 128
    ensures Fold(u, s) == s
    decreases |s|
  {
    if s != [] {
      assert u.strip(s[0]) == [s[0]];
      FoldFixesAscii(u, s[1..]);
      assert [s[0]] + s[1..] == s;
    }
  }

  /** A one-character pattern occurs only where that character is. */
  lemma CharAbsent(s: string, c: char)
    requires c !in s
    ensures !Contains(s, [c])
  {
    forall i: nat | i <= |s|
      ensures !OccursAt(s, [c], i)
    {
      if i + 1 <= |s| {
        assert s[i..i + 1] == [s[i]];
      }
    }
  }

  /** Replacing a one-character pattern that does not occur. */
  lemma ReplaceNone(s: string, c: char, rep: string)
    requires c !in s
    ensures ReplaceAll(s, [c], rep) == s
  {
    CharAbsent(s, c);
    ReplaceAllAbsent(s, [c], rep);
  }

  /** Idempotence: a string that is already a slug comes back unchanged, so
      sanitising a slug a second time changes nothing. */
  lemma SanitizeSlugUnchanged(u: Folding, t: string)
    requires ActsLikeUnicode(u) && IsSlug(t)
    ensures SanitizeName(u, t) == t
  {
    LowerFixesSlugChars(u, t);
    forall c | c in "äöüß .'\"()"
      ensures c !in t
    {
      forall i | 0 <= i < |t|
        ensures t[i] != c
      {
        assert IsSlugChar(t[i]);
      }
    }
    ReplaceNone(t, 'ä', "ae");
    ReplaceNone(t, 'ö', "oe");
    ReplaceNone(t, 'ü', "ue");
    ReplaceNone(t, 'ß', "ss");
    assert SpellOutUmlauts(t) == t;
    FoldHyphenateFixesSlugChars(u, t);
    assert Prepared(u, t) == t;
    ScanSlugPrefix(t);
  }

  /** Slug characters pass the hyphen replacements and the folding step
      unchanged. */
  lemma FoldHyphenateFixesSlugChars(u: Folding, x: string)
    requires ActsLikeUnicode(u)
    requires forall i :: 0 <= i < |x| ==> IsSlugChar(x[i])
    ensures Fold(u, Hyphenate(x)) == x
  {
    assert Hyphenate(x) == x;
    forall i | 0 <= i < |x|
      ensures x[i] as int < 128
    {
      assert IsSlugChar(x[i]);
    }
    FoldFixesAscii(u, x);
  }

  /** Folding works rune by rune: folding a concatenation folds the parts. */
  lemma {:induction false} FoldConcat(u: Folding, a: string, b: string)
    ensures Fold(u, a + b) == Fold(u, a) + Fold(u, b)
    decreases |a|
  {
    if a != [] {
      assert (a + b)[0] == a[0] && (a + b)[1..] == a[1..] + b;
      FoldConcat(u, a[1..], b);
    } else {
      assert a + b == b;
    }
  }

  predicate AllAlnum(s: string) {
    forall i :: 0 <= i < |s| ==> IsAlnum(s[i])
  }

  lemma AllAlnumConcat(a: string, b: string)
    requires AllAlnum(a) && AllAlnum(b)
    ensures AllAlnum(a + b)
  {
    assert forall i :: 0 <= i < |b| ==> (a + b)[|a| + i] == b[i];
  }

  /** Spelling out a word of letters, digits and umlauts leaves only
      letters and digits. */
  lemma {:induction false} SpellOutWord(w: string)
    requires forall i :: 0 <= i < |w| ==> IsAlnum(w[i]) || IsUmlaut(w[i])
    ensures |SpellOutUmlauts(w)| >= |w|
    ensures AllAlnum(SpellOutUmlauts(w))
    decreases |w|
  {
    if w != [] {
      var c := w[0];
      SpellOutWord(w[1..]);
      SpellOutConcat([c], w[1..]);
      assert [c] + w[1..] == w;
      SpellOutWordChar(c);
      AllAlnumConcat(SpellOutUmlauts([c]), SpellOutUmlauts(w[1..]));
    }
  }

  lemma SpellOutWordChar(c: char)
    requires IsAlnum(c) || IsUmlaut(c)
    ensures |SpellOutUmlauts([c])| >= 1
    ensures AllAlnum(SpellOutUmlauts([c]))
  {
    if IsUmlaut(c) {
      SpellOutUmlautChars();
      if c == 'ä' {
        assert [c] == "ä";
      } else if c == 'ö' {
        assert [c] == "ö";
      } else if c == 'ü' {
        assert [c] == "ü";
      } else {
        assert [c] == "ß";
      }
    } else {
      SpellOutOtherChar(c);
    }
  }

  /** Lowercase letters, digits and umlauts are their own lowercase. */
  lemma LowerFixesWord(u: Folding, w: string)
    requires ActsLikeUnicode(u)
    requires forall i :: 0 <= i < |w| ==> IsAlnum(w[i]) || IsUmlaut(w[i])
    ensures Lower(u, w) == w
  {
    forall i | 0 <= i < |w|
      ensures u.lower(w[i]) == w[i]
    {
      if IsAlnum(w[i]) {
        assert u.lower(w[i]) == AsciiLower(w[i]);
      }
    }
  }

  /** End to end: a name of lowercase letters, digits and umlauts becomes
      its spelled-out form, so an umlaut reaches the slug as two letters
      rather than being lost in the folding step. */
  lemma SanitizeWord(u: Folding, w: string)
    requires ActsLikeUnicode(u)
    requires w != [] && forall i :: 0 <= i < |w| ==> IsAlnum(w[i]) || IsUmlaut(w[i])
    ensures SanitizeName(u, w) == SpellOutUmlauts(w)
  {
    LowerFixesWord(u, w);
    var x := SpellOutUmlauts(w);
    SpellOutWord(w);
    FoldHyphenateFixesSlugChars(u, x);
    assert Prepared(u, w) == x;
    ScanSlugPrefix(x);
  }

  /** The empty name gives the empty slug, which callers must skip. */
  lemma SanitizeEmpty(u: Folding)
    ensures SanitizeName(u, "") == ""
  {
  }

  /** Spelling out umlauts works character by character ... */
  lemma SpellOutConcat(a: string, b: string)
    ensures SpellOutUmlauts(a + b) == SpellOutUmlauts(a) + SpellOutUmlauts(b)
  {
    ReplaceAllSingleChar(a + b, 'ä', "ae");
    ReplaceAllSingleChar(a, 'ä', "ae");
    ReplaceAllSingleChar(b, 'ä', "ae");
    ExpandCharConcat(a, b, 'ä', "ae");
    var a1, b1 := ReplaceAll(a, "ä", "ae"), ReplaceAll(b, "ä", "ae");
    ReplaceAllSingleChar(a1 + b1, 'ö', "oe");
    ReplaceAllSingleChar(a1, 'ö', "oe");
    ReplaceAllSingleChar(b1, 'ö', "oe");
    ExpandCharConcat(a1, b1, 'ö', "oe");
    var a2, b2 := ReplaceAll(a1, "ö", "oe"), ReplaceAll(b1, "ö", "oe");
    ReplaceAllSingleChar(a2 + b2, 'ü', "ue");
    ReplaceAllSingleChar(a2, 'ü', "ue");
    ReplaceAllSingleChar(b2, 'ü', "ue");
    ExpandCharConcat(a2, b2, 'ü', "ue");
    var a3, b3 := ReplaceAll(a2, "ü", "ue"), ReplaceAll(b2, "ü", "ue");
    ReplaceAllSingleChar(a3 + b3, 'ß', "ss");
    ReplaceAllSingleChar(a3, 'ß', "ss");
    ReplaceAllSingleChar(b3, 'ß', "ss");
    ExpandCharConcat(a3, b3, 'ß', "ss");
  }

  /** ... each of the four letters becomes its two-letter spelling ... */
  lemma SpellOutUmlautChars()
    ensures SpellOutUmlauts("ä") == "ae"
    ensures SpellOutUmlauts("ö") == "oe"
    ensures SpellOutUmlauts("ü") == "ue"
    ensures SpellOutUmlauts("ß") == "ss"
  {
    ReplaceWhole('ä', "ae");
    ReplaceNone("ae", 'ö', "oe");
    ReplaceNone("ae", 'ü', "ue");
    ReplaceNone("ae", 'ß', "ss");

    ReplaceNone("ö", 'ä', "ae");
    ReplaceWhole('ö', "oe");
    ReplaceNone("oe", 'ü', "ue");
    ReplaceNone("oe", 'ß', "ss");

    ReplaceNone("ü", 'ä', "ae");
    ReplaceNone("ü", 'ö', "oe");
    ReplaceWhole('ü', "ue");
    ReplaceNone("ue", 'ß', "ss");

    ReplaceNone("ß", 'ä', "ae");
    ReplaceNone("ß", 'ö', "oe");
    ReplaceNone("ß", 'ü', "ue");
    ReplaceWhole('ß', "ss");
  }

  /** A one-character text that is the pattern becomes the replacement. */
  lemma ReplaceWhole(c: char, rep: string)
    ensures ReplaceAll([c], [c], rep) == rep
  {
    ReplaceAllLeading([c], [], rep);
    assert [c] + [] == [c];
  }

  /** ... and every other character stays as it is. */
  lemma SpellOutOtherChar(c: char)
    requires !IsUmlaut(c)
    ensures SpellOutUmlauts([c]) == [c]
  {
    ReplaceNone([c], 'ä', "ae");
    ReplaceNone([c], 'ö', "oe");
    ReplaceNone([c], 'ü', "ue");
    ReplaceNone([c], 'ß', "ss");
  }
}
