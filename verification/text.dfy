/** String primitives shared by the pipeline: substring occurrence, Go's
    `strings.ReplaceAll`, `strings.Count` for one-character needles, and
    byte-wise string ordering. Strings are sequences of Unicode scalar values;
    for valid UTF-8 the Go byte-level operations agree with these rune-level ones. */
module Text {

  /** `p` occurs in `s` starting at index `i`. */
  predicate OccursAt(s: string, p: string, i: nat) {
    i + |p| <= |s| && s[i..i + |p|] == p
  }

  /** `p` is a substring of `s` (Go's `strings.Contains`). */
  predicate Contains(s: string, p: string) {
    exists i: nat :: i <= |s| && OccursAt(s, p, i)
  }

  /** Go inserts the replacement before every rune and at the end when the
      pattern is empty: `ReplaceAll("ab", "", "X") == "XaXbX"`. */
  function InsertEverywhere(s: string, rep: string): (r: string)
    ensures |r| == |s| + (|s| + 1) * |rep|
  {
    if s == [] then rep
    else rep + [s[0]] + InsertEverywhere(s[1..], rep)
  }

  /** Go's `strings.ReplaceAll`: a single left-to-right pass that replaces
      the leftmost occurrence, resumes right after it, and never rescans
      replaced text (so occurrences never overlap). */
  function ReplaceAll(s: string, pat: string, rep: string): (r: string)
    ensures rep == [] ==> |r| <= |s|
    ensures |pat| > 0 && |s| < |pat| ==> r == s
    decreases |s|
  {
    if pat == [] then InsertEverywhere(s, rep)
    else if |s| < |pat| then s
    else if s[..|pat|] == pat then rep + ReplaceAll(s[|pat|..], pat, rep)
    else [s[0]] + ReplaceAll(s[1..], pat, rep)
  }

  /** If a nonempty pattern does not occur, nothing is replaced. */
  lemma {:induction false} ReplaceAllAbsent(s: string, pat: string, rep: string)
    requires !Contains(s, pat)
    ensures ReplaceAll(s, pat, rep) == s
    decreases |s|
  {
    assert OccursAt(s, pat, 0) == (|pat| <= |s| && s[..|pat|] == pat);
    if pat != [] && |s| >= |pat| {
      assert !OccursAt(s, pat, 0);
      ShiftAbsent(s, pat);
      ReplaceAllAbsent(s[1..], pat, rep);
    }
  }

  /** An occurrence in the tail of `s` is an occurrence in `s`. */
  lemma ShiftAbsent(s: string, pat: string)
    requires |s| > 0 && !Contains(s, pat)
    ensures !Contains(s[1..], pat)
  {
    if Contains(s[1..], pat) {
      var i: nat :| i <= |s[1..]| && OccursAt(s[1..], pat, i);
      assert s[1..][i..i + |pat|] == s[i + 1..i + 1 + |pat|];
      assert OccursAt(s, pat, i + 1);
    }
  }

  /** Deleting a nonempty pattern that does occur makes the text strictly shorter. */
  lemma {:induction false} ReplaceAllDeletionShrinks(s: string, pat: string)
    requires |pat| > 0 && Contains(s, pat)
    ensures |ReplaceAll(s, pat, [])| < |s|
    decreases |s|
  {
    var i: nat :| i <= |s| && OccursAt(s, pat, i);
    if s[..|pat|] != pat {
      assert i != 0;
      assert s[1..][i - 1..i - 1 + |pat|] == s[i..i + |pat|];
      assert OccursAt(s[1..], pat, i - 1);
      ReplaceAllDeletionShrinks(s[1..], pat);
    }
  }

  /** Deleting a nonempty pattern leaves the text unchanged exactly when the
      pattern does not occur in it. */
  lemma DeletionUnchangedIff(s: string, pat: string)
    requires |pat| > 0
    ensures ReplaceAll(s, pat, []) == s <==> !Contains(s, pat)
  {
    if Contains(s, pat) {
      ReplaceAllDeletionShrinks(s, pat);
    } else {
      ReplaceAllAbsent(s, pat, []);
    }
  }

  /** Four deletions in a row leave a text unchanged exactly when none of
      the patterns occurs in it: a deletion that finds its pattern makes the
      text strictly shorter, and no deletion ever lengthens it. */
  lemma DeletionsUnchangedIff(s: string, a: string, b: string, c: string, d: string)
    requires |a| > 0 && |b| > 0 && |c| > 0 && |d| > 0
    ensures ReplaceAll(ReplaceAll(ReplaceAll(ReplaceAll(s, a, []), b, []), c, []), d, []) == s
      <==> !Contains(s, a) && !Contains(s, b) && !Contains(s, c) && !Contains(s, d)
  {
    var s1 := ReplaceAll(s, a, []);
    var s2 := ReplaceAll(s1, b, []);
    var s3 := ReplaceAll(s2, c, []);
    var s4 := ReplaceAll(s3, d, []);
    DeletionUnchangedIff(s, a);
    DeletionUnchangedIff(s1, b);
    DeletionUnchangedIff(s2, c);
    DeletionUnchangedIff(s3, d);
    if s4 == s {
      assert |s4| <= |s3| <= |s2| <= |s1| <= |s|;
      if s1 != s {
        ReplaceAllDeletionShrinks(s, a);
      }
      if s2 != s1 {
        ReplaceAllDeletionShrinks(s1, b);
      }
      if s3 != s2 {
        ReplaceAllDeletionShrinks(s2, c);
      }
    }
  }

  /** `r` is `s` with some characters deleted: the characters of `r` occur in
      `s` in the same order, and nothing is changed or reordered. */
  predicate Sub(r: string, s: string)
    decreases |s|
  {
    r == [] || (s != [] && (Sub(r, s[1..]) || (r[0] == s[0] && Sub(r[1..], s[1..]))))
  }

  /** Deleting nothing is a deletion. */
  lemma {:induction false} SubRefl(s: string)
    ensures Sub(s, s)
    decreases |s|
  {
    if s != [] {
      SubRefl(s[1..]);
    }
  }

  /** Deleting a whole prefix on top of a deletion is still a deletion. */
  lemma {:induction false} SubDropPrefix(r: string, p: string, t: string)
    requires Sub(r, t)
    ensures Sub(r, p + t)
    decreases |p|
  {
    if p == [] {
      assert p + t == t;
    } else if r != [] {
      assert (p + t)[1..] == p[1..] + t;
      SubDropPrefix(r, p[1..], t);
    }
  }

  /** Keeping a common first character on top of a deletion is still a deletion. */
  lemma SubKeepFirst(c: char, r: string, t: string)
    requires Sub(r, t)
    ensures Sub([c] + r, [c] + t)
  {
    assert ([c] + r)[1..] == r;
    assert ([c] + t)[1..] == t;
  }

  /** Two deletions in a row are one deletion. */
  lemma {:induction false} SubTrans(a: string, b: string, c: string)
    requires Sub(a, b) && Sub(b, c)
    ensures Sub(a, c)
    decreases |c|
  {
    if a != [] {
      if Sub(b, c[1..]) {
        SubTrans(a, b, c[1..]);
      } else if Sub(a, b[1..]) {
        SubTrans(a, b[1..], c[1..]);
      } else {
        SubTrans(a[1..], b[1..], c[1..]);
      }
    }
  }

  /** Deleting a nonempty pattern only deletes characters: the result is the
      text with the occurrences cut out, everything else kept in order. */
  lemma {:induction false} ReplaceAllDeletesOnly(s: string, pat: string)
    requires |pat| > 0
    ensures Sub(ReplaceAll(s, pat, []), s)
    decreases |s|
  {
    if |s| < |pat| {
      SubRefl(s);
    } else if s[..|pat|] == pat {
      ReplaceAllDeletesOnly(s[|pat|..], pat);
      assert ReplaceAll(s, pat, []) == ReplaceAll(s[|pat|..], pat, []);
      assert s == s[..|pat|] + s[|pat|..];
      SubDropPrefix(ReplaceAll(s[|pat|..], pat, []), s[..|pat|], s[|pat|..]);
    } else {
      ReplaceAllDeletesOnly(s[1..], pat);
      assert s == [s[0]] + s[1..];
      SubKeepFirst(s[0], ReplaceAll(s[1..], pat, []), s[1..]);
    }
  }

  /** Four deletions in a row only delete characters of the original text. */
  lemma DeletionsDeleteOnly(s: string, a: string, b: string, c: string, d: string)
    requires |a| > 0 && |b| > 0 && |c| > 0 && |d| > 0
    ensures Sub(ReplaceAll(ReplaceAll(ReplaceAll(ReplaceAll(s, a, []), b, []), c, []), d, []), s)
  {
    var s1 := ReplaceAll(s, a, []);
    var s2 := ReplaceAll(s1, b, []);
    var s3 := ReplaceAll(s2, c, []);
    ReplaceAllDeletesOnly(s, a);
    ReplaceAllDeletesOnly(s1, b);
    ReplaceAllDeletesOnly(s2, c);
    ReplaceAllDeletesOnly(s3, d);
    SubTrans(s2, s1, s);
    SubTrans(s3, s2, s);
    SubTrans(ReplaceAll(s3, d, []), s3, s);
  }

  /** A text that starts with the pattern loses exactly that occurrence first. */
  lemma ReplaceAllLeading(pat: string, t: string, rep: string)
    requires |pat| > 0
    ensures ReplaceAll(pat + t, pat, rep) == rep + ReplaceAll(t, pat, rep)
  {
    assert (pat + t)[..|pat|] == pat;
    assert (pat + t)[|pat|..] == t;
  }

  /** A stretch in front that no occurrence starts in is copied unchanged. */
  lemma {:induction false} ReplaceAllSkip(p: string, t: string, pat: string, rep: string)
    requires |pat| > 0
    requires forall i: nat :: i < |p| ==> !OccursAt(p + t, pat, i)
    ensures ReplaceAll(p + t, pat, rep) == p + ReplaceAll(t, pat, rep)
    decreases |p|
  {
    if p != [] {
      var r := ReplaceAll(t, pat, rep);
      calc {
        ReplaceAll(p + t, pat, rep);
      == { assert !OccursAt(p + t, pat, 0); ReplaceAllCopyFirst(p, t, pat, rep); }
        [p[0]] + ReplaceAll(p[1..] + t, pat, rep);
      == { NoOccurrenceTail(p, t, pat); ReplaceAllSkip(p[1..], t, pat, rep); }
        [p[0]] + (p[1..] + r);
      == { assert [p[0]] + p[1..] == p; }
        p + r;
      }
    } else {
      assert p + t == t;
    }
  }

  /** A text with exactly one occurrence, not preceded by an earlier start
      and not followed by another, loses just that occurrence. */
  lemma DeleteOnce(x: string, pat: string, y: string)
    requires |pat| > 0
    requires forall i: nat :: i < |x| ==> !OccursAt(x + (pat + y), pat, i)
    requires !Contains(y, pat)
    ensures ReplaceAll(x + pat + y, pat, []) == x + y
  {
    assert x + pat + y == x + (pat + y);
    ReplaceAllSkip(x, pat + y, pat, []);
    DeleteLeading(pat, y);
  }

  /** The only occurrence, at the front, is deleted. */
  lemma DeleteLeading(pat: string, y: string)
    requires |pat| > 0 && !Contains(y, pat)
    ensures ReplaceAll(pat + y, pat, []) == y
  {
    ReplaceAllLeading(pat, y, []);
    ReplaceAllAbsent(y, pat, []);
  }

  /** No occurrence starts in `p` after its first character either. */
  lemma NoOccurrenceTail(p: string, t: string, pat: string)
    requires p != []
    requires forall i: nat :: i < |p| ==> !OccursAt(p + t, pat, i)
    ensures forall i: nat :: i < |p| - 1 ==> !OccursAt(p[1..] + t, pat, i)
  {
    var s := p + t;
    assert s[1..] == p[1..] + t;
    forall i: nat | i < |p| - 1
      ensures !OccursAt(p[1..] + t, pat, i)
    {
      assert !OccursAt(s, pat, i + 1);
      OccursAtTail(s, pat, i);
    }
  }

  /** An occurrence in the tail is an occurrence one position further on. */
  lemma OccursAtTail(s: string, pat: string, i: nat)
    requires s != []
    ensures OccursAt(s[1..], pat, i) <==> OccursAt(s, pat, i + 1)
  {
    if i + |pat| <= |s[1..]| {
      assert s[1..][i..i + |pat|] == s[i + 1..i + 1 + |pat|];
    }
  }

  /** Without an occurrence at the front, the first character is copied. */
  lemma ReplaceAllCopyFirst(p: string, t: string, pat: string, rep: string)
    requires |pat| > 0 && p != [] && !OccursAt(p + t, pat, 0)
    ensures ReplaceAll(p + t, pat, rep) == [p[0]] + ReplaceAll(p[1..] + t, pat, rep)
  {
    var s := p + t;
    if |s| >= |pat| {
      assert s[..|pat|] != pat;
    }
    assert s[1..] == p[1..] + t;
  }

  /** Every character of the output comes from the input or from the replacement. */
  lemma {:induction false} ReplaceAllChars(s: string, pat: string, rep: string, c: char)
    requires c !in s && c !in rep
    ensures c !in ReplaceAll(s, pat, rep)
    decreases |s|
  {
    if pat == [] {
      InsertEverywhereChars(s, rep, c);
    } else if |s| >= |pat| {
      if s[..|pat|] == pat {
        assert forall k :: 0 <= k < |s[|pat|..]| ==> s[|pat|..][k] == s[|pat| + k];
        ReplaceAllChars(s[|pat|..], pat, rep, c);
      } else {
        assert forall k :: 0 <= k < |s[1..]| ==> s[1..][k] == s[1 + k];
        ReplaceAllChars(s[1..], pat, rep, c);
      }
    }
  }

  lemma {:induction false} InsertEverywhereChars(s: string, rep: string, c: char)
    requires c !in s && c !in rep
    ensures c !in InsertEverywhere(s, rep)
    decreases |s|
  {
    if s != [] {
      assert forall k :: 0 <= k < |s[1..]| ==> s[1..][k] == s[1 + k];
      InsertEverywhereChars(s[1..], rep, c);
    }
  }

  /** Replacing a one-character pattern is the same as substituting each
      character independently. */
  function ExpandChar(s: string, c: char, rep: string): string
  {
    if s == [] then []
    else (if s[0] == c then rep else [s[0]]) + ExpandChar(s[1..], c, rep)
  }

  lemma {:induction false} ReplaceAllSingleChar(s: string, c: char, rep: string)
    ensures ReplaceAll(s, [c], rep) == ExpandChar(s, c, rep)
    decreases |s|
  {
    if s != [] {
      assert s[..1] == [c] <==> s[0] == c;
      ReplaceAllSingleChar(s[1..], c, rep);
    }
  }

  lemma {:induction false} ExpandCharConcat(a: string, b: string, c: char, rep: string)
    ensures ExpandChar(a + b, c, rep) == ExpandChar(a, c, rep) + ExpandChar(b, c, rep)
    decreases |a|
  {
    if a != [] {
      assert (a + b)[1..] == a[1..] + b;
      ExpandCharConcat(a[1..], b, c, rep);
    } else {
      assert a + b == b;
    }
  }

  /** Substituting one character for another keeps every position. */
  lemma {:induction false} ExpandCharSingle(s: string, c: char, d: char)
    ensures |ExpandChar(s, c, [d])| == |s|
    ensures forall i :: 0 <= i < |s| ==> ExpandChar(s, c, [d])[i] == if s[i] == c then d else s[i]
    decreases |s|
  {
    if s != [] {
      ExpandCharSingle(s[1..], c, d);
      assert ExpandChar(s, c, [d]) == [if s[0] == c then d else s[0]] + ExpandChar(s[1..], c, [d]);
    }
  }

  /** Substituting a character that does not occur changes nothing. */
  lemma {:induction false} ExpandCharAbsent(s: string, c: char, rep: string)
    requires c !in s
    ensures ExpandChar(s, c, rep) == s
    decreases |s|
  {
    if s != [] {
      ExpandCharAbsent(s[1..], c, rep);
      assert [s[0]] + s[1..] == s;
    }
  }

  /** After substitution the character is gone, unless the replacement has it. */
  lemma {:induction false} ExpandCharRemoves(s: string, c: char, rep: string)
    requires c !in rep
    ensures c !in ExpandChar(s, c, rep)
    decreases |s|
  {
    if s != [] {
      ExpandCharRemoves(s[1..], c, rep);
    }
  }

  /** Number of characters of `s` that belong to `cs`; for a one-character
      needle this is Go's `strings.Count`. */
  function Count(s: string, cs: set<char>): nat
  {
    if s == [] then 0
    else (if s[0] in cs then 1 else 0) + Count(s[1..], cs)
  }

  /** Counting two disjoint classes separately adds up to counting their union. */
  lemma {:induction false} CountUnion(s: string, a: set<char>, b: set<char>)
    requires a !! b
    ensures Count(s, a) + Count(s, b) == Count(s, a + b)
    decreases |s|
  {
    if s != [] {
      CountUnion(s[1..], a, b);
    }
  }

  /** At least one character of `s` belongs to `cs`. */
  predicate HasOne(s: string, cs: set<char>) {
    exists i :: 0 <= i < |s| && s[i] in cs
  }

  /** Two different positions of `s` hold characters of `cs`. */
  predicate HasTwo(s: string, cs: set<char>) {
    exists i, j :: 0 <= i < j < |s| && s[i] in cs && s[j] in cs
  }

  lemma {:induction false} CountPositive(s: string, cs: set<char>)
    ensures Count(s, cs) >= 1 <==> HasOne(s, cs)
    decreases |s|
  {
    if s != [] {
      CountPositive(s[1..], cs);
      if HasOne(s[1..], cs) {
        var i :| 0 <= i < |s[1..]| && s[1..][i] in cs;
        assert s[i + 1] in cs;
      }
      if HasOne(s, cs) && s[0] !in cs {
        var i :| 0 <= i < |s| && s[i] in cs;
        assert s[1..][i - 1] in cs;
      }
    }
  }

  /** A count of at least two means two distinct positions hold such a character. */
  lemma {:induction false} CountAtLeastTwo(s: string, cs: set<char>)
    ensures Count(s, cs) >= 2 <==> HasTwo(s, cs)
    decreases |s|
  {
    if s != [] {
      var t := s[1..];
      CountAtLeastTwo(t, cs);
      CountPositive(t, cs);
      if Count(s, cs) >= 2 {
        if s[0] in cs {
          var j :| 0 <= j < |t| && t[j] in cs;
          assert s[0] in cs && s[j + 1] in cs;
        } else {
          var i, j :| 0 <= i < j < |t| && t[i] in cs && t[j] in cs;
          assert s[i + 1] in cs && s[j + 1] in cs;
        }
      }
      if HasTwo(s, cs) {
        var i, j :| 0 <= i < j < |s| && s[i] in cs && s[j] in cs;
        if i == 0 {
          assert t[j - 1] in cs;
        } else {
          assert t[i - 1] in cs && t[j - 1] in cs;
        }
      }
    }
  }

  /** Go's `a < b` on strings: byte-wise lexicographic order. UTF-8 encodes
      code points in an order-preserving way, so this is code-point order. */
  predicate LexLess(a: string, b: string)
    decreases |a|
  {
    if a == [] then b != []
    else if b == [] then false
    else if a[0] < b[0] then true
    else if a[0] == b[0] then LexLess(a[1..], b[1..])
    else false
  }

  /** `a` is a proper prefix of `b`. */
  predicate ProperPrefix(a: string, b: string) {
    |a| < |b| && a == b[..|a|]
  }

  /** `a` and `b` agree before position `k` and `a` is smaller at `k`. */
  predicate SmallerAt(a: string, b: string, k: nat) {
    k < |a| && k < |b| && a[..k] == b[..k] && a[k] < b[k]
  }

  /** The order as Go defines it: `a` is a proper prefix of `b`, or at the
      first position where they differ `a` holds the smaller character. */
  lemma {:induction false} LexLessFirstDifference(a: string, b: string)
    ensures LexLess(a, b) <==> ProperPrefix(a, b) || exists k: nat :: SmallerAt(a, b, k)
    decreases |a|
  {
    if a != [] && b != [] {
      if a[0] == b[0] {
        LexLessFirstDifference(a[1..], b[1..]);
        ProperPrefixTail(a, b);
        if exists k: nat :: SmallerAt(a[1..], b[1..], k) {
          var k: nat :| SmallerAt(a[1..], b[1..], k);
          SmallerAtTail(a, b, k);
        }
        if exists k: nat :: SmallerAt(a, b, k) {
          var k: nat :| SmallerAt(a, b, k);
          assert k != 0;
          SmallerAtTail(a, b, k - 1);
        }
      } else if a[0] < b[0] {
        assert SmallerAt(a, b, 0);
      }
    }
  }

  /** With equal first characters, prefixes are decided on the tails ... */
  lemma ProperPrefixTail(a: string, b: string)
    requires a != [] && b != [] && a[0] == b[0]
    ensures ProperPrefix(a, b) <==> ProperPrefix(a[1..], b[1..])
  {
    if |a| < |b| {
      assert b[..|a|] == [b[0]] + b[1..][..|a| - 1];
      assert a == [a[0]] + a[1..];
    }
  }

  /** ... and so are differences, one position further on. */
  lemma SmallerAtTail(a: string, b: string, k: nat)
    requires a != [] && b != [] && a[0] == b[0]
    ensures SmallerAt(a, b, k + 1) <==> SmallerAt(a[1..], b[1..], k)
  {
    if k < |a| - 1 && k < |b| - 1 {
      assert a[..k + 1] == [a[0]] + a[1..][..k];
      assert b[..k + 1] == [b[0]] + b[1..][..k];
    }
  }

  lemma {:induction false} LexLessIrreflexive(a: string)
    ensures !LexLess(a, a)
    decreases |a|
  {
    if a != [] {
      LexLessIrreflexive(a[1..]);
    }
  }

  /** Two different strings of equal length are strictly ordered one way. */
  lemma {:induction false} LexLessTotal(a: string, b: string)
    requires |a| == |b| && a != b
    ensures LexLess(a, b) != LexLess(b, a)
    decreases |a|
  {
    if a[0] == b[0] {
      assert a == [a[0]] + a[1..] && b == [b[0]] + b[1..];
      LexLessTotal(a[1..], b[1..]);
    }
  }

  /** Comparing equal-length heads first, then the tails. */
  lemma {:induction false} LexLessConcat(a1: string, a2: string, b1: string, b2: string)
    requires |a1| == |b1|
    ensures LexLess(a1 + a2, b1 + b2) <==> LexLess(a1, b1) || (a1 == b1 && LexLess(a2, b2))
    decreases |a1|
  {
    if a1 != [] {
      assert (a1 + a2)[0] == a1[0] && (b1 + b2)[0] == b1[0];
      assert (a1 + a2)[1..] == a1[1..] + a2 && (b1 + b2)[1..] == b1[1..] + b2;
      LexLessConcat(a1[1..], a2, b1[1..], b2);
      if a1[0] == b1[0] {
        assert a1 == b1 <==> a1[1..] == b1[1..] by {
          assert a1 == [a1[0]] + a1[1..] && b1 == [b1[0]] + b1[1..];
        }
      }
    } else {
      assert a1 + a2 == a2 && b1 + b2 == b2;
    }
  }
}
