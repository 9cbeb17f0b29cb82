/** The shapes of regular expression the path filters and the e-mail check
    use, each given twice: as what Python's `re.match` accepts (a ghost
    predicate quantifying over where the pattern's parts fall) and as a direct
    string test, with a lemma that the two agree.

    Without MULTILINE, `.` matches any character except a line break and `$`
    matches at the end of the subject or just before a line break that ends it. */
module Patterns {
  import opened Strings
  import opened Results

  /** The positions where `$` matches in `s`. */
  predicate DollarAt(s: string, k: int) {
    k == |s| || (k == |s| - 1 && 0 <= k && s[k] == '\n')
  }

  /** `s` less one trailing line break: the text a pattern ending in `$` must
      cover. */
  function Body(s: string): (b: string)
    ensures DollarAt(s, |b|) && b == s[..|b|]
  {
    if |s| > 0 && s[|s| - 1] == '\n' then s[..|s| - 1] else s
  }

  /** The text before the first line break: how far a leading `.*` can reach. */
  function FirstLine(s: string): (f: string)
    ensures NoNewline(f) && |f| <= |s| && f == s[..|f|]
    ensures |f| < |s| ==> s[|f|] == '\n'
  {
    match IndexOf(s, "\n")
    case None =>
      NoNewlineContains(s);
      s
    case Some(i) =>
      assert s[i] == s[i..i + 1][0];
      forall j | 0 <= j < i
        ensures s[j] != '\n'
      {
        assert s[j] == '\n' ==> OccursAt(s, j, "\n");
      }
      s[..i]
  }

  // ---------------------------------------------------------------------------
  // What `re.match` accepts

  /** `re.match('.*' + lit + '$', s)`. */
  ghost predicate MatchesDotStarEnd(s: string, lit: string) {
    exists k :: 0 <= k <= |s| && DollarAt(s, k) && NoNewline(s[..k]) && EndsWith(s[..k], lit)
  }

  /** `re.match(pre + '.*' + suf + '$', s)`: the `.*` covers `s[|pre|..k - |suf|]`. */
  ghost predicate MatchesPrefixDotStarEnd(s: string, pre: string, suf: string) {
    exists k :: 0 <= k <= |s| && DollarAt(s, k) && |pre| + |suf| <= k
      && StartsWith(s, pre) && NoNewline(s[|pre|..k - |suf|]) && EndsWith(s[..k], suf)
  }

  /** `re.match(lit + '$', s)`. */
  ghost predicate MatchesExact(s: string, lit: string) {
    exists k :: 0 <= k <= |s| && DollarAt(s, k) && s[..k] == lit
  }

  /** `re.match('.*' + lit + '.*', s)`: the trailing `.*` may match nothing. */
  ghost predicate MatchesInfix(s: string, lit: string) {
    exists i :: 0 <= i <= |s| && NoNewline(s[..i]) && OccursAt(s, i, lit)
  }

  // ---------------------------------------------------------------------------
  // Direct tests

  predicate EndPattern(s: string, lit: string) {
    NoNewline(Body(s)) && EndsWith(Body(s), lit)
  }

  predicate PrefixEndPattern(s: string, pre: string, suf: string) {
    var b := Body(s);
    NoNewline(b) && |pre| + |suf| <= |b| && StartsWith(b, pre) && EndsWith(b, suf)
  }

  predicate ExactPattern(s: string, lit: string) {
    Body(s) == lit
  }

  predicate InfixPattern(s: string, lit: string) {
    Contains(FirstLine(s), lit)
  }

  // ---------------------------------------------------------------------------
  // Agreement

  /** The only place `$` can match after a line-free prefix is the end of the body. */
  lemma DollarAfterLineFree(s: string, k: int)
    requires 0 <= k <= |s| && DollarAt(s, k) && NoNewline(s[..k])
    ensures k == |Body(s)|
  {
    if |s| > 0 && k == |s| {
      assert s[..k][|s| - 1] == s[|s| - 1];
    }
  }

  lemma EndPatternIsMatch(s: string, lit: string)
    ensures EndPattern(s, lit) <==> MatchesDotStarEnd(s, lit)
  {
    var b := Body(s);
    if MatchesDotStarEnd(s, lit) {
      var k :| 0 <= k <= |s| && DollarAt(s, k) && NoNewline(s[..k]) && EndsWith(s[..k], lit);
      DollarAfterLineFree(s, k);
    }
    if EndPattern(s, lit) {
      assert 0 <= |b| <= |s| && DollarAt(s, |b|) && s[..|b|] == b;
    }
  }

  lemma PrefixEndPatternIsMatch(s: string, pre: string, suf: string)
    requires NoNewline(pre) && NoNewline(suf)
    ensures PrefixEndPattern(s, pre, suf) <==> MatchesPrefixDotStarEnd(s, pre, suf)
  {
    var b := Body(s);
    if MatchesPrefixDotStarEnd(s, pre, suf) {
      var k :| 0 <= k <= |s| && DollarAt(s, k) && |pre| + |suf| <= k
        && StartsWith(s, pre) && NoNewline(s[|pre|..k - |suf|]) && EndsWith(s[..k], suf);
      assert s[..k] == pre + s[|pre|..k - |suf|] + suf;
      forall c | c in s[..k]
        ensures c != '\n'
      {
        assert c in pre || c in s[|pre|..k - |suf|] || c in suf;
      }
      DollarAfterLineFree(s, k);
    }
    if PrefixEndPattern(s, pre, suf) {
      assert s[|pre|..|b| - |suf|] == b[|pre|..|b| - |suf|];
      assert 0 <= |b| <= |s| && DollarAt(s, |b|) && s[..|b|] == b;
    }
  }

  lemma ExactPatternIsMatch(s: string, lit: string)
    requires NoNewline(lit)
    ensures ExactPattern(s, lit) <==> MatchesExact(s, lit)
  {
    var b := Body(s);
    if MatchesExact(s, lit) {
      var k :| 0 <= k <= |s| && DollarAt(s, k) && s[..k] == lit;
      DollarAfterLineFree(s, k);
    }
    if ExactPattern(s, lit) {
      assert DollarAt(s, |b|) && s[..|b|] == b;
    }
  }

  lemma InfixPatternIsMatch(s: string, lit: string)
    requires NoNewline(lit)
    ensures InfixPattern(s, lit) <==> MatchesInfix(s, lit)
  {
    var f := FirstLine(s);
    if MatchesInfix(s, lit) {
      var i :| 0 <= i <= |s| && NoNewline(s[..i]) && OccursAt(s, i, lit);
      // the occurrence lies inside the first line
      forall j | 0 <= j < i + |lit|
        ensures s[j] != '\n'
      {
        if j < i {
          assert s[j] == s[..i][j];
        } else {
          assert s[j] == lit[j - i];
        }
      }
      assert f[i..i + |lit|] == s[i..i + |lit|];
      ContainsAt(f, i, lit);
    }
    if InfixPattern(s, lit) {
      var i := IndexOf(f, lit).value;
      SliceOfSlice(s, 0, |f|, 0, i);
      SliceOfSlice(s, 0, |f|, i, i + |lit|);
    }
  }
}
