/** `ChangeFilter` and `should_skip_analysis` from filters.py: path
    classification by case-insensitive regular expressions, and the list
    filters built on it. Every pattern is matched with `re.match`, so it is
    anchored at the start of the path; IGNORECASE is modelled by lower-casing
    the path, since every pattern is already lower case. */
module Filters {
  import opened Strings
  import opened Patterns

  // ---------------------------------------------------------------------------
  // Pattern sets

  /** `is_test_file`: IGNORECASE is the lower-casing of the path. */
  predicate IsTestFile(path: string) {
    TestPatterns(Lower(path))
  }

  predicate IsReadmeFile(path: string) {
    ReadmePatterns(Lower(path))
  }

  predicate IsDocFile(path: string) {
    DocPatterns(Lower(path))
  }

  /** TEST_PATTERNS, one disjunct per alternative, in source order. */
  predicate TestPatterns(p: string) {
    || EndPattern(p, "_test.py") || EndPattern(p, ".test.py")       // .*[_\.]test\.py$
    || PrefixEndPattern(p, "test_", ".py")                          // ^test_.*\.py$
    || EndPattern(p, ".test.js")
    || EndPattern(p, ".test.ts")
    || EndPattern(p, ".spec.js")
    || EndPattern(p, ".spec.ts")
    || InfixPattern(p, "/test/") || InfixPattern(p, "/tests/")      // .*/tests?/.*
    || InfixPattern(p, "/__tests__/")
    || EndPattern(p, "_test.go") || EndPattern(p, ".test.go")       // .*[_\.]test\.go$
    || EndPattern(p, "_test.go")                                    // .*_test\.go$ (subsumed)
  }

  /** README_PATTERNS. */
  predicate ReadmePatterns(p: string) {
    || ExactPattern(p, "readme.md")
    || ExactPattern(p, "readme.txt")
    || ExactPattern(p, "readme")
    || EndPattern(p, "/readme.md")
    || EndPattern(p, ".readme")
  }

  /** DOC_PATTERNS. */
  predicate DocPatterns(p: string) {
    || EndPattern(p, ".md")
    || InfixPattern(p, "/doc/") || InfixPattern(p, "/docs/")        // .*/docs?/.*
  }

  /** The same three sets read as `re.match` over the alternations. */
  ghost predicate TestRegexMatches(path: string) {
    var p := Lower(path);
    || MatchesDotStarEnd(p, "_test.py") || MatchesDotStarEnd(p, ".test.py")
    || MatchesPrefixDotStarEnd(p, "test_", ".py")
    || MatchesDotStarEnd(p, ".test.js") || MatchesDotStarEnd(p, ".test.ts")
    || MatchesDotStarEnd(p, ".spec.js") || MatchesDotStarEnd(p, ".spec.ts")
    || MatchesInfix(p, "/test/") || MatchesInfix(p, "/tests/")
    || MatchesInfix(p, "/__tests__/")
    || MatchesDotStarEnd(p, "_test.go") || MatchesDotStarEnd(p, ".test.go")
  }

  ghost predicate ReadmeRegexMatches(path: string) {
    var p := Lower(path);
    || MatchesExact(p, "readme.md") || MatchesExact(p, "readme.txt") || MatchesExact(p, "readme")
    || MatchesDotStarEnd(p, "/readme.md") || MatchesDotStarEnd(p, ".readme")
  }

  ghost predicate DocRegexMatches(path: string) {
    var p := Lower(path);
    MatchesDotStarEnd(p, ".md") || MatchesInfix(p, "/doc/") || MatchesInfix(p, "/docs/")
  }

  lemma IsTestFileIsMatch(path: string)
    ensures IsTestFile(path) <==> TestRegexMatches(path)
  {
    var p := Lower(path);
    EndPatternIsMatch(p, "_test.py");
    EndPatternIsMatch(p, ".test.py");
    PrefixEndPatternIsMatch(p, "test_", ".py");
    EndPatternIsMatch(p, ".test.js");
    EndPatternIsMatch(p, ".test.ts");
    EndPatternIsMatch(p, ".spec.js");
    EndPatternIsMatch(p, ".spec.ts");
    InfixPatternIsMatch(p, "/test/");
    InfixPatternIsMatch(p, "/tests/");
    InfixPatternIsMatch(p, "/__tests__/");
    EndPatternIsMatch(p, "_test.go");
    EndPatternIsMatch(p, ".test.go");
  }

  lemma IsReadmeFileIsMatch(path: string)
    ensures IsReadmeFile(path) <==> ReadmeRegexMatches(path)
  {
    var p := Lower(path);
    ExactPatternIsMatch(p, "readme.md");
    ExactPatternIsMatch(p, "readme.txt");
    ExactPatternIsMatch(p, "readme");
    EndPatternIsMatch(p, "/readme.md");
    EndPatternIsMatch(p, ".readme");
  }

  lemma IsDocFileIsMatch(path: string)
    ensures IsDocFile(path) <==> DocRegexMatches(path)
  {
    var p := Lower(path);
    EndPatternIsMatch(p, ".md");
    InfixPatternIsMatch(p, "/doc/");
    InfixPatternIsMatch(p, "/docs/");
  }

  /** Case does not matter to any of the three classifications. */
  lemma ClassificationIgnoresCase(path: string)
    ensures IsTestFile(Lower(path)) == IsTestFile(path)
    ensures IsReadmeFile(Lower(path)) == IsReadmeFile(path)
    ensures IsDocFile(Lower(path)) == IsDocFile(path)
  {
    LowerIdempotent(path);
  }

  // ---------------------------------------------------------------------------
  // List filters

  /** `b` lists every element of `a`, in the same order, possibly among others. */
  predicate IsSubsequence<T(==)>(a: seq<T>, b: seq<T>)
    decreases |b|
  {
    |a| == 0 || (|b| > 0 && ((a[0] == b[0] && IsSubsequence(a[1..], b[1..])) || IsSubsequence(a, b[1..])))
  }

  lemma {:induction false} SubsequenceRefl<T>(a: seq<T>)
    ensures IsSubsequence(a, a)
    decreases |a|
  {
    if |a| > 0 {
      SubsequenceRefl(a[1..]);
    }
  }

  /** Whether `filter_files` keeps a path under the given flags. */
  predicate Kept(path: string, excludeTests: bool, excludeReadme: bool) {
    !(excludeTests && IsTestFile(path)) && !(excludeReadme && IsReadmeFile(path))
  }

  /** `ChangeFilter.filter_files`. */
  function FilterFiles(paths: seq<string>, excludeTests: bool, excludeReadme: bool): (r: seq<string>)
    ensures IsSubsequence(r, paths)
    ensures forall p :: p in r <==> p in paths && Kept(p, excludeTests, excludeReadme)
    ensures forall p :: multiset(r)[p] == if Kept(p, excludeTests, excludeReadme) then multiset(paths)[p] else 0
    ensures !excludeTests && !excludeReadme ==> r == paths
    decreases |paths|
  {
    if |paths| == 0 then []
    else
      var rest := FilterFiles(paths[1..], excludeTests, excludeReadme);
      assert paths == [paths[0]] + paths[1..];
      assert forall p :: p in paths <==> p == paths[0] || p in paths[1..];
      if excludeTests && IsTestFile(paths[0]) then rest
      else if excludeReadme && IsReadmeFile(paths[0]) then rest
      else [paths[0]] + rest
  }

  /** Filtering twice with the same flags changes nothing the second time. */
  lemma {:induction false} FilterFilesIdempotent(paths: seq<string>, excludeTests: bool, excludeReadme: bool)
    ensures FilterFiles(FilterFiles(paths, excludeTests, excludeReadme), excludeTests, excludeReadme)
         == FilterFiles(paths, excludeTests, excludeReadme)
    decreases |paths|
  {
    if |paths| > 0 {
      FilterFilesIdempotent(paths[1..], excludeTests, excludeReadme);
      var r := FilterFiles(paths, excludeTests, excludeReadme);
      if Kept(paths[0], excludeTests, excludeReadme) {
        assert r[1..] == FilterFiles(paths[1..], excludeTests, excludeReadme);
      }
    }
  }

  /** The paths of a list that are not READMEs (the comprehension in
      `is_readme_only_commit`). */
  function NonReadmeFiles(paths: seq<string>): (r: seq<string>)
    ensures forall p :: p in r <==> p in paths && !IsReadmeFile(p)
    decreases |paths|
  {
    if |paths| == 0 then []
    else
      assert forall p :: p in paths <==> p == paths[0] || p in paths[1..];
      (if IsReadmeFile(paths[0]) then [] else [paths[0]]) + NonReadmeFiles(paths[1..])
  }

  /** `ChangeFilter.is_readme_only_commit`. */
  function IsReadmeOnlyCommit(changed: seq<string>): (r: bool)
    ensures r <==> |changed| > 0 && forall p :: p in changed ==> IsReadmeFile(p)
  {
    if |changed| == 0 then false
    else
      var others := NonReadmeFiles(changed);
      assert |others| > 0 ==> others[0] in others;
      |others| == 0
  }

  /** `ChangeFilter.get_code_files`: drops tests, READMEs and documentation. */
  function GetCodeFiles(paths: seq<string>): (r: seq<string>)
    ensures IsSubsequence(r, paths)
    ensures forall p :: p in r <==> p in paths && !IsTestFile(p) && !IsReadmeFile(p) && !IsDocFile(p)
    ensures forall p :: multiset(r)[p] == if !IsTestFile(p) && !IsReadmeFile(p) && !IsDocFile(p) then multiset(paths)[p] else 0
    decreases |paths|
  {
    if |paths| == 0 then []
    else
      var rest := GetCodeFiles(paths[1..]);
      assert paths == [paths[0]] + paths[1..];
      assert forall p :: p in paths <==> p == paths[0] || p in paths[1..];
      if IsTestFile(paths[0]) then rest
      else if IsReadmeFile(paths[0]) || IsDocFile(paths[0]) then rest
      else [paths[0]] + rest
  }

  /** The code files are a subsequence of what `filter_files` keeps with its
      default flags: `get_code_files` only filters further. */
  lemma {:induction false} CodeFilesWithinFiltered(paths: seq<string>)
    ensures IsSubsequence(GetCodeFiles(paths), FilterFiles(paths, true, true))
    decreases |paths|
  {
    if |paths| > 0 {
      CodeFilesWithinFiltered(paths[1..]);
      var c := GetCodeFiles(paths);
      var f := FilterFiles(paths, true, true);
      if Kept(paths[0], true, true) && !IsDocFile(paths[0]) {
        assert c[0] == f[0] && c[1..] == GetCodeFiles(paths[1..]) && f[1..] == FilterFiles(paths[1..], true, true);
      } else if Kept(paths[0], true, true) {
        assert f[1..] == FilterFiles(paths[1..], true, true);
        assert c == GetCodeFiles(paths[1..]);
        SubsequenceSkip(c, f);
      }
    }
  }

  lemma SubsequenceSkip<T>(a: seq<T>, b: seq<T>)
    requires |b| > 0 && IsSubsequence(a, b[1..])
    ensures IsSubsequence(a, b)
  {
  }

  // ---------------------------------------------------------------------------
  // Commit messages

  /** The markers `should_skip_analysis` looks for, in source order. */
  const SkipMarkers: seq<string> := [
    "[skip-pr-analyzer]",
    "[skip-analyzer]",
    "[no-analyze]",
    "docs: update README based on PR changes"
  ]

  /** Python's `any(marker in message for marker in markers)`. */
  function AnyMarker(message: string, markers: seq<string>): (r: bool)
    ensures r <==> exists i :: 0 <= i < |markers| && Contains(message, markers[i])
    decreases |markers|
  {
    if |markers| == 0 then false
    else if Contains(message, markers[0]) then true
    else
      var r := AnyMarker(message, markers[1..]);
      assert forall i :: 1 <= i < |markers| ==> markers[i] == markers[1..][i - 1];
      r
  }

  /** `should_skip_analysis`: a case-sensitive substring test against each marker. */
  function ShouldSkipAnalysis(message: string): (r: bool)
    ensures r <==> exists i :: 0 <= i < |SkipMarkers| && Contains(message, SkipMarkers[i])
  {
    AnyMarker(message, SkipMarkers)
  }
}
