/** The classifications the filter tests assert, worked out on the model,
    including the two where the code and its tests disagree. */
module FilterExamples {
  import opened Strings
  import opened Patterns
  import opened Filters

  /** A one-line name without a directory part: only the suffix alternatives
      can match it. */
  lemma FlatName(p: string)
    requires '\n' !in p && '/' !in p
    ensures Body(p) == p && FirstLine(p) == p
    ensures !InfixPattern(p, "/test/") && !InfixPattern(p, "/tests/") && !InfixPattern(p, "/__tests__/")
    ensures !InfixPattern(p, "/doc/") && !InfixPattern(p, "/docs/")
    ensures !EndPattern(p, "/readme.md")
  {
    ContainsFirstChar(p, "\n");
    ContainsFirstChar(p, "/test/");
    ContainsFirstChar(p, "/tests/");
    ContainsFirstChar(p, "/__tests__/");
    ContainsFirstChar(p, "/doc/");
    ContainsFirstChar(p, "/docs/");
    EndsWithFirstChar(p, "/readme.md");
  }

  lemma PrefixTestName()
    ensures IsTestFile("test_example.py")
  {
    PrefixTestFacts("test_example.py");
    PrefixTestBy("test_example.py");
  }

  lemma PrefixTestFacts(p: string)
    requires p == "test_example.py"
    ensures Lower(p) == p && '\n' !in p && '/' !in p
    ensures |p| >= 8 && StartsWith(p, "test_") && EndsWith(p, ".py")
  {
    LowerNoUpper(p);
    StartsWithChars(p, "test_");
    EndsWithChars(p, ".py");
  }

  /** A flat lower-case name of the form `test_*.py` is a test file. */
  lemma PrefixTestBy(p: string)
    requires Lower(p) == p && '\n' !in p && '/' !in p
    requires |p| >= 8 && StartsWith(p, "test_") && EndsWith(p, ".py")
    ensures IsTestFile(p)
  {
    FlatName(p);
  }

  lemma SuffixTestFacts(p: string, stem: string, lit: string)
    requires forall i :: 0 <= i < |p| ==> !IsUpper(p[i]) && p[i] != '\n' && p[i] != '/'
    requires p == stem + lit
    ensures Lower(p) == p && '\n' !in p && '/' !in p && EndsWith(p, lit)
  {
    LowerNoUpper(p);
    EndsWithJoin(stem, lit);
  }

  /** A flat lower-case name ending in one of the test suffixes is a test file. */
  lemma SuffixTestBy(p: string, lit: string)
    requires Lower(p) == p && '\n' !in p && '/' !in p && EndsWith(p, lit)
    requires lit == "_test.py" || lit == ".test.js" || lit == ".spec.ts"
    ensures IsTestFile(p)
  {
    FlatName(p);
  }

  lemma SuffixTestName()
    ensures IsTestFile("example_test.py")
  {
    SuffixTestFacts("example_test.py", "example", "_test.py");
    SuffixTestBy("example_test.py", "_test.py");
  }

  /** The suffix tests on `example.py`, knowing only the characters that rule
      each one out. */
  lemma PlainModuleSuffixes(p: string)
    requires Body(p) == p && |p| == 10 && p[0] == 'e' && p[6] == 'e' && p[9] == 'y'
    ensures !EndPattern(p, "_test.py") && !EndPattern(p, ".test.py") && !EndPattern(p, ".test.js")
    ensures !EndPattern(p, ".test.ts") && !EndPattern(p, ".spec.js") && !EndPattern(p, ".spec.ts")
    ensures !EndPattern(p, "_test.go") && !EndPattern(p, ".test.go")
    ensures !PrefixEndPattern(p, "test_", ".py")
  {
    NotEndsWith(p, "_test.py", 4);
    NotEndsWith(p, ".test.py", 4);
    NotEndsWith(p, ".test.js", 7);
    NotEndsWith(p, ".test.ts", 7);
    NotEndsWith(p, ".spec.js", 7);
    NotEndsWith(p, ".spec.ts", 7);
    NotEndsWith(p, "_test.go", 7);
    NotEndsWith(p, ".test.go", 7);
    NotStartsWith(p, "test_", 0);
  }

  lemma PlainModulesAreNotTests()
    ensures !IsTestFile("example.py")
  {
    var p := "example.py";
    assert Lower(p) == p;
    assert p[0] == 'e' && p[6] == 'e' && p[9] == 'y';
    PlainModuleNotTest(p);
  }

  lemma PlainModuleNotTest(p: string)
    requires Lower(p) == p && '\n' !in p && '/' !in p
    requires |p| == 10 && p[0] == 'e' && p[6] == 'e' && p[9] == 'y'
    ensures !IsTestFile(p)
  {
    FlatName(p);
    PlainModuleSuffixes(p);
  }

  lemma ScriptTestName()
    ensures IsTestFile("example.test.js")
  {
    SuffixTestFacts("example.test.js", "example", ".test.js");
    SuffixTestBy("example.test.js", ".test.js");
  }

  lemma SpecTestName()
    ensures IsTestFile("example.spec.ts")
  {
    SuffixTestFacts("example.spec.ts", "example", ".spec.ts");
    SuffixTestBy("example.spec.ts", ".spec.ts");
  }

  /** The directory alternative needs a `/` before `test`, so a path that
      starts with the directory name is not a test file. */
  lemma TopLevelTestsDirectoryIsNotTest()
    ensures !IsTestFile("tests/test_utils.py")
  {
    var p := "tests/test_utils.py";
    assert Lower(p) == p;
    assert p[4] == 's' && p[5] == '/' && p[11] == 'u' && p[18] == 'y';
    assert forall j :: 0 <= j < |p| && j != 5 ==> p[j] != '/';
    TopLevelNotTest(p);
  }

  lemma TopLevelNotTest(p: string)
    requires Lower(p) == p && '\n' !in p
    requires |p| == 19 && p[4] == 's' && p[5] == '/' && p[11] == 'u' && p[18] == 'y'
    requires forall j :: 0 <= j < |p| && j != 5 ==> p[j] != '/'
    ensures !IsTestFile(p)
  {
    ContainsFirstChar(p, "\n");
    assert Body(p) == p && FirstLine(p) == p;
    TopLevelTestsSuffixes(p);
    TopLevelTestsInfixes(p);
  }

  lemma TopLevelTestsInfixes(p: string)
    requires FirstLine(p) == p && 5 < |p| && p[5] == '/'
    requires forall j :: 0 <= j < |p| && j != 5 ==> p[j] != '/'
    ensures !InfixPattern(p, "/test/") && !InfixPattern(p, "/tests/") && !InfixPattern(p, "/__tests__/")
  {
    SingleSlash(p, 5, "/test/");
    SingleSlash(p, 5, "/tests/");
    SingleSlash(p, 5, "/__tests__/");
  }

  /** A string with one `/` cannot contain a literal that starts and ends with one. */
  lemma SingleSlash(p: string, k: nat, lit: string)
    requires k < |p| && p[k] == '/'
    requires forall j :: 0 <= j < |p| && j != k ==> p[j] != '/'
    requires |lit| >= 2 && lit[0] == '/' && lit[|lit| - 1] == '/'
    ensures !Contains(p, lit)
  {
    forall j | 0 <= j
      ensures !OccursAt(p, j, lit)
    {
      if j + |lit| <= |p| {
        assert p[j..j + |lit|][0] == p[j];
        assert p[j..j + |lit|][|lit| - 1] == p[j + |lit| - 1];
      }
    }
    ContainsIff(p, lit);
  }

  lemma TopLevelTestsSuffixes(p: string)
    requires Body(p) == p && |p| == 19 && p[4] == 's' && p[11] == 'u' && p[18] == 'y'
    ensures !EndPattern(p, "_test.py") && !EndPattern(p, ".test.py") && !EndPattern(p, ".test.js")
    ensures !EndPattern(p, ".test.ts") && !EndPattern(p, ".spec.js") && !EndPattern(p, ".spec.ts")
    ensures !EndPattern(p, "_test.go") && !EndPattern(p, ".test.go")
    ensures !PrefixEndPattern(p, "test_", ".py")
  {
    NotEndsWith(p, "_test.py", 0);
    NotEndsWith(p, ".test.py", 0);
    NotEndsWith(p, ".test.js", 7);
    NotEndsWith(p, ".test.ts", 7);
    NotEndsWith(p, ".spec.js", 7);
    NotEndsWith(p, ".spec.ts", 7);
    NotEndsWith(p, "_test.go", 7);
    NotEndsWith(p, ".test.go", 7);
    NotStartsWith(p, "test_", 4);
  }

  lemma UpperReadme()
    ensures IsReadmeFile("README.md")
  {
    assert Lower("README.md") == "readme.md";
    ExactReadmeBy("README.md", "readme.md");
  }

  lemma LowerReadme()
    ensures IsReadmeFile("readme.md")
  {
    assert Lower("readme.md") == "readme.md";
    ExactReadmeBy("readme.md", "readme.md");
  }

  /** A path whose lower-case form is exactly `readme.md` is a README. */
  lemma ExactReadmeBy(q: string, p: string)
    requires Lower(q) == p && p == "readme.md"
    ensures IsReadmeFile(q)
  {
    FlatName(p);
  }

  lemma NestedReadme()
    ensures IsReadmeFile("docs/README.md")
  {
    NestedReadmeFacts("docs/README.md", "docs/readme.md");
    NestedReadmeBy("docs/README.md", "docs/readme.md");
  }

  lemma NestedReadmeFacts(q: string, p: string)
    requires q == "docs/README.md" && p == "docs/readme.md"
    ensures Lower(q) == p && '\n' !in p && EndsWith(p, "/readme.md")
  {
    NestedReadmeLower(q, p);
    EndsWithChars(p, "/readme.md");
  }

  lemma NestedReadmeLower(q: string, p: string)
    requires q == "docs/README.md" && p == "docs/readme.md"
    ensures Lower(q) == p
  {
  }

  /** A one-line path whose lower-case form ends in `/readme.md` is a README. */
  lemma NestedReadmeBy(q: string, p: string)
    requires Lower(q) == p && '\n' !in p && EndsWith(p, "/readme.md")
    ensures IsReadmeFile(q)
  {
    ContainsFirstChar(p, "\n");
    assert Body(p) == p;
  }

  lemma NotAReadme()
    ensures !IsReadmeFile("READTHIS.md")
  {
    var p := "readthis.md";
    assert Lower("READTHIS.md") == p;
    assert p[1] == 'e' && p[10] == 'd';
    NotAReadmeParts("READTHIS.md", p);
  }

  lemma NotAReadmeParts(q: string, p: string)
    requires Lower(q) == p && '\n' !in p && '/' !in p
    requires |p| == 11 && p[1] == 'e' && p[10] == 'd'
    ensures !IsReadmeFile(q)
  {
    FlatName(p);
    NotEndsWith(p, "/readme.md", 0);
    NotEndsWith(p, ".readme", 6);
  }

  /** `.gitignore` is neither a test, a README nor a document, so it is one
      of the code files, as the comment in `get_code_files` intends. */
  lemma GitignoreIsCode(paths: seq<string>)
    requires ".gitignore" in paths
    ensures ".gitignore" in GetCodeFiles(paths)
  {
    var p := ".gitignore";
    assert Lower(p) == p;
    assert p[0] == '.' && p[3] == 't' && p[9] == 'e';
    GitignoreIsCodeBy(p, paths);
  }

  lemma GitignoreIsCodeBy(p: string, paths: seq<string>)
    requires Lower(p) == p && '\n' !in p && '/' !in p && p in paths
    requires |p| == 10 && p[0] == '.' && p[3] == 't' && p[9] == 'e'
    ensures p in GetCodeFiles(paths)
  {
    FlatName(p);
    GitignoreSuffixes(p);
  }

  lemma GitignoreSuffixes(p: string)
    requires Body(p) == p && |p| == 10 && p[0] == '.' && p[3] == 't' && p[9] == 'e'
    ensures !EndPattern(p, "_test.py") && !EndPattern(p, ".test.py") && !EndPattern(p, ".test.js")
    ensures !EndPattern(p, ".test.ts") && !EndPattern(p, ".spec.js") && !EndPattern(p, ".spec.ts")
    ensures !EndPattern(p, "_test.go") && !EndPattern(p, ".test.go")
    ensures !PrefixEndPattern(p, "test_", ".py")
    ensures !ExactPattern(p, "readme.md") && !ExactPattern(p, "readme.txt") && !ExactPattern(p, "readme")
    ensures !EndPattern(p, ".readme") && !EndPattern(p, ".md")
  {
    NotEndsWith(p, "_test.py", 7);
    NotEndsWith(p, ".test.py", 7);
    NotEndsWith(p, ".test.js", 7);
    NotEndsWith(p, ".test.ts", 7);
    NotEndsWith(p, ".spec.js", 7);
    NotEndsWith(p, ".spec.ts", 7);
    NotEndsWith(p, "_test.go", 7);
    NotEndsWith(p, ".test.go", 7);
    NotStartsWith(p, "test_", 0);
    assert p[0] != "readme.txt"[0];
    NotEndsWith(p, ".readme", 0);
    NotEndsWith(p, ".md", 2);
  }
}
