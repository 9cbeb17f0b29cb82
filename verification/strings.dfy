/** The handful of Python `str` operations the engine relies on, over
    `seq<char>`. Case folding and whitespace are the ASCII parts of Python's
    Unicode tables: `lower` maps `A`-`Z` only, and whitespace is the ASCII set
    for which `str.isspace` holds (which is also what the `\s` class matches). */
module Strings {
  import opened Results

  // ---------------------------------------------------------------------------
  // Characters

  /** The characters Python's `str.isspace` accepts among the first 128. */
  const SpaceChars: set<char> :=
    {' ', '\t', '\n', '\r', '\U{000B}', '\U{000C}', '\U{001C}', '\U{001D}', '\U{001E}', '\U{001F}'}

  predicate IsSpace(c: char) {
    c in SpaceChars
  }

  predicate IsUpper(c: char) {
    'A' <= c <= 'Z'
  }

  predicate IsLowerLetter(c: char) {
    'a' <= c <= 'z'
  }

  predicate IsDigit(c: char) {
    '0' <= c <= '9'
  }

  /** `c.lower()` for ASCII. */
  function LowerChar(c: char): (d: char)
    ensures IsUpper(c) ==> d as int == c as int + 32 && IsLowerLetter(d)
    ensures !IsUpper(c) ==> d == c
    ensures !IsUpper(d)
  {
    if IsUpper(c) then (c as int + 32) as char else c
  }

  /** `s.lower()`, character by character. */
  function Lower(s: string): (r: string)
    ensures |r| == |s|
    ensures forall i :: 0 <= i < |s| ==> r[i] == LowerChar(s[i])
  {
    seq(|s|, i requires 0 <= i < |s| => LowerChar(s[i]))
  }

  lemma LowerIdempotent(s: string)
    ensures Lower(Lower(s)) == Lower(s)
  {
  }

  /** A string without capitals is its own lower-case form. */
  lemma LowerNoUpper(s: string)
    requires forall i :: 0 <= i < |s| ==> !IsUpper(s[i])
    ensures Lower(s) == s
  {
  }

  lemma LowerAppend(a: string, b: string)
    ensures Lower(a + b) == Lower(a) + Lower(b)
  {
  }

  lemma LowerSlice(s: string, i: int, j: int)
    requires 0 <= i <= j <= |s|
    ensures Lower(s[i..j]) == Lower(s)[i..j]
  {
  }

  // ---------------------------------------------------------------------------
  // Prefixes, suffixes, occurrences

  predicate StartsWith(s: string, p: string) {
    |p| <= |s| && s[..|p|] == p
  }

  predicate EndsWith(s: string, p: string) {
    |p| <= |s| && s[|s| - |p|..] == p
  }

  lemma StartsWithJoin(a: string, b: string)
    ensures StartsWith(a + b, a)
  {
    assert (a + b)[..|a|] == a;
  }

  lemma EndsWithJoin(a: string, b: string)
    ensures EndsWith(a + b, b)
  {
    assert (a + b)[|a|..] == b;
  }

  /** A prefix, character by character. */
  lemma StartsWithChars(s: string, p: string)
    requires |p| <= |s| && forall k :: 0 <= k < |p| ==> s[k] == p[k]
    ensures StartsWith(s, p)
  {
  }

  /** A suffix, character by character. */
  lemma EndsWithChars(s: string, p: string)
    requires |p| <= |s| && forall k :: 0 <= k < |p| ==> s[|s| - |p| + k] == p[k]
    ensures EndsWith(s, p)
  {
    var t := s[|s| - |p|..];
    assert forall k :: 0 <= k < |p| ==> t[k] == s[|s| - |p| + k];
  }

  /** One differing character rules out a prefix. */
  lemma NotStartsWith(s: string, p: string, k: int)
    requires |p| <= |s| ==> 0 <= k < |p| && s[k] != p[k]
    ensures !StartsWith(s, p)
  {
    if |p| <= |s| {
      assert s[..|p|][k] == s[k];
    }
  }

  /** One differing character rules out a suffix. */
  lemma NotEndsWith(s: string, p: string, k: int)
    requires |p| <= |s| ==> 0 <= k < |p| && s[|s| - |p| + k] != p[k]
    ensures !EndsWith(s, p)
  {
    if |p| <= |s| {
      assert s[|s| - |p|..][k] == s[|s| - |p| + k];
    }
  }

  /** A slice of a slice is a slice of the whole. */
  lemma SliceOfSlice<T>(s: seq<T>, a: int, b: int, i: int, j: int)
    requires 0 <= a <= b <= |s| && 0 <= i <= j <= b - a
    ensures s[a..b][i..j] == s[a + i..a + j]
  {
    var u := s[a..b];
    assert |u[i..j]| == |s[a + i..a + j]|;
    forall k | 0 <= k < j - i
      ensures u[i..j][k] == s[a + i..a + j][k]
    {
      assert u[i..j][k] == u[i + k];
      assert u[i + k] == s[a + i + k];
    }
  }

  /** `t` occurs in `s` at index `i`. */
  predicate OccursAt(s: string, i: int, t: string) {
    0 <= i && i + |t| <= |s| && s[i..i + |t|] == t
  }

  /** `s.find(t)`, with `None` for -1: the first index where `t` occurs. */
  function IndexOf(s: string, t: string): (r: Option<nat>)
    ensures r.Some? ==> OccursAt(s, r.value, t)
    ensures r.Some? ==> forall j :: 0 <= j < r.value ==> !OccursAt(s, j, t)
    ensures r.None? ==> forall j :: !OccursAt(s, j, t)
    decreases |s|
  {
    if StartsWith(s, t) then Some(0)
    else if |s| == 0 then None
    else
      var rest := IndexOf(s[1..], t);
      assert forall j :: 1 <= j ==> (OccursAt(s, j, t) <==> OccursAt(s[1..], j - 1, t)) by {
        forall j | 1 <= j
          ensures OccursAt(s, j, t) <==> OccursAt(s[1..], j - 1, t)
        {
          if j + |t| <= |s| {
            SliceOfSlice(s, 1, |s|, j - 1, j - 1 + |t|);
          }
        }
      }
      match rest
      case None => None
      case Some(k) => Some(k + 1)
  }

  /** Python's `t in s`. */
  predicate Contains(s: string, t: string) {
    IndexOf(s, t).Some?
  }

  lemma ContainsIff(s: string, t: string)
    ensures Contains(s, t) <==> exists j :: OccursAt(s, j, t)
  {
  }

  /** An occurrence is a witness for `in`. */
  lemma ContainsAt(s: string, i: int, t: string)
    requires OccursAt(s, i, t)
    ensures Contains(s, t)
  {
  }

  /** A string occurs in every string that contains it. */
  lemma ContainsTransitive(s: string, i: int, mid: string, t: string)
    requires OccursAt(s, i, mid)
    requires Contains(mid, t)
    ensures Contains(s, t)
  {
    var k := IndexOf(mid, t).value;
    SliceOfSlice(s, i, i + |mid|, k, k + |t|);
    ContainsAt(s, i + k, t);
  }

  /** Every occurrence of a non-empty string starts with its first character. */
  lemma ContainsFirstChar(s: string, t: string)
    ensures Contains(s, t) && |t| > 0 ==> t[0] in s
  {
    if Contains(s, t) && |t| > 0 {
      var j := IndexOf(s, t).value;
      assert s[j..j + |t|][0] == s[j];
    }
  }

  /** Likewise for a suffix. */
  lemma EndsWithFirstChar(s: string, t: string)
    ensures EndsWith(s, t) && |t| > 0 ==> t[0] in s
  {
    if EndsWith(s, t) && |t| > 0 {
      assert s[|s| - |t|..][0] == s[|s| - |t|];
    }
  }

  // ---------------------------------------------------------------------------
  // Whitespace trimming

  predicate AllSpace(s: string) {
    forall i :: 0 <= i < |s| ==> IsSpace(s[i])
  }

  /** The end of the run of whitespace that starts at `i`, looking no
      further than `e`. */
  function SkipSpace(s: string, i: nat, e: nat): (j: nat)
    requires i <= e <= |s|
    ensures i <= j <= e
    decreases e - i
  {
    if i < e && IsSpace(s[i]) then SkipSpace(s, i + 1, e) else i
  }

  /** The start of the run of whitespace that ends at `e`. */
  function TrimEnd(s: string, e: nat): (j: nat)
    requires e <= |s|
    ensures j <= e
    decreases e
  {
    if e > 0 && IsSpace(s[e - 1]) then TrimEnd(s, e - 1) else e
  }

  /** `SkipSpace` stops at the first non-space character. */
  lemma {:induction false} SkipSpaceSpec(s: string, i: nat, e: nat)
    requires i <= e <= |s|
    ensures forall k :: i <= k < SkipSpace(s, i, e) ==> IsSpace(s[k])
    ensures SkipSpace(s, i, e) < e ==> !IsSpace(s[SkipSpace(s, i, e)])
    decreases e - i
  {
    if i < e && IsSpace(s[i]) {
      SkipSpaceSpec(s, i + 1, e);
    }
  }

  /** `TrimEnd` stops after the last non-space character. */
  lemma {:induction false} TrimEndSpec(s: string, e: nat)
    requires e <= |s|
    ensures forall k :: TrimEnd(s, e) <= k < e ==> IsSpace(s[k])
    ensures TrimEnd(s, e) > 0 ==> !IsSpace(s[TrimEnd(s, e) - 1])
    decreases e
  {
    if e > 0 && IsSpace(s[e - 1]) {
      TrimEndSpec(s, e - 1);
    }
  }

  /** The contract of `SkipSpace` determines its result. */
  lemma {:induction false} SkipSpaceUnique(s: string, i: nat, e: nat, j: nat)
    requires i <= j <= e <= |s|
    requires forall k :: i <= k < j ==> IsSpace(s[k])
    requires j < e ==> !IsSpace(s[j])
    ensures SkipSpace(s, i, e) == j
    decreases e - i
  {
    if i < j {
      SkipSpaceUnique(s, i + 1, e, j);
    }
  }

  /** The contract of `TrimEnd` determines its result. */
  lemma {:induction false} TrimEndUnique(s: string, e: nat, j: nat)
    requires j <= e <= |s|
    requires forall k :: j <= k < e ==> IsSpace(s[k])
    requires j > 0 ==> !IsSpace(s[j - 1])
    ensures TrimEnd(s, e) == j
    decreases e
  {
    if j < e {
      TrimEndUnique(s, e - 1, j);
    }
  }

  /** `s.rstrip()`: the longest prefix not ending in whitespace. */
  function RStrip(s: string): (r: string)
    ensures |r| <= |s| && r == s[..|r|]
    ensures AllSpace(s[|r|..])
    ensures |r| == 0 || !IsSpace(r[|r| - 1])
  {
    TrimEndSpec(s, |s|);
    s[..TrimEnd(s, |s|)]
  }

  /** `s.strip()`: what is left once the whitespace at both ends is gone. */
  function Strip(s: string): (r: string)
    ensures |r| == 0 || (!IsSpace(r[0]) && !IsSpace(r[|r| - 1]))
  {
    var e := TrimEnd(s, |s|);
    TrimEndSpec(s, |s|);
    SkipSpaceSpec(s, 0, e);
    s[SkipSpace(s, 0, e)..e]
  }

  /** Where the stripped text sits in the original. */
  lemma StripSpan(s: string) returns (i: int)
    ensures 0 <= i <= |s| - |Strip(s)| && s[i..i + |Strip(s)|] == Strip(s)
    ensures AllSpace(s[..i]) && AllSpace(s[i + |Strip(s)|..])
  {
    var e := TrimEnd(s, |s|);
    i := SkipSpace(s, 0, e);
    TrimEndSpec(s, |s|);
    SkipSpaceSpec(s, 0, e);
    assert Strip(s) == s[i..e];
  }

  /** Stripping a string that has no whitespace at either end returns it. */
  lemma StripTrimmed(s: string)
    requires |s| == 0 || (!IsSpace(s[0]) && !IsSpace(s[|s| - 1]))
    ensures Strip(s) == s
  {
    TrimEndUnique(s, |s|, |s|);
    SkipSpaceUnique(s, 0, |s|, 0);
    assert s[0..|s|] == s;
  }

  lemma StripIdempotent(s: string)
    ensures Strip(Strip(s)) == Strip(s)
  {
    StripTrimmed(Strip(s));
  }

  /** Leading whitespace does not change what `strip` returns. */
  lemma StripLeading(a: string, m: string)
    requires AllSpace(a)
    ensures Strip(a + m) == Strip(m)
  {
    if TrimEnd(m, |m|) == 0 {
      StripLeadingBlank(a, m);
    } else {
      StripLeadingText(a, m);
    }
  }

  /** Where the characters of `a + m` come from. */
  lemma JoinedIndex(a: string, m: string, k: int)
    requires 0 <= k < |a| + |m|
    ensures k < |a| ==> (a + m)[k] == a[k]
    ensures |a| <= k ==> (a + m)[k] == m[k - |a|]
  {
  }

  lemma StripLeadingBlank(a: string, m: string)
    requires AllSpace(a) && TrimEnd(m, |m|) == 0
    ensures Strip(a + m) == Strip(m)
  {
    TrimEndSpec(m, |m|);
    var s := a + m;
    forall k | 0 <= k < |s|
      ensures IsSpace(s[k])
    {
      JoinedIndex(a, m, k);
    }
    TrimEndUnique(s, |s|, 0);
  }

  lemma StripLeadingText(a: string, m: string)
    requires AllSpace(a) && TrimEnd(m, |m|) > 0
    ensures Strip(a + m) == Strip(m)
  {
    var em := TrimEnd(m, |m|);
    StripLeadingAt(a, m, SkipSpace(m, 0, em), em);
  }

  lemma StripLeadingAt(a: string, m: string, bm: nat, em: nat)
    requires AllSpace(a) && em == TrimEnd(m, |m|) && em > 0 && bm == SkipSpace(m, 0, em)
    ensures Strip(a + m) == Strip(m)
  {
    LeadingCuts(a, m, bm, em);
    StripShift(a + m, m, |a|, bm, em);
  }

  /** The cut points of `a + m` are those of `m` moved by `|a|`. */
  lemma LeadingCuts(a: string, m: string, bm: nat, em: nat)
    requires AllSpace(a) && em == TrimEnd(m, |m|) && em > 0 && bm == SkipSpace(m, 0, em)
    ensures |a| + em == TrimEnd(a + m, |a + m|) && |a| + bm == SkipSpace(a + m, 0, |a| + em)
    ensures (a + m)[|a| + bm..|a| + em] == m[bm..em]
  {
    TrimEndLeading(a, m);
    SkipSpaceLeading(a, m);
    JoinedSlice(a, m, bm, em);
  }

  /** Two strings whose cut points differ by `x` and whose kept parts agree
      strip to the same text. */
  lemma StripShift(s: string, m: string, x: nat, bm: nat, em: nat)
    requires em == TrimEnd(m, |m|) && bm == SkipSpace(m, 0, em)
    requires x + em == TrimEnd(s, |s|) && x + bm == SkipSpace(s, 0, x + em)
    requires s[x + bm..x + em] == m[bm..em]
    ensures Strip(s) == Strip(m)
  {
    StripAt(s, x + bm, x + em);
    StripAt(m, bm, em);
  }

  /** Trailing whitespace of `a + m` starts where that of `m` does. */
  lemma TrimEndLeading(a: string, m: string)
    requires TrimEnd(m, |m|) > 0
    ensures TrimEnd(a + m, |a + m|) == |a| + TrimEnd(m, |m|)
  {
    var s := a + m;
    var em := TrimEnd(m, |m|);
    TrimEndSpec(m, |m|);
    forall k | |a| + em <= k < |s|
      ensures IsSpace(s[k])
    {
      JoinedIndex(a, m, k);
    }
    JoinedIndex(a, m, |a| + em - 1);
    TrimEndUnique(s, |s|, |a| + em);
  }

  /** Leading whitespace of `a + m` ends where that of `m` does. */
  lemma SkipSpaceLeading(a: string, m: string)
    requires AllSpace(a) && TrimEnd(m, |m|) > 0
    ensures SkipSpace(a + m, 0, |a| + TrimEnd(m, |m|)) == |a| + SkipSpace(m, 0, TrimEnd(m, |m|))
  {
    var s := a + m;
    var em := TrimEnd(m, |m|);
    var bm := SkipSpace(m, 0, em);
    SkipSpaceSpec(m, 0, em);
    forall k | 0 <= k < |a| + bm
      ensures IsSpace(s[k])
    {
      JoinedIndex(a, m, k);
    }
    if bm < em {
      JoinedIndex(a, m, |a| + bm);
    }
    SkipSpaceUnique(s, 0, |a| + em, |a| + bm);
  }

  lemma StripAt(s: string, i: nat, e: nat)
    requires e == TrimEnd(s, |s|) && i == SkipSpace(s, 0, e)
    ensures Strip(s) == s[i..e]
  {
  }

  lemma JoinedSlice(a: string, m: string, x: nat, y: nat)
    requires x <= y <= |m|
    ensures (a + m)[|a| + x..|a| + y] == m[x..y]
  {
    var s := a + m;
    forall k | 0 <= k < y - x
      ensures s[|a| + x..|a| + y][k] == m[x..y][k]
    {
      assert s[|a| + x + k] == m[x + k];
    }
  }

  // ---------------------------------------------------------------------------
  // Splitting and joining

  predicate NoNewline(s: string) {
    '\n' !in s
  }

  /** `s.split(sep)` for a non-empty separator: the pieces between
      non-overlapping occurrences, found left to right. */
  function SplitOn(s: string, sep: string): (parts: seq<string>)
    requires |sep| > 0
    ensures |parts| >= 1
    decreases |s|
  {
    match IndexOf(s, sep)
    case None => [s]
    case Some(i) => [s[..i]] + SplitOn(s[i + |sep|..], sep)
  }

  /** `sep.join(parts)`. */
  function JoinWith(parts: seq<string>, sep: string): string
    decreases |parts|
  {
    if |parts| == 0 then ""
    else if |parts| == 1 then parts[0]
    else parts[0] + sep + JoinWith(parts[1..], sep)
  }

  /** Joining the pieces of a split with the same separator restores the text. */
  lemma {:induction false} JoinSplit(s: string, sep: string)
    requires |sep| > 0
    ensures JoinWith(SplitOn(s, sep), sep) == s
    decreases |s|
  {
    match IndexOf(s, sep)
    case None =>
    case Some(i) =>
      var rest := s[i + |sep|..];
      assert SplitOn(s, sep) == [s[..i]] + SplitOn(rest, sep);
      JoinSplit(rest, sep);
      JoinWithCons(s[..i], SplitOn(rest, sep), sep);
      SliceJoin(s, i, i + |sep|);
  }

  /** A sequence is its three consecutive slices put together. */
  lemma SliceJoin<T>(s: seq<T>, i: int, j: int)
    requires 0 <= i <= j <= |s|
    ensures s[..i] + s[i..j] + s[j..] == s
  {
  }

  lemma JoinWithCons(a: string, parts: seq<string>, sep: string)
    requires |parts| >= 1
    ensures JoinWith([a] + parts, sep) == a + sep + JoinWith(parts, sep)
  {
    assert ([a] + parts)[1..] == parts;
  }

  /** No piece of a split contains the separator. */
  lemma {:induction false} SplitPiecesFree(s: string, sep: string)
    requires |sep| > 0
    ensures forall j :: 0 <= j < |SplitOn(s, sep)| ==> !Contains(SplitOn(s, sep)[j], sep)
    decreases |s|
  {
    match IndexOf(s, sep)
    case None =>
    case Some(i) =>
      var rest := s[i + |sep|..];
      SplitPiecesFree(rest, sep);
      var parts := SplitOn(s, sep);
      assert parts == [s[..i]] + SplitOn(rest, sep);
      FirstPieceFree(s, sep, i);
      forall j | 0 <= j < |parts|
        ensures !Contains(parts[j], sep)
      {
        if j > 0 {
          assert parts[j] == SplitOn(rest, sep)[j - 1];
        }
      }
  }

  /** The text before the first occurrence does not contain another. */
  lemma FirstPieceFree(s: string, sep: string, i: nat)
    requires |sep| > 0 && IndexOf(s, sep) == Some(i)
    ensures !Contains(s[..i], sep)
  {
    forall j
      ensures !OccursAt(s[..i], j, sep)
    {
      if 0 <= j && j + |sep| <= i {
        PrefixOccurs(s, i, j, sep);
      }
    }
    ContainsIff(s[..i], sep);
  }

  /** An occurrence inside a prefix is an occurrence in the whole. */
  lemma PrefixOccurs(s: string, i: int, j: int, t: string)
    requires 0 <= j && j + |t| <= i <= |s|
    ensures OccursAt(s[..i], j, t) <==> OccursAt(s, j, t)
  {
    assert s[..i][j..j + |t|] == s[j..j + |t|];
  }

  /** `text.split('\n')`: the lines of a text. */
  function Lines(text: string): (ls: seq<string>)
    ensures |ls| >= 1
  {
    SplitOn(text, "\n")
  }

  /** `'\n'.join(lines)`. */
  function Unlines(lines: seq<string>): string {
    JoinWith(lines, "\n")
  }

  lemma NoNewlineContains(s: string)
    ensures NoNewline(s) <==> !Contains(s, "\n")
  {
    if !NoNewline(s) {
      var j :| 0 <= j < |s| && s[j] == '\n';
      assert s[j..j + 1] == "\n";
      ContainsAt(s, j, "\n");
    }
    ContainsFirstChar(s, "\n");
  }

  /** Every line produced by `split('\n')` is free of line breaks. */
  lemma LinesNoNewline(text: string)
    ensures forall j :: 0 <= j < |Lines(text)| ==> NoNewline(Lines(text)[j])
  {
    SplitPiecesFree(text, "\n");
    forall j | 0 <= j < |Lines(text)|
      ensures NoNewline(Lines(text)[j])
    {
      NoNewlineContains(Lines(text)[j]);
    }
  }

  /** Joining the lines of a text restores it. */
  lemma UnlinesLines(text: string)
    ensures Unlines(Lines(text)) == text
  {
    JoinSplit(text, "\n");
  }

  /** Splitting a join of newline-free lines gives them back; this needs at
      least one line because `''.split('\n')` is `['']`, not `[]`. */
  lemma {:induction false} LinesUnlines(ls: seq<string>)
    requires |ls| >= 1
    requires forall j :: 0 <= j < |ls| ==> NoNewline(ls[j])
    ensures Lines(Unlines(ls)) == ls
    decreases |ls|
  {
    NoNewlineContains(ls[0]);
    if |ls| == 1 {
      assert IndexOf(ls[0], "\n").None?;
    } else {
      var s := Unlines(ls);
      var rest := Unlines(ls[1..]);
      assert s == ls[0] + "\n" + rest;
      assert OccursAt(s, |ls[0]|, "\n");
      forall j | 0 <= j < |ls[0]|
        ensures !OccursAt(s, j, "\n")
      {
        assert s[j] == ls[0][j];
        assert ls[0][j] in ls[0];
      }
      assert IndexOf(s, "\n") == Some(|ls[0]|);
      assert s[|ls[0]| + 1..] == rest;
      assert s[..|ls[0]|] == ls[0];
      LinesUnlines(ls[1..]);
    }
  }

  /** Joining two non-empty runs of lines puts one line break between them. */
  lemma {:induction false} UnlinesAppend(a: seq<string>, b: seq<string>)
    requires |a| >= 1 && |b| >= 1
    ensures Unlines(a + b) == Unlines(a) + "\n" + Unlines(b)
    decreases |a|
  {
    if |a| == 1 {
      assert (a + b)[1..] == b;
    } else {
      assert (a + b)[1..] == a[1..] + b;
      UnlinesAppend(a[1..], b);
    }
  }

  lemma UnlinesEmpty()
    ensures Unlines([]) == ""
    ensures Lines("") == [""]
  {
    assert IndexOf("", "\n").None?;
  }

  // ---------------------------------------------------------------------------
  // Small builders

  /** `c * n` for a one-character string. */
  function Repeat(c: char, n: nat): (r: string)
    ensures |r| == n
    ensures forall i :: 0 <= i < n ==> r[i] == c
  {
    if n == 0 then "" else [c] + Repeat(c, n - 1)
  }

  /** `''.join(pieces)`. */
  function Concat(pieces: seq<string>): string
    decreases |pieces|
  {
    if |pieces| == 0 then "" else pieces[0] + Concat(pieces[1..])
  }

  lemma {:induction false} ConcatAppend(a: seq<string>, b: seq<string>)
    ensures Concat(a + b) == Concat(a) + Concat(b)
    decreases |a|
  {
    if |a| == 0 {
      assert a + b == b;
    } else {
      assert (a + b)[1..] == a[1..] + b;
      ConcatAppend(a[1..], b);
    }
  }
}
