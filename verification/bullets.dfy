/** The deletion `_remove_features` performs on one section's text
    (readme_updater.py): `re.sub(pattern, '', content, flags=re.MULTILINE |
    re.IGNORECASE)` with `pattern = ^\s*[-*+]\s+.*F.*$` and `F` the escaped
    feature name.

    The search tries every position from left to right. `^` only holds at a
    line start. `\s*` and `\s+` may run over line breaks, `.` may not, and
    `$` holds before a line break or at the end. With both `.*` greedy the
    matcher commits to the last place on the line where `F` fits, so a match
    is determined by where it starts; `MatchAt` computes that place and
    `PatternMatch` states the pattern part by part. */
module Bullets {
  import opened Results
  import opened Strings

  /** `^` under `re.MULTILINE`. */
  predicate LineStart(s: string, p: int) {
    p == 0 || (0 < p <= |s| && s[p - 1] == '\n')
  }

  /** `[-*+]`. */
  predicate IsMarker(c: char) {
    c == '-' || c == '*' || c == '+'
  }

  /** Where `.*` followed by `$` stops when started at `i`: the next line
      break, or the end of the text. */
  function LineEnd(s: string, i: nat): (e: nat)
    requires i <= |s|
    ensures i <= e <= |s|
    ensures e < |s| ==> s[e] == '\n'
    decreases |s| - i
  {
    if i == |s| || s[i] == '\n' then i else LineEnd(s, i + 1)
  }

  lemma {:induction false} LineEndSpec(s: string, i: nat)
    requires i <= |s|
    ensures forall k :: i <= k < LineEnd(s, i) ==> s[k] != '\n'
    decreases |s| - i
  {
    if i < |s| && s[i] != '\n' {
      LineEndSpec(s, i + 1);
    }
  }

  /** A line end reached without crossing a line break is the line end. */
  lemma {:induction false} LineEndUnique(s: string, i: nat, e: nat)
    requires i <= e <= |s|
    requires forall k :: i <= k < e ==> s[k] != '\n'
    requires e < |s| ==> s[e] == '\n'
    ensures LineEnd(s, i) == e
    decreases e - i
  {
    if i < e {
      LineEndUnique(s, i + 1, e);
    }
  }

  /** The escaped feature text matches at `c`, ignoring case. */
  predicate Hit(s: string, f: string, c: int) {
    0 <= c && c + |f| <= |s| && Lower(s[c..c + |f|]) == Lower(f)
  }

  /** The last position in `lo..hi` where the feature text matches. */
  function LastHit(s: string, f: string, lo: nat, hi: nat): (r: Option<nat>)
    ensures r.Some? ==> lo <= r.value <= hi && r.value + |f| <= |s|
    decreases hi
  {
    if hi < lo then None
    else if Hit(s, f, hi) then Some(hi)
    else if hi == 0 then None
    else LastHit(s, f, lo, hi - 1)
  }

  lemma {:induction false} LastHitSpec(s: string, f: string, lo: nat, hi: nat)
    ensures LastHit(s, f, lo, hi).Some? ==> Hit(s, f, LastHit(s, f, lo, hi).value)
    ensures LastHit(s, f, lo, hi).Some? ==> forall c :: LastHit(s, f, lo, hi).value < c <= hi ==> !Hit(s, f, c)
    ensures LastHit(s, f, lo, hi).None? ==> forall c :: lo <= c <= hi ==> !Hit(s, f, c)
    decreases hi
  {
    if lo <= hi && !Hit(s, f, hi) && hi > 0 {
      LastHitSpec(s, f, lo, hi - 1);
    }
  }

  /** Where the feature text sits in the match that starts at `p`, if the
      pattern matches there. `a` is the marker, which `\s*` must reach;
      `b` is where `\s+` can stop at the latest. */
  function MatchAt(s: string, f: string, p: nat): (r: Option<nat>)
    requires p <= |s|
    ensures r.Some? ==> p + 2 <= r.value && r.value + |f| <= |s|
  {
    var a := SkipSpace(s, p, |s|);
    if a == |s| || !IsMarker(s[a]) then None
    else
      var b := SkipSpace(s, a + 1, |s|);
      if b == a + 1 then None
      else LastHit(s, f, a + 2, LineEnd(s, b))
  }

  /** Where the match that starts at `p` ends. */
  function MatchEnd(s: string, f: string, p: nat): (r: Option<nat>)
    requires p <= |s|
    ensures r.Some? ==> p < r.value <= |s|
  {
    match MatchAt(s, f, p)
    case None => None
    case Some(c) => Some(LineEnd(s, c + |f|))
  }

  /** The pattern matches `s[p..e]` with `\s*` taking `s[p..a]`, the marker
      at `a`, `\s+` taking `s[a + 1..b]`, the first `.*` taking `s[b..c]`,
      the feature text at `c`, and the second `.*` up to `e`. */
  ghost predicate PatternMatch(s: string, f: string, p: int, a: int, b: int, c: int, e: int) {
    && 0 <= p <= a < b <= c && a + 1 < b
    && Hit(s, f, c)
    && c + |f| <= e <= |s|
    && (forall k :: p <= k < a ==> IsSpace(s[k]))
    && IsMarker(s[a])
    && (forall k :: a + 1 <= k < b ==> IsSpace(s[k]))
    && (forall k :: b <= k < c ==> s[k] != '\n')
    && (forall k :: c + |f| <= k < e ==> s[k] != '\n')
    && (e == |s| || s[e] == '\n')
  }

  /** What `MatchAt` finds is a match of the pattern: `\s*` up to the
      marker, the longest `\s+` that does not pass the feature text, and
      `.*` to the end of the line. */
  lemma MatchAtSound(s: string, f: string, p: nat, c: nat)
    requires p <= |s| && MatchAt(s, f, p) == Some(c)
    ensures var a := SkipSpace(s, p, |s|); var b0 := SkipSpace(s, a + 1, |s|);
      PatternMatch(s, f, p, a, if c < b0 then c else b0, c, LineEnd(s, c + |f|))
  {
    var a := SkipSpace(s, p, |s|);
    var b0 := SkipSpace(s, a + 1, |s|);
    SkipSpaceSpec(s, p, |s|);
    SkipSpaceSpec(s, a + 1, |s|);
    LineEndSpec(s, b0);
    MatchAtShape(s, f, p, a, b0);
    LastHitSpec(s, f, a + 2, LineEnd(s, b0));
    SoundBy(s, f, p, a, b0, LineEnd(s, b0), c);
  }

  lemma SoundBy(s: string, f: string, p: nat, a: nat, b0: nat, le: nat, c: nat)
    requires p <= a < |s| && a + 2 <= b0 <= le <= |s| && a + 2 <= c <= le
    requires Hit(s, f, c) && IsMarker(s[a])
    requires forall k :: p <= k < a ==> IsSpace(s[k])
    requires forall k :: a + 1 <= k < b0 ==> IsSpace(s[k])
    requires forall k :: b0 <= k < le ==> s[k] != '\n'
    ensures PatternMatch(s, f, p, a, if c < b0 then c else b0, c, LineEnd(s, c + |f|))
  {
    LineEndSpec(s, c + |f|);
  }

  /** Every match of the pattern at `p` is found, with its end, and `MatchAt`
      picks the feature text no earlier than any match places it: the
      backtracking of the two greedy `.*`. */
  lemma MatchAtComplete(s: string, f: string, p: nat, a: int, b: int, c: int, e: int)
    requires p <= |s| && PatternMatch(s, f, p, a, b, c, e)
    ensures MatchAt(s, f, p).Some? && c <= MatchAt(s, f, p).value
    ensures e == LineEnd(s, c + |f|)
  {
    SkipSpaceUnique(s, p, |s|, a);
    SpaceRunWithin(s, a + 1, b);
    var b0 := SkipSpace(s, a + 1, |s|);
    CommitsToLine(s, b, b0, c);
    MatchAtShape(s, f, p, a, b0);
    LastHitAtLeast(s, f, a + 2, LineEnd(s, b0), c);
    LineEndUnique(s, c + |f|, e);
  }

  /** `MatchAt` once the marker and the whitespace after it are found. */
  lemma MatchAtShape(s: string, f: string, p: nat, a: nat, b0: nat)
    requires p <= a < |s| && a == SkipSpace(s, p, |s|) && IsMarker(s[a])
    requires b0 == SkipSpace(s, a + 1, |s|) && b0 != a + 1
    ensures MatchAt(s, f, p) == LastHit(s, f, a + 2, LineEnd(s, b0))
  {
  }

  /** The last hit in a range is at or after any hit in it. */
  lemma LastHitAtLeast(s: string, f: string, lo: nat, hi: nat, c: nat)
    requires lo <= c <= hi && Hit(s, f, c)
    ensures LastHit(s, f, lo, hi).Some? && c <= LastHit(s, f, lo, hi).value
  {
    LastHitSpec(s, f, lo, hi);
  }

  /** A run of whitespace from `i` to `b` is within the one `SkipSpace` takes. */
  lemma SpaceRunWithin(s: string, i: nat, b: nat)
    requires i <= b <= |s|
    requires forall k :: i <= k < b ==> IsSpace(s[k])
    ensures b <= SkipSpace(s, i, |s|)
  {
    SkipSpaceSpec(s, i, |s|);
  }

  /** A `.*` from `b` reaching `c` stays on the line that `b0` is on. */
  lemma CommitsToLine(s: string, b: nat, b0: nat, c: nat)
    requires b <= b0 <= |s| && c <= |s|
    requires forall k :: b <= k < c ==> s[k] != '\n'
    ensures c <= LineEnd(s, b0)
  {
    LineEndSpec(s, b0);
  }

  // ---------------------------------------------------------------------------
  // The substitution

  /** A bullet line mentioning the feature starts at `q`. */
  predicate Mentions(s: string, f: string, q: nat) {
    q < |s| && LineStart(s, q) && MatchAt(s, f, q).Some?
  }

  /** `re.sub` from position `pos` on: each match is deleted and the search
      resumes where it ended; elsewhere the character is kept. */
  function SubFrom(s: string, f: string, pos: nat): (r: string)
    requires pos <= |s|
    ensures |r| <= |s| - pos
    decreases |s| - pos
  {
    if pos == |s| then ""
    else if LineStart(s, pos) && MatchEnd(s, f, pos).Some? then SubFrom(s, f, MatchEnd(s, f, pos).value)
    else [s[pos]] + SubFrom(s, f, pos + 1)
  }

  /** `re.sub(pattern, '', s, flags=re.MULTILINE | re.IGNORECASE)`. */
  function Sub(s: string, f: string): (r: string)
    ensures |r| <= |s|
  {
    SubFrom(s, f, 0)
  }

  /** Without a mentioning bullet line the rest of the text is kept. */
  lemma {:induction false} SubFromKeeps(s: string, f: string, pos: nat)
    requires pos <= |s|
    requires forall q :: pos <= q < |s| ==> !Mentions(s, f, q)
    ensures SubFrom(s, f, pos) == s[pos..]
    decreases |s| - pos
  {
    if pos < |s| {
      assert !Mentions(s, f, pos);
      assert SubFrom(s, f, pos) == [s[pos]] + SubFrom(s, f, pos + 1);
      SubFromKeeps(s, f, pos + 1);
      assert s[pos..] == [s[pos]] + s[pos + 1..];
    }
  }

  /** With one the text gets strictly shorter. */
  lemma {:induction false} SubFromShrinks(s: string, f: string, pos: nat, q: nat)
    requires pos <= q && Mentions(s, f, q)
    ensures |SubFrom(s, f, pos)| < |s| - pos
    decreases |s| - pos
  {
    if LineStart(s, pos) && MatchEnd(s, f, pos).Some? {
    } else {
      assert pos != q;
      SubFromShrinks(s, f, pos + 1, q);
    }
  }

  /** The substitution leaves the text as it is exactly when no bullet line
      mentions the feature. */
  lemma SubUnchangedIff(s: string, f: string)
    ensures Sub(s, f) == s <==> forall q :: 0 <= q < |s| ==> !Mentions(s, f, q)
    ensures Sub(s, f) != s ==> |Sub(s, f)| < |s|
  {
    if forall q :: 0 <= q < |s| ==> !Mentions(s, f, q) {
      SubFromKeeps(s, f, 0);
    } else {
      var q :| 0 <= q < |s| && Mentions(s, f, q);
      SubFromShrinks(s, f, 0, q);
    }
  }

  /** The substitutions for all features in turn, from the `i`-th on. */
  function SubAll(s: string, fs: seq<string>, i: nat): (r: string)
    requires i <= |fs|
    ensures |r| <= |s|
    decreases |fs| - i
  {
    if i == |fs| then s else SubAll(Sub(s, fs[i]), fs, i + 1)
  }

  /** The loop over the features in `_remove_features` for one section. */
  function RemoveAll(s: string, fs: seq<string>): (r: string)
    ensures |r| <= |s|
  {
    SubAll(s, fs, 0)
  }

  /** No bullet line of the text mentions the feature. */
  predicate Unmentioned(s: string, f: string) {
    forall q :: 0 <= q < |s| ==> !Mentions(s, f, q)
  }

  lemma {:induction false} SubAllUnchangedIff(s: string, fs: seq<string>, i: nat)
    requires i <= |fs|
    ensures SubAll(s, fs, i) == s <==> forall j :: i <= j < |fs| ==> Unmentioned(s, fs[j])
    decreases |fs| - i
  {
    if i < |fs| {
      var t := Sub(s, fs[i]);
      SubUnchangedIff(s, fs[i]);
      SubAllUnchangedIff(t, fs, i + 1);
      if t != s {
        assert |t| < |s|;
        assert |SubAll(t, fs, i + 1)| < |s|;
      }
    }
  }

  /** A section's text comes out of the feature loop unchanged exactly when
      no feature is mentioned on one of its bullet lines. */
  lemma RemoveAllUnchangedIff(s: string, fs: seq<string>)
    ensures RemoveAll(s, fs) == s <==> forall j :: 0 <= j < |fs| ==> Unmentioned(s, fs[j])
  {
    SubAllUnchangedIff(s, fs, 0);
  }
}
