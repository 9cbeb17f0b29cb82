/** The section map of `READMEUpdater` (readme_updater.py): the ordered dict
    from section titles to their data, the heading recogniser, the line
    scanner `_parse_sections`, and the lookup `_find_section`.

    A Python dict keeps each key at the place it was first inserted, and
    re-assigning a key replaces its value there; `Put` does the same on an
    association list. */
module Sections {
  import opened Results
  import opened Strings

  // ---------------------------------------------------------------------------
  // The ordered map

  /** The dict stored under one title. `Full` has all four keys; `Pending` is
      the `{'line_start': i}` placeholder written when a heading is seen and
      replaced when the section is closed. */
  datatype Info =
    | Full(level: nat, content: string, lineStart: nat, lineEnd: int)
    | Pending(lineStart: nat)

  datatype Entry = Entry(name: string, info: Info)

  type SectionMap = seq<Entry>

  /** `sections.keys()`, in order. */
  function Keys(m: SectionMap): (ks: seq<string>)
    ensures |ks| == |m|
    ensures forall i :: 0 <= i < |m| ==> ks[i] == m[i].name
  {
    seq(|m|, i requires 0 <= i < |m| => m[i].name)
  }

  /** `key in sections`. */
  predicate HasKey(m: SectionMap, key: string) {
    exists i :: 0 <= i < |m| && m[i].name == key
  }

  /** No title appears twice: what every dict satisfies. */
  predicate DistinctKeys(m: SectionMap) {
    forall i, j :: 0 <= i < j < |m| ==> m[i].name != m[j].name
  }

  /** Where `key` sits in the map. */
  function KeyIndex(m: SectionMap, key: string): (r: Option<nat>)
    ensures r.Some? ==> r.value < |m| && m[r.value].name == key
    ensures r.Some? ==> forall j :: 0 <= j < r.value ==> m[j].name != key
    ensures r.None? <==> !HasKey(m, key)
    decreases |m|
  {
    if |m| == 0 then None
    else if m[0].name == key then Some(0)
    else
      match KeyIndex(m[1..], key)
      case None =>
        assert forall i :: 1 <= i < |m| ==> m[i] == m[1..][i - 1];
        None
      case Some(k) => Some(k + 1)
  }

  /** `sections.get(key)`. */
  function Lookup(m: SectionMap, key: string): (r: Option<Info>)
    ensures r.None? <==> !HasKey(m, key)
  {
    match KeyIndex(m, key)
    case None => None
    case Some(i) => Some(m[i].info)
  }

  /** `sections[key] = value`: replaced in place when present, appended
      otherwise; no other entry changes. */
  function Put(m: SectionMap, key: string, value: Info): (r: SectionMap)
    ensures |r| == if HasKey(m, key) then |m| else |m| + 1
    ensures forall j :: 0 <= j < |m| ==> r[j] == m[j] || (m[j].name == key && r[j] == Entry(key, value))
    ensures !HasKey(m, key) ==> r == m + [Entry(key, value)]
    ensures DistinctKeys(m) ==> DistinctKeys(r)
  {
    match KeyIndex(m, key)
    case None => m + [Entry(key, value)]
    case Some(i) =>
      var r := m[i := Entry(key, value)];
      assert forall k :: 0 <= k < |r| && k != i ==> r[k] == m[k];
      r
  }

  /** After `sections[key] = value`, the key maps to the value. */
  lemma PutLookup(m: SectionMap, key: string, value: Info)
    ensures Lookup(Put(m, key, value), key) == Some(value)
  {
    var r := Put(m, key, value);
    match KeyIndex(m, key)
    case None =>
      assert r[|m|].name == key;
      assert KeyIndex(r, key) == Some(|m|);
    case Some(i) =>
      assert r == m[i := Entry(key, value)];
      assert forall j :: 0 <= j < i ==> r[j] == m[j];
      KeyIndexAt(r, key, i);
  }

  /** The first entry with the key is where `KeyIndex` finds it. */
  lemma KeyIndexAt(m: SectionMap, key: string, i: nat)
    requires i < |m| && m[i].name == key
    requires forall j :: 0 <= j < i ==> m[j].name != key
    ensures KeyIndex(m, key) == Some(i)
  {
    assert HasKey(m, key);
  }

  /** ... and every other key keeps its value. */
  lemma PutLookupOther(m: SectionMap, key: string, value: Info, other: string)
    requires other != key
    ensures Lookup(Put(m, key, value), other) == Lookup(m, other)
  {
    var r := Put(m, key, value);
    match KeyIndex(m, other)
    case None =>
      assert forall j :: 0 <= j < |r| ==> r[j].name != other;
    case Some(i) =>
      match KeyIndex(m, key)
      case None =>
        assert forall j :: 0 <= j < |m| ==> r[j] == m[j];
      case Some(p) =>
        assert r == m[p := Entry(key, value)];
        assert forall j :: 0 <= j < |m| && j != p ==> r[j] == m[j];
      assert forall j :: 0 <= j < i ==> r[j].name != other;
      KeyIndexAt(r, other, i);
  }

  /** The keys keep their order; a new key goes to the end. */
  lemma PutKeys(m: SectionMap, key: string, value: Info)
    ensures Keys(Put(m, key, value)) == if HasKey(m, key) then Keys(m) else Keys(m) + [key]
  {
  }

  /** Re-assigning the last key of a map replaces the last entry. */
  lemma PutLast(m: SectionMap, key: string, before: Info, value: Info)
    requires !HasKey(m, key)
    ensures Put(m + [Entry(key, before)], key, value) == m + [Entry(key, value)]
  {
    var m' := m + [Entry(key, before)];
    assert forall j :: 0 <= j < |m| ==> m'[j] == m[j];
    KeyIndexAt(m', key, |m|);
  }

  // ---------------------------------------------------------------------------
  // Headings

  /** The number of `#` characters a line starts with. */
  function HashRun(line: string): (h: nat)
    ensures h <= |line|
    ensures forall i :: 0 <= i < h ==> line[i] == '#'
    ensures h < |line| ==> line[h] != '#'
    decreases |line|
  {
    if |line| > 0 && line[0] == '#' then 1 + HashRun(line[1..]) else 0
  }

  /** `re.match(r'^(#{1,6})\s+(.+)$', line)` on a line without line breaks:
      `#{1,6}` must take the whole run of `#` (the next character has to be
      whitespace), and `.+` needs one more character after the first
      whitespace. */
  predicate IsHeading(line: string) {
    var h := HashRun(line);
    1 <= h <= 6 && h + 2 <= |line| && IsSpace(line[h])
  }

  /** `len(header_match.group(1))`. */
  function Level(line: string): (n: nat)
    requires IsHeading(line)
    ensures 1 <= n <= 6
  {
    HashRun(line)
  }

  /** `header_match.group(2).strip()`. Group 2 starts after the whitespace
      `\s+` took, which the strip removes anyway. */
  function Title(line: string): string
    requires IsHeading(line)
  {
    Strip(line[HashRun(line)..])
  }

  /** `re.match(r'^#{1,6}\s+', line)`, the test `_insert_after_preamble` uses. */
  predicate LooseHeading(line: string) {
    var h := HashRun(line);
    1 <= h <= 6 && h < |line| && IsSpace(line[h])
  }

  /** What the heading pattern accepts, part by part: `level` hashes, the
      whitespace `line[level..j]`, and group 2 `line[j..]`. */
  ghost predicate HeadingMatch(line: string, level: int, j: int) {
    && 1 <= level <= 6 && level < j < |line|
    && (forall i :: 0 <= i < level ==> line[i] == '#')
    && AllSpace(line[level..j])
  }

  lemma IsHeadingIsMatch(line: string)
    ensures IsHeading(line) <==> exists level, j :: HeadingMatch(line, level, j)
  {
    if IsHeading(line) {
      var h := HashRun(line);
      assert line[h..h + 1] == [line[h]];
      assert HeadingMatch(line, h, h + 1);
    }
    if exists level, j :: HeadingMatch(line, level, j) {
      var level, j :| HeadingMatch(line, level, j);
      HeadingMatchParts(line, level, j);
    }
  }

  /** Every way the pattern can match yields the same level and title. */
  lemma HeadingMatchParts(line: string, level: int, j: int)
    requires HeadingMatch(line, level, j)
    ensures IsHeading(line) && Level(line) == level && Title(line) == Strip(line[j..])
  {
    assert line[level..j][0] == line[level];
    assert IsSpace(line[level]);
    RunAt(line, level);
    assert line[level..] == line[level..j] + line[j..];
    StripLeading(line[level..j], line[j..]);
  }

  /** A run of `#` ended by a non-`#` is the whole run. */
  lemma RunAt(line: string, level: nat)
    requires level < |line| && line[level] != '#'
    requires forall i :: 0 <= i < level ==> line[i] == '#'
    ensures HashRun(line) == level
  {
  }

  /** The loose test accepts every heading, and only one other shape: the
      hashes followed by a single whitespace character. */
  lemma LooseHeadingCases(line: string)
    ensures IsHeading(line) ==> LooseHeading(line)
    ensures LooseHeading(line) && !IsHeading(line) <==> LooseHeading(line) && |line| == HashRun(line) + 1
  {
  }

  // ---------------------------------------------------------------------------
  // `_parse_sections`

  /** A line as the loop sees it after the heading test: a heading with its
      level and stripped title, or any other line, kept verbatim. */
  datatype Line = Heading(level: nat, title: string) | Plain(text: string)

  /** The heading match of one line. */
  function Classify(line: string): (l: Line)
    ensures l.Heading? <==> IsHeading(line)
    ensures l.Heading? ==> 1 <= l.level <= 6 && l.level == HashRun(line)
    ensures l.Plain? ==> l.text == line
  {
    if IsHeading(line) then Heading(Level(line), Title(line)) else Plain(line)
  }

  /** Every line of the document, classified. */
  function Classified(lines: seq<string>): (ls: seq<Line>)
    ensures |ls| == |lines|
    ensures forall j :: 0 <= j < |lines| ==> ls[j] == Classify(lines[j])
  {
    seq(|lines|, j requires 0 <= j < |lines| => Classify(lines[j]))
  }

  /** What a line adds to a section body; headings never reach one. */
  function TextOf(l: Line): string {
    match l
    case Heading(_, _) => ""
    case Plain(text) => text
  }

  function Texts(ls: seq<Line>): (ts: seq<string>)
    ensures |ts| == |ls|
    ensures forall j :: 0 <= j < |ls| ==> ts[j] == TextOf(ls[j])
  {
    seq(|ls|, j requires 0 <= j < |ls| => TextOf(ls[j]))
  }

  /** The loop variables: `current` is `current_section`, with `""` for both
      `None` and the empty title (Python treats them alike here). */
  datatype ParseState = ParseState(sections: SectionMap, current: string, level: nat, body: seq<string>)

  const Init := ParseState([], "", 0, [])

  /** The save at lines 55-61 and 87-93: the current title's placeholder
      becomes a full entry ending at `lineEnd`. The placeholder is always
      there when the scan calls this (`ScanInv`); without one the start
      would be 0. */
  function Close(st: ParseState, lineEnd: int): SectionMap {
    var start := match Lookup(st.sections, st.current)
      case Some(info) => info.lineStart
      case None => 0;
    Put(st.sections, st.current, Full(st.level, Unlines(st.body), start, lineEnd))
  }

  /** The preamble after one more line before any heading. Once present the
      preamble is a full entry (`StepKeepsInv`), so the `Pending` arm, where
      Python would raise, is never taken. */
  function ExtendPreamble(m: SectionMap, i: nat, line: string): SectionMap {
    match Lookup(m, "preamble")
    case None => Put(m, "preamble", Full(0, line, 0, i))
    case Some(Full(level, content, start, _)) => Put(m, "preamble", Full(level, content + "\n" + line, start, i))
    case Some(Pending(_)) => m
  }

  /** One iteration of the loop over `enumerate(lines)`. */
  function Step(st: ParseState, i: nat, l: Line): ParseState {
    match l
    case Heading(level, title) =>
      var saved := if st.current != "" then Close(st, i - 1) else st.sections;
      ParseState(Put(saved, title, Pending(i)), title, level, [])
    case Plain(line) =>
      if st.current != "" then st.(body := st.body + [line])
      else st.(sections := ExtendPreamble(st.sections, i, line))
  }

  /** The loop from line `i` on, started in state `st`. */
  function ScanFrom(st: ParseState, ls: seq<Line>, i: nat): ParseState
    requires i <= |ls|
    decreases |ls| - i
  {
    if i == |ls| then st else ScanFrom(Step(st, i, ls[i]), ls, i + 1)
  }

  /** The block after the loop closes the last open section. */
  function Finish(st: ParseState, n: nat): SectionMap {
    if st.current != "" then Close(st, n - 1) else st.sections
  }

  /** `READMEUpdater._parse_sections`. Only the empty title can be left with
      a placeholder, and every closed range lies within the document. */
  function Parse(text: string): (m: SectionMap)
    ensures DistinctKeys(m)
    ensures forall j :: 0 <= j < |m| ==> Settled(m[j], |Lines(text)|)
  {
    var ls := Classified(Lines(text));
    ScanKeepsInv(Init, ls, 0);
    FinishInv(ScanFrom(Init, ls, 0), |ls|);
    Finish(ScanFrom(Init, ls, 0), |ls|)
  }

  // ---------------------------------------------------------------------------
  // What the scan keeps true

  /** An entry as the parse leaves it within the first `n` lines: a
      placeholder only under the empty title, and a closed range inside. */
  predicate Settled(e: Entry, n: nat) {
    match e.info
    case Pending(start) => e.name == "" && start < n
    case Full(_, _, start, end) => start <= end < n
  }

  /** During the scan, the current title may hold a placeholder too. */
  predicate EntryOk(e: Entry, current: string, i: nat) {
    Settled(e, i) || (e.name == current && e.info.Pending? && e.info.lineStart < i)
  }

  predicate ScanInv(st: ParseState, i: nat) {
    && DistinctKeys(st.sections)
    && (forall j :: 0 <= j < |st.sections| ==> EntryOk(st.sections[j], st.current, i))
    && (st.current != "" ==> Lookup(st.sections, st.current).Some? && Lookup(st.sections, st.current).value.Pending?)
  }

  /** Closing turns the current placeholder into a range ending at `i - 1`,
      after which every entry is settled. */
  lemma CloseSettles(st: ParseState, i: nat)
    requires ScanInv(st, i) && st.current != ""
    ensures DistinctKeys(Close(st, i - 1))
    ensures var c := Close(st, i - 1); forall j :: 0 <= j < |c| ==> Settled(c[j], i)
  {
    var m := st.sections;
    var p := KeyIndex(m, st.current).value;
    assert EntryOk(m[p], st.current, i);
    var c := Close(st, i - 1);
    assert c == m[p := Entry(st.current, Full(st.level, Unlines(st.body), m[p].info.lineStart, i - 1))];
    forall j | 0 <= j < |c|
      ensures Settled(c[j], i)
    {
      if j != p {
        assert m[j].name != m[p].name;
        assert EntryOk(m[j], st.current, i);
      }
    }
  }

  /** Opening a heading at line `i` after every entry is settled. */
  lemma OpenKeepsInv(saved: SectionMap, i: nat, title: string, level: nat)
    requires DistinctKeys(saved)
    requires forall j :: 0 <= j < |saved| ==> Settled(saved[j], i)
    ensures ScanInv(ParseState(Put(saved, title, Pending(i)), title, level, []), i + 1)
  {
    var r := Put(saved, title, Pending(i));
    PutLookup(saved, title, Pending(i));
    forall j | 0 <= j < |r|
      ensures EntryOk(r[j], title, i + 1)
    {
      if j < |saved| && r[j] == saved[j] {
        assert Settled(saved[j], i);
      }
    }
  }

  lemma PreambleKeepsInv(st: ParseState, i: nat, line: string)
    requires ScanInv(st, i) && st.current == ""
    ensures ScanInv(st.(sections := ExtendPreamble(st.sections, i, line)), i + 1)
  {
    var m := st.sections;
    var r := ExtendPreamble(m, i, line);
    assert forall j :: 0 <= j < |m| ==> Settled(m[j], i) by {
      forall j | 0 <= j < |m| ensures Settled(m[j], i) {
        assert EntryOk(m[j], "", i);
      }
    }
    match KeyIndex(m, "preamble")
    case None =>
      assert r == Put(m, "preamble", Full(0, line, 0, i));
      forall j | 0 <= j < |r|
        ensures Settled(r[j], i + 1)
      {
        if j < |m| {
          assert Settled(m[j], i);
        }
      }
    case Some(p) =>
      assert Settled(m[p], i);
      forall j | 0 <= j < |r|
        ensures Settled(r[j], i + 1)
      {
        assert Settled(m[j], i);
      }
  }

  lemma StepKeepsInv(st: ParseState, i: nat, l: Line)
    requires ScanInv(st, i)
    ensures ScanInv(Step(st, i, l), i + 1)
  {
    match l
    case Heading(level, title) =>
      if st.current != "" {
        CloseSettles(st, i);
        OpenKeepsInv(Close(st, i - 1), i, title, level);
      } else {
        forall j | 0 <= j < |st.sections|
          ensures Settled(st.sections[j], i)
        {
          assert EntryOk(st.sections[j], "", i);
        }
        OpenKeepsInv(st.sections, i, title, level);
      }
    case Plain(line) =>
      if st.current == "" {
        PreambleKeepsInv(st, i, line);
      }
  }

  /** The loop keeps the invariant to the end. */
  lemma {:induction false} ScanKeepsInv(st: ParseState, ls: seq<Line>, i: nat)
    requires i <= |ls| && ScanInv(st, i)
    ensures ScanInv(ScanFrom(st, ls, i), |ls|)
    decreases |ls| - i
  {
    if i < |ls| {
      StepKeepsInv(st, i, ls[i]);
      ScanKeepsInv(Step(st, i, ls[i]), ls, i + 1);
    }
  }

  lemma FinishInv(st: ParseState, n: nat)
    requires ScanInv(st, n)
    ensures DistinctKeys(Finish(st, n))
    ensures forall j :: 0 <= j < |Finish(st, n)| ==> Settled(Finish(st, n)[j], n)
  {
    if st.current != "" {
      CloseSettles(st, n);
    } else {
      forall j | 0 <= j < |st.sections|
        ensures Settled(st.sections[j], n)
      {
        assert EntryOk(st.sections[j], "", n);
      }
    }
  }

  // ---------------------------------------------------------------------------
  // What the parse computes

  /** The last heading among the first `k` lines. */
  function LastHeading(ls: seq<Line>, k: nat): (r: Option<nat>)
    requires k <= |ls|
    ensures r.Some? ==> r.value < k && ls[r.value].Heading?
    decreases k
  {
    if k == 0 then None
    else if ls[k - 1].Heading? then Some(k - 1)
    else LastHeading(ls, k - 1)
  }

  /** No heading follows the last one, and there is none at all when the
      search finds nothing. */
  lemma {:induction false} LastHeadingIsLast(ls: seq<Line>, k: nat)
    requires k <= |ls|
    ensures LastHeading(ls, k).Some? ==> forall j :: LastHeading(ls, k).value < j < k ==> ls[j].Plain?
    ensures LastHeading(ls, k).None? ==> forall j :: 0 <= j < k ==> ls[j].Plain?
    decreases k
  {
    if k > 0 && ls[k - 1].Plain? {
      LastHeadingIsLast(ls, k - 1);
    }
  }

  /** The preamble entry for the first `k` lines, all of them plain. */
  function PreambleOf(ls: seq<Line>, k: nat): SectionMap
    requires k <= |ls|
  {
    if k == 0 then [] else [Entry("preamble", Full(0, Unlines(Texts(ls[..k])), 0, k - 1))]
  }

  /** The entry of the heading at `h` when its section ends before line `k`. */
  function SectionEntry(ls: seq<Line>, h: nat, k: nat): Entry
    requires h < k <= |ls| && ls[h].Heading?
  {
    Entry(ls[h].title, Full(ls[h].level, Unlines(Texts(ls[h + 1..k])), h, k - 1))
  }

  /** The sections of the first `k` lines with the last one closed at line
      `k - 1`: the lines before the first heading form the level-0 preamble,
      and each heading's section runs to the line before the next heading. */
  function Closed(ls: seq<Line>, k: nat): SectionMap
    requires k <= |ls|
    decreases k
  {
    match LastHeading(ls, k)
    case None => PreambleOf(ls, k)
    case Some(h) => Closed(ls, h) + [SectionEntry(ls, h, k)]
  }

  /** Headings whose titles the scanner can tell apart: non-empty, not
      `preamble`, and pairwise distinct. */
  predicate WellTitled(ls: seq<Line>) {
    && (forall j :: 0 <= j < |ls| ==> TitleOk(ls[j]))
    && (forall i, j :: 0 <= i < j < |ls| ==> TitlesDiffer(ls[i], ls[j]))
  }

  /** A heading's title is neither empty nor `preamble`. */
  predicate TitleOk(l: Line) {
    l.Heading? ==> l.title != "" && l.title != "preamble"
  }

  /** Two headings have different titles. */
  predicate TitlesDiffer(a: Line, b: Line) {
    a.Heading? && b.Heading? ==> a.title != b.title
  }

  /** The name is the preamble's or the title of a heading before `k`. */
  ghost predicate NamedBefore(ls: seq<Line>, k: nat, name: string)
    requires k <= |ls|
  {
    name == "preamble" || exists t :: 0 <= t < k && ls[t].Heading? && ls[t].title == name
  }

  lemma {:induction false} ClosedNames(ls: seq<Line>, k: nat)
    requires k <= |ls|
    ensures forall j :: 0 <= j < |Closed(ls, k)| ==> NamedBefore(ls, k, Closed(ls, k)[j].name)
    decreases k
  {
    match LastHeading(ls, k)
    case None =>
    case Some(h) =>
      ClosedNames(ls, h);
      var m := Closed(ls, h);
      ClosedAt(ls, h, k);
      forall j | 0 <= j < |Closed(ls, k)|
        ensures NamedBefore(ls, k, Closed(ls, k)[j].name)
      {
        if j < |m| {
          assert NamedBefore(ls, h, m[j].name);
        } else {
          assert Closed(ls, k)[j].name == ls[h].title;
        }
      }
  }

  /** A title of a later heading is not yet a key. */
  lemma LaterTitleFresh(ls: seq<Line>, h: nat, k: nat)
    requires WellTitled(ls) && h <= k < |ls| && ls[k].Heading?
    ensures !HasKey(Closed(ls, h), ls[k].title)
  {
    ClosedNames(ls, h);
    var m := Closed(ls, h);
    assert TitleOk(ls[k]);
    forall i | 0 <= i < |m|
      ensures m[i].name != ls[k].title
    {
      assert NamedBefore(ls, h, m[i].name);
      if m[i].name != "preamble" {
        var t :| 0 <= t < h && ls[t].Heading? && ls[t].title == m[i].name;
        assert TitlesDiffer(ls[t], ls[k]);
      }
    }
  }

  /** The scanner's state after `k` lines, read off the reference. */
  function Expected(ls: seq<Line>, k: nat): ParseState
    requires k <= |ls|
  {
    match LastHeading(ls, k)
    case None => ParseState(PreambleOf(ls, k), "", 0, [])
    case Some(h) => Opened(ls, h, k)
  }

  /** The state inside the section of the heading at `h`. */
  function Opened(ls: seq<Line>, h: nat, k: nat): ParseState
    requires h < k <= |ls| && ls[h].Heading?
  {
    ParseState(Closed(ls, h) + [Entry(ls[h].title, Pending(h))], ls[h].title, ls[h].level, Texts(ls[h + 1..k]))
  }

  /** Closing the pending entry of the last heading gives the reference. */
  lemma CloseOpened(ls: seq<Line>, h: nat, k: nat)
    requires h < k <= |ls| && ls[h].Heading? && LastHeading(ls, k) == Some(h)
    requires !HasKey(Closed(ls, h), ls[h].title)
    ensures Close(Opened(ls, h, k), k - 1) == Closed(ls, k)
  {
    var e := SectionEntry(ls, h, k);
    CloseEntry(Closed(ls, h), e, Texts(ls[h + 1..k]), Opened(ls, h, k));
    ClosedAt(ls, h, k);
  }

  /** Closing a placeholder that was added last replaces it in place. */
  lemma CloseLast(m: SectionMap, title: string, start: nat, level: nat, body: seq<string>, lineEnd: int)
    requires !HasKey(m, title)
    ensures Close(ParseState(m + [Entry(title, Pending(start))], title, level, body), lineEnd)
      == m + [Entry(title, Full(level, Unlines(body), start, lineEnd))]
  {
    var s := m + [Entry(title, Pending(start))];
    assert forall j :: 0 <= j < |m| ==> s[j] == m[j];
    KeyIndexAt(s, title, |m|);
    PutLast(m, title, Pending(start), Full(level, Unlines(body), start, lineEnd));
  }

  /** `CloseLast` for an entry given whole. */
  lemma CloseEntry(m: SectionMap, e: Entry, body: seq<string>, st: ParseState)
    requires e.info.Full? && !HasKey(m, e.name) && e.info.content == Unlines(body)
    requires st == ParseState(m + [Entry(e.name, Pending(e.info.lineStart))], e.name, e.info.level, body)
    ensures Close(st, e.info.lineEnd) == m + [e]
  {
    CloseLast(m, e.name, e.info.lineStart, e.info.level, body, e.info.lineEnd);
  }

  /** `Closed` unfolded once at a known last heading. */
  lemma ClosedAt(ls: seq<Line>, h: nat, k: nat)
    requires h < k <= |ls| && ls[h].Heading? && LastHeading(ls, k) == Some(h)
    ensures Closed(ls, k) == Closed(ls, h) + [SectionEntry(ls, h, k)]
  {
  }

  /** From the expected state at line `k`, the loop reaches the expected
      state at the end. */
  lemma {:induction false} ScanIsExpected(ls: seq<Line>, k: nat)
    requires k <= |ls| && WellTitled(ls)
    ensures ScanFrom(Expected(ls, k), ls, k) == Expected(ls, |ls|)
    decreases |ls| - k
  {
    if k < |ls| {
      StepExpectedAt(ls, k);
      ScanIsExpected(ls, k + 1);
    }
  }

  lemma StepExpectedAt(ls: seq<Line>, i: nat)
    requires i < |ls| && WellTitled(ls)
    ensures Step(Expected(ls, i), i, ls[i]) == Expected(ls, i + 1)
  {
    StepExpected(ls, i + 1);
  }

  /** One step of the scanner moves the expected state one line on. */
  lemma StepExpected(ls: seq<Line>, k: nat)
    requires 0 < k <= |ls| && WellTitled(ls)
    ensures Step(Expected(ls, k - 1), k - 1, ls[k - 1]) == Expected(ls, k)
  {
    match LastHeading(ls, k - 1)
    case None =>
      if ls[k - 1].Heading? {
        LaterTitleFresh(ls, k - 1, k - 1);
        OpenAfterPreamble(ls, k);
      } else if k > 1 {
        PreambleGrows(ls, k);
      } else {
        PreambleStarts(ls);
      }
    case Some(h) =>
      assert TitleOk(ls[h]);
      if ls[k - 1].Heading? {
        LaterTitleFresh(ls, h, h);
        LaterTitleFresh(ls, k - 1, k - 1);
        OpenAfterSection(ls, h, k);
      } else {
        BodyGrows(ls, h, k);
      }
  }

  /** The first heading: nothing to save. */
  lemma OpenAfterPreamble(ls: seq<Line>, k: nat)
    requires 0 < k <= |ls| && ls[k - 1].Heading? && LastHeading(ls, k - 1).None?
    requires !HasKey(Closed(ls, k - 1), ls[k - 1].title)
    ensures Step(Expected(ls, k - 1), k - 1, ls[k - 1]) == Expected(ls, k)
  {
    var m := Closed(ls, k - 1);
    var title := ls[k - 1].title;
    assert Expected(ls, k - 1) == ParseState(m, "", 0, []);
    assert Put(m, title, Pending(k - 1)) == m + [Entry(title, Pending(k - 1))];
    ExpectedOpened(ls, k);
  }

  /** A later heading: the open section is saved first. */
  lemma OpenAfterSection(ls: seq<Line>, h: nat, k: nat)
    requires 0 < k <= |ls| && ls[k - 1].Heading? && LastHeading(ls, k - 1) == Some(h)
    requires ls[h].title != ""
    requires !HasKey(Closed(ls, h), ls[h].title)
    requires !HasKey(Closed(ls, k - 1), ls[k - 1].title)
    ensures Step(Expected(ls, k - 1), k - 1, ls[k - 1]) == Expected(ls, k)
  {
    var i := k - 1;
    var prev := Opened(ls, h, i);
    var saved := Closed(ls, i);
    assert Expected(ls, i) == prev;
    CloseOpened(ls, h, i);
    assert Close(prev, i - 1) == saved;
    ExpectedOpened(ls, k);
    StepHeading(prev, prev, i, ls[i], saved, Expected(ls, k));
  }

  /** A heading while a section is open saves it, then opens its own at the
      end of the map. */
  lemma StepHeading(prev: ParseState, st: ParseState, i: nat, l: Line, saved: SectionMap, next: ParseState)
    requires l.Heading? && st == prev && prev.current != ""
    requires Close(prev, i - 1) == saved && !HasKey(saved, l.title)
    requires next == ParseState(saved + [Entry(l.title, Pending(i))], l.title, l.level, [])
    ensures Step(st, i, l) == next
  {
  }

  /** After a heading at `k - 1` the reference has just opened it. */
  lemma ExpectedOpened(ls: seq<Line>, k: nat)
    requires 0 < k <= |ls| && ls[k - 1].Heading?
    ensures Expected(ls, k) == ParseState(Closed(ls, k - 1) + [Entry(ls[k - 1].title, Pending(k - 1))], ls[k - 1].title, ls[k - 1].level, [])
  {
    assert Texts(ls[k..k]) == [];
  }

  /** A plain line inside a section joins its body. */
  lemma BodyGrows(ls: seq<Line>, h: nat, k: nat)
    requires 0 < k <= |ls| && ls[k - 1].Plain? && LastHeading(ls, k - 1) == Some(h)
    requires ls[h].title != ""
    ensures Step(Expected(ls, k - 1), k - 1, ls[k - 1]) == Expected(ls, k)
  {
    var prev := Opened(ls, h, k - 1);
    assert Expected(ls, k - 1) == prev;
    assert Expected(ls, k) == Opened(ls, h, k);
    OpenedGrows(ls, h, k);
  }

  lemma OpenedGrows(ls: seq<Line>, h: nat, k: nat)
    requires h < k - 1 && k <= |ls| && ls[h].Heading?
    ensures Opened(ls, h, k) == Opened(ls, h, k - 1).(body := Opened(ls, h, k - 1).body + [TextOf(ls[k - 1])])
  {
    TextsSnoc(ls, h + 1, k - 1);
  }

  /** Taking one more line of a range adds its text at the end. */
  lemma TextsSnoc(ls: seq<Line>, a: nat, b: nat)
    requires a <= b < |ls|
    ensures Texts(ls[a..b + 1]) == Texts(ls[a..b]) + [TextOf(ls[b])]
  {
  }

  /** The first line, when it is plain, starts the preamble. */
  lemma PreambleStarts(ls: seq<Line>)
    requires 0 < |ls| && ls[0].Plain?
    ensures Step(Expected(ls, 0), 0, ls[0]) == Expected(ls, 1)
  {
    assert Texts(ls[..1]) == [ls[0].text];
    assert Lookup([], "preamble").None?;
  }

  /** A plain line before any heading extends the preamble. */
  lemma PreambleGrows(ls: seq<Line>, k: nat)
    requires 1 < k <= |ls| && ls[k - 1].Plain? && LastHeading(ls, k - 1).None?
    ensures Step(Expected(ls, k - 1), k - 1, ls[k - 1]) == Expected(ls, k)
  {
    var before := Full(0, Unlines(Texts(ls[..k - 1])), 0, k - 2);
    var m := [Entry("preamble", before)];
    assert Expected(ls, k - 1) == ParseState(m, "", 0, []);
    assert m[0].name == "preamble";
    assert KeyIndex(m, "preamble") == Some(0);
    assert Lookup(m, "preamble") == Some(before);
    UnlinesAppend(Texts(ls[..k - 1]), [TextOf(ls[k - 1])]);
    TextsSnoc(ls, 0, k - 1);
    assert ls[0..k - 1] == ls[..k - 1] && ls[0..k] == ls[..k];
    assert LastHeading(ls, k).None?;
  }

  /** With well-titled headings, `_parse_sections` computes the reference. */
  lemma ParseIsClosed(text: string)
    requires WellTitled(Classified(Lines(text)))
    ensures Parse(text) == Closed(Classified(Lines(text)), |Lines(text)|)
  {
    var ls := Classified(Lines(text));
    assert Expected(ls, 0) == Init;
    ScanIsExpected(ls, 0);
    FinishExpected(ls);
  }

  /** The block after the loop closes the reference's last section. */
  lemma FinishExpected(ls: seq<Line>)
    requires WellTitled(ls)
    ensures Finish(Expected(ls, |ls|), |ls|) == Closed(ls, |ls|)
  {
    var n := |ls|;
    match LastHeading(ls, n)
    case None =>
    case Some(h) =>
      assert TitleOk(ls[h]);
      LaterTitleFresh(ls, h, h);
      assert Expected(ls, n) == Opened(ls, h, n);
      CloseOpened(ls, h, n);
  }

  // ---------------------------------------------------------------------------
  // Looking a heading up in the reference

  /** The first heading at or after line `i`, or the end of the document. */
  function NextHeading(ls: seq<Line>, i: nat): (k: nat)
    requires i <= |ls|
    ensures i <= k <= |ls| && (k == |ls| || ls[k].Heading?)
    ensures forall j :: i <= j < k ==> ls[j].Plain?
    decreases |ls| - i
  {
    if i == |ls| || ls[i].Heading? then i else NextHeading(ls, i + 1)
  }

  /** With only plain lines after it, the heading at `h` is the last one. */
  lemma {:induction false} LastHeadingAt(ls: seq<Line>, h: nat, k: nat)
    requires h < k <= |ls| && ls[h].Heading?
    requires forall j :: h < j < k ==> ls[j].Plain?
    ensures LastHeading(ls, k) == Some(h)
    decreases k
  {
    if k - 1 != h {
      LastHeadingAt(ls, h, k - 1);
    }
  }

  /** The sections closed at a heading stay, in order, at the front of the
      sections closed at any later line. */
  lemma {:induction false} ClosedPrefix(ls: seq<Line>, k: nat, n: nat)
    requires k <= n <= |ls| && (k == n || ls[k].Heading?)
    ensures |Closed(ls, k)| <= |Closed(ls, n)| && Closed(ls, n)[..|Closed(ls, k)|] == Closed(ls, k)
    decreases n
  {
    if k < n {
      LastHeadingIsLast(ls, n);
      var h := LastHeading(ls, n).value;
      ClosedPrefix(ls, k, h);
      ClosedAt(ls, h, n);
    }
  }

  /** With well-titled headings, a heading's title maps to its section: the
      lines after it up to the next heading. */
  lemma ClosedLookup(ls: seq<Line>, h: nat)
    requires WellTitled(ls) && h < |ls| && ls[h].Heading?
    ensures Lookup(Closed(ls, |ls|), ls[h].title) == Some(SectionEntry(ls, h, NextHeading(ls, h + 1)).info)
  {
    var k := NextHeading(ls, h + 1);
    var e := SectionEntry(ls, h, k);
    LastHeadingAt(ls, h, k);
    ClosedAt(ls, h, k);
    ClosedPrefix(ls, k, |ls|);
    LaterTitleFresh(ls, h, h);
    LookupAfter(Closed(ls, |ls|), Closed(ls, h), e);
  }

  /** An entry whose key the entries in front of it lack is what a lookup
      finds. */
  lemma LookupAfter(m: SectionMap, before: SectionMap, e: Entry)
    requires |before| < |m| && m[..|before| + 1] == before + [e]
    requires !HasKey(before, e.name)
    ensures Lookup(m, e.name) == Some(e.info)
  {
    var i := |before|;
    assert m[i] == (before + [e])[i];
    forall j | 0 <= j < i
      ensures m[j].name != e.name
    {
      assert m[j] == (before + [e])[j] == before[j];
    }
    KeyIndexAt(m, e.name, i);
  }

  /** A parse with well-titled headings leaves no placeholder. */
  lemma {:induction false} ClosedFull(ls: seq<Line>, k: nat)
    requires k <= |ls|
    ensures forall j :: 0 <= j < |Closed(ls, k)| ==> Closed(ls, k)[j].info.Full?
    decreases k
  {
    match LastHeading(ls, k)
    case None =>
    case Some(h) =>
      ClosedFull(ls, h);
      ClosedAt(ls, h, k);
      AppendFull(Closed(ls, h), SectionEntry(ls, h, k));
  }

  lemma AppendFull(m: SectionMap, e: Entry)
    requires forall j :: 0 <= j < |m| ==> m[j].info.Full?
    requires e.info.Full?
    ensures forall j :: 0 <= j < |m + [e]| ==> (m + [e])[j].info.Full?
  {
    forall j | 0 <= j < |m + [e]|
      ensures (m + [e])[j].info.Full?
    {
      if j < |m| {
        assert (m + [e])[j] == m[j];
      }
    }
  }

  // ---------------------------------------------------------------------------
  // `_find_section`

  /** `title.lower() in section_name.lower()`. */
  predicate TitleMatches(name: string, title: string) {
    Contains(Lower(name), Lower(title))
  }

  /** Where the first key from position `from` on, in map order, that the
      title matches sits. */
  function FirstMatch(m: SectionMap, title: string, from: nat): (r: Option<nat>)
    requires from <= |m|
    ensures r.None? <==> forall i :: from <= i < |m| ==> !TitleMatches(m[i].name, title)
    ensures r.Some? ==> from <= r.value < |m| && TitleMatches(m[r.value].name, title)
    ensures r.Some? ==> forall j :: from <= j < r.value ==> !TitleMatches(m[j].name, title)
    decreases |m| - from
  {
    if from == |m| then None
    else if TitleMatches(m[from].name, title) then Some(from)
    else FirstMatch(m, title, from + 1)
  }

  /** The two loops of `_find_section`: the first candidate `t` from `from`
      on, in priority order, that matches some key, and the first key `i`
      it matches. */
  function FindFrom(m: SectionMap, titles: seq<string>, from: nat): (r: Option<(nat, nat)>)
    requires from <= |titles|
    ensures r.None? <==> forall t, i :: from <= t < |titles| && 0 <= i < |m| ==> !TitleMatches(m[i].name, titles[t])
    ensures r.Some? ==> from <= r.value.0 < |titles| && FirstMatch(m, titles[r.value.0], 0) == Some(r.value.1)
    ensures r.Some? ==> forall u :: from <= u < r.value.0 ==> FirstMatch(m, titles[u], 0).None?
    decreases |titles| - from
  {
    if from == |titles| then None
    else
      match FirstMatch(m, titles[from], 0)
      case Some(i) => Some((from, i))
      case None => FindFrom(m, titles, from + 1)
  }

  /** `READMEUpdater._find_section`: the key `FindFrom` stops at. It is a key
      of the map that one of the candidates matches. */
  function FindSection(m: SectionMap, titles: seq<string>): (r: Option<string>)
    ensures r.Some? ==> HasKey(m, r.value)
  {
    match FindFrom(m, titles, 0)
    case None => None
    case Some((t, i)) => Some(m[i].name)
  }

  /** Nothing is found exactly when no candidate matches any key, and what
      is found is matched by a candidate. */
  lemma FindSectionSpec(m: SectionMap, titles: seq<string>)
    ensures FindSection(m, titles).None? <==> forall t, i :: 0 <= t < |titles| && 0 <= i < |m| ==> !TitleMatches(m[i].name, titles[t])
    ensures FindSection(m, titles).Some? ==> exists t :: 0 <= t < |titles| && TitleMatches(FindSection(m, titles).value, titles[t])
  {
    match FindFrom(m, titles, 0)
    case None =>
    case Some((t, i)) =>
      assert TitleMatches(m[i].name, titles[t]);
  }
}
