/** `READMEUpdater` (readme_updater.py) as a state machine over its two
    fields, the README text and the section map parsed from it. Every
    operation returns the next state and the boolean the Python method
    returns, or the `KeyError` it would raise. The date of a changelog entry
    is a parameter; reading and writing the file are not modelled.

    `_rebuild_content` splices each section back at the line range recorded
    when the map was parsed, and the map is not parsed again afterwards, so
    the ranges go stale once a section changes length. The model keeps that
    behaviour (`StaleRangeOverwrites`). */
module ReadmeUpdater {
  import opened Results
  import opened Strings
  import opened Sections
  import opened Bullets
  import opened Analysis

  /** The exception a lookup of a missing dict key raises. */
  datatype Error = KeyError(key: string)

  /** The fields `content` and `sections` of a `READMEUpdater`. */
  datatype Updater = Updater(content: string, sections: SectionMap)

  /** The state `__init__` leaves: for a file holding `text` the text and
      the map parsed from it, and for a missing file the empty text with an
      empty map (not the map of the empty text, which has a preamble). */
  function Load(file: Option<string>): (u: Updater)
    ensures file.None? ==> u.content == "" && u.sections == []
    ensures file.Some? ==> u.content == file.value && DistinctKeys(u.sections)
    ensures file.Some? ==> forall j :: 0 <= j < |u.sections| ==> Settled(u.sections[j], |Lines(file.value)|)
  {
    match file
    case None => Updater("", [])
    case Some(text) => Updater(text, Parse(text))
  }

  // ---------------------------------------------------------------------------
  // Slice assignment

  /** A slice bound as Python normalises it for a list of length `n`. */
  function Clamp(k: int, n: nat): (r: nat)
    ensures r <= n
    ensures 0 <= k <= n ==> r == k
  {
    if k < 0 then (if k + n < 0 then 0 else k + n) else if k > n then n else k
  }

  /** `xs[i:j] = ys`: an empty or reversed range inserts at `i`. */
  function Splice<T>(xs: seq<T>, i: int, j: int, ys: seq<T>): (r: seq<T>)
    ensures 0 <= i <= j <= |xs| ==> r == xs[..i] + ys + xs[j..]
  {
    var lo := Clamp(i, |xs|);
    var hi := if Clamp(j, |xs|) < lo then lo else Clamp(j, |xs|);
    xs[..lo] + ys + xs[hi..]
  }

  /** Putting a range back in its place changes nothing. */
  lemma SpliceSame<T>(xs: seq<T>, i: int, j: int)
    requires 0 <= i <= j <= |xs|
    ensures Splice(xs, i, j, xs[i..j]) == xs
  {
    SliceJoin(xs, i, j);
  }

  // ---------------------------------------------------------------------------
  // `_rebuild_content`

  /** `'#' * level + ' ' + section_name`. */
  function Header(level: nat, name: string): string {
    Repeat('#', level) + " " + name
  }

  /** The loop of `_rebuild_content` from the `i`-th entry on: every entry
      but the preamble is written back, header first, over the lines
      `line_start..line_end` it was parsed from. A placeholder has no
      `line_end`. */
  function RebuildFrom(lines: seq<string>, m: SectionMap, i: nat): Result<seq<string>, Error>
    requires i <= |m|
    decreases |m| - i
  {
    if i == |m| then Ok(lines)
    else if m[i].name == "preamble" then RebuildFrom(lines, m, i + 1)
    else
      match m[i].info
      case Pending(_) => Err(KeyError("line_end"))
      case Full(level, content, start, end) =>
        var section := [Header(level, m[i].name)] + Lines(content);
        RebuildFrom(Splice(lines, start, end + 1, section), m, i + 1)
  }

  /** `_rebuild_content`: the text is rebuilt from the map, and the map is
      kept as it is. */
  function Rebuild(u: Updater): (r: Result<Updater, Error>)
    ensures r.Ok? ==> r.value.sections == u.sections
  {
    var lines :- RebuildFrom(Lines(u.content), u.sections, 0);
    Ok(Updater(Unlines(lines), u.sections))
  }

  /** A rebuild fails exactly when some section other than the preamble is
      a placeholder. */
  lemma {:induction false} RebuildFromFails(lines: seq<string>, m: SectionMap, i: nat)
    requires i <= |m|
    ensures RebuildFrom(lines, m, i).Err? <==> exists j :: i <= j < |m| && m[j].name != "preamble" && m[j].info.Pending?
    decreases |m| - i
  {
    if i < |m| {
      if m[i].name == "preamble" {
        RebuildFromFails(lines, m, i + 1);
      } else if m[i].info.Full? {
        var section := [Header(m[i].info.level, m[i].name)] + Lines(m[i].info.content);
        RebuildFromFails(Splice(lines, m[i].info.lineStart, m[i].info.lineEnd + 1, section), m, i + 1);
      }
    }
  }

  lemma RebuildFails(u: Updater)
    ensures Rebuild(u).Err? <==> exists j :: 0 <= j < |u.sections| && u.sections[j].name != "preamble" && u.sections[j].info.Pending?
  {
    RebuildFromFails(Lines(u.content), u.sections, 0);
  }

  /** An entry already written out at its range: the lines there are its
      header followed by the lines of its content. */
  predicate Fits(lines: seq<string>, e: Entry) {
    e.name == "preamble" ||
    (e.info.Full? && e.info.lineStart <= e.info.lineEnd < |lines| &&
     lines[e.info.lineStart..e.info.lineEnd + 1] == [Header(e.info.level, e.name)] + Lines(e.info.content))
  }

  /** Writing back entries that already fit leaves the lines as they are. */
  lemma {:induction false} RebuildFromFits(lines: seq<string>, m: SectionMap, i: nat)
    requires i <= |m|
    requires forall j :: i <= j < |m| ==> Fits(lines, m[j])
    ensures RebuildFrom(lines, m, i) == Ok(lines)
    decreases |m| - i
  {
    if i < |m| {
      if m[i].name != "preamble" {
        var e := m[i].info;
        SpliceSame(lines, e.lineStart, e.lineEnd + 1);
      }
      RebuildFromFits(lines, m, i + 1);
    }
  }

  // ---------------------------------------------------------------------------
  // Rebuilding a freshly parsed text

  /** A text the rebuild reproduces: headings the scanner can tell apart,
      each written as `'#' * level + ' ' + title` and followed by at least
      one line of body. */
  predicate Canonical(text: string) {
    var lines := Lines(text);
    var ls := Classified(lines);
    && WellTitled(ls)
    && (forall h :: 0 <= h < |ls| && ls[h].Heading? ==> HeadingWritten(lines, ls, h))
  }

  predicate HeadingWritten(lines: seq<string>, ls: seq<Line>, h: nat)
    requires h < |lines| == |ls| && ls[h].Heading?
  {
    lines[h] == Header(ls[h].level, ls[h].title) && h + 1 < |ls| && ls[h + 1].Plain?
  }

  /** Rebuilding the map just parsed from a canonical text gives the text
      back. */
  lemma RebuildParsed(text: string)
    requires Canonical(text)
    ensures Rebuild(Updater(text, Parse(text))) == Ok(Updater(text, Parse(text)))
  {
    var lines := Lines(text);
    var ls := Classified(lines);
    ParseIsClosed(text);
    LinesNoNewline(text);
    ClosedFits(lines, ls, |ls|);
    RebuildFromFits(lines, Parse(text), 0);
    UnlinesLines(text);
  }

  /** Every entry of `Closed(ls, k)` fits the lines, when `k` is the end or
      a heading. */
  lemma {:induction false} ClosedFits(lines: seq<string>, ls: seq<Line>, k: nat)
    requires ls == Classified(lines) && k <= |ls|
    requires k == |ls| || ls[k].Heading?
    requires forall j :: 0 <= j < |lines| ==> NoNewline(lines[j])
    requires forall h :: 0 <= h < |ls| && ls[h].Heading? ==> HeadingWritten(lines, ls, h)
    ensures forall j :: 0 <= j < |Closed(ls, k)| ==> Fits(lines, Closed(ls, k)[j])
    decreases k
  {
    match LastHeading(ls, k)
    case None =>
    case Some(h) =>
      ClosedFits(lines, ls, h);
      LastHeadingIsLast(ls, k);
      assert HeadingWritten(lines, ls, h);
      SectionFits(lines, ls, h, k);
      assert Closed(ls, k) == Closed(ls, h) + [SectionEntry(ls, h, k)];
      AppendFits(lines, Closed(ls, h), SectionEntry(ls, h, k));
  }

  lemma AppendFits(lines: seq<string>, m: SectionMap, e: Entry)
    requires forall j :: 0 <= j < |m| ==> Fits(lines, m[j])
    requires Fits(lines, e)
    ensures forall j :: 0 <= j < |m + [e]| ==> Fits(lines, (m + [e])[j])
  {
    forall j | 0 <= j < |m + [e]|
      ensures Fits(lines, (m + [e])[j])
    {
      if j < |m| {
        assert (m + [e])[j] == m[j];
      }
    }
  }

  /** The entry of one section fits the lines it was made from. */
  lemma SectionFits(lines: seq<string>, ls: seq<Line>, h: nat, k: nat)
    requires ls == Classified(lines) && h + 1 < k <= |ls| && ls[h].Heading?
    requires forall j :: h < j < k ==> ls[j].Plain?
    requires forall j :: 0 <= j < |lines| ==> NoNewline(lines[j])
    requires lines[h] == Header(ls[h].level, ls[h].title)
    ensures Fits(lines, SectionEntry(ls, h, k))
  {
    var body := lines[h + 1..k];
    assert Texts(ls[h + 1..k]) == body;
    LinesUnlines(body);
    assert lines[h..k] == [lines[h]] + body;
  }

  /** The ranges are those of the parse, not of the text being rebuilt: when
      a section's content has gained a line, the next section is written
      back over the range it had before, so the gained line is overwritten
      and the next section's last line appears twice. */
  lemma StaleRangeOverwrites(a: string, b: string, la: string, extra: string, lb: string)
    requires a != "preamble" && b != "preamble"
    requires NoNewline(la) && NoNewline(extra) && NoNewline(lb)
    ensures RebuildFrom([Header(2, a), la, Header(2, b), lb],
                        [Entry(a, Full(2, la + "\n" + extra, 0, 1)), Entry(b, Full(2, lb, 2, 3))], 0)
            == Ok([Header(2, a), la, Header(2, b), lb, lb])
  {
    var m := [Entry(a, Full(2, la + "\n" + extra, 0, 1)), Entry(b, Full(2, lb, 2, 3))];
    LinesUnlines([la, extra]);
    JoinWithCons(la, [extra], "\n");
    assert Lines(la + "\n" + extra) == [la, extra];
    LinesUnlines([lb]);
    assert Lines(lb) == [lb];
    var grown := [Header(2, a), la, extra, Header(2, b), lb];
    assert Splice([Header(2, a), la, Header(2, b), lb], 0, 2, [Header(2, a)] + [la, extra]) == grown;
    var last := [Header(2, a), la, Header(2, b), lb, lb];
    assert Splice(grown, 2, 4, [Header(2, b)] + [lb]) == last;
    assert RebuildFrom(last, m, 2) == Ok(last);
    assert RebuildFrom(grown, m, 1) == RebuildFrom(last, m, 2);
    assert RebuildFrom([Header(2, a), la, Header(2, b), lb], m, 0) == RebuildFrom(grown, m, 1);
  }

  // ---------------------------------------------------------------------------
  // `_insert_after_preamble`

  /** The first line from `i` on that `re.match(r'^#{1,6}\s+', line)` accepts. */
  function FirstLoose(lines: seq<string>, i: nat): (r: Option<nat>)
    requires i <= |lines|
    ensures r.Some? ==> i <= r.value < |lines| && LooseHeading(lines[r.value])
    ensures r.Some? ==> forall j :: i <= j < r.value ==> !LooseHeading(lines[j])
    ensures r.None? ==> forall j :: i <= j < |lines| ==> !LooseHeading(lines[j])
    decreases |lines| - i
  {
    if i == |lines| then None
    else if LooseHeading(lines[i]) then Some(i)
    else FirstLoose(lines, i + 1)
  }

  /** `_insert_after_preamble`: the block as one more line in front of the
      first heading line, or after a line break at the end when there is
      none. */
  function InsertAfterPreamble(text: string, block: string): string {
    var lines := Lines(text);
    match FirstLoose(lines, 0)
    case Some(i) => Unlines(lines[..i] + [block] + lines[i..])
    case None => text + "\n" + block
  }

  /** The block and a line break go in at offset `k` of the text, the start
      of its first heading line, and the text around them is kept. */
  lemma InsertAfterPreambleText(text: string, block: string)
    ensures FirstLoose(Lines(text), 0).Some? ==>
      var i := FirstLoose(Lines(text), 0).value;
      var k := if i == 0 then 0 else |Unlines(Lines(text)[..i])| + 1;
      k <= |text| && LineStart(text, k) &&
      InsertAfterPreamble(text, block) == text[..k] + block + "\n" + text[k..]
    ensures FirstLoose(Lines(text), 0).None? ==> InsertAfterPreamble(text, block) == text + "\n" + block
  {
    var lines := Lines(text);
    UnlinesLines(text);
    if FirstLoose(lines, 0).Some? {
      var i := FirstLoose(lines, 0).value;
      if i == 0 {
        InsertAtTop(lines, block);
      } else {
        InsertAtLine(lines, i, block);
      }
    }
  }

  lemma InsertAtTop(lines: seq<string>, block: string)
    requires |lines| >= 1
    ensures Unlines(lines[..0] + [block] + lines[0..]) == block + "\n" + Unlines(lines)
  {
    assert lines[..0] + [block] + lines[0..] == [block] + lines;
    JoinWithCons(block, lines, "\n");
  }

  lemma InsertAtLine(lines: seq<string>, i: nat, block: string)
    requires 0 < i < |lines|
    ensures var text := Unlines(lines);
      var k := |Unlines(lines[..i])| + 1;
      && k <= |text| && text[k - 1] == '\n'
      && Unlines(lines[..i] + [block] + lines[i..]) == text[..k] + block + "\n" + text[k..]
  {
    assert lines == lines[..i] + lines[i..];
    InsertBetweenLines(lines[..i], lines[i..], block);
  }

  /** A line put between two runs of lines lands right after the line break
      that ends the first run. */
  lemma InsertBetweenLines(a: seq<string>, b: seq<string>, block: string)
    requires |a| >= 1 && |b| >= 1
    ensures var text := Unlines(a + b);
      var k := |Unlines(a)| + 1;
      && k <= |text| && text[k - 1] == '\n'
      && Unlines(a + [block] + b) == text[..k] + block + "\n" + text[k..]
  {
    var text := Unlines(a + b);
    var k := |Unlines(a)| + 1;
    UnlinesAppend(a, b);
    assert a + [block] + b == a + ([block] + b);
    UnlinesAppend(a, [block] + b);
    JoinWithCons(block, b, "\n");
    assert text[..k] == Unlines(a) + "\n";
    assert text[k..] == Unlines(b);
  }

  // ---------------------------------------------------------------------------
  // Bullet items

  /** `f"- {item}\n"`. */
  function Bullet(item: string): string {
    "- " + item + "\n"
  }

  /** The bullets of all items, in order. */
  function BulletList(items: seq<string>): string
    decreases |items|
  {
    if |items| == 0 then "" else Bullet(items[0]) + BulletList(items[1..])
  }

  /** `item.lower() in text.lower()`: the duplicate test of the section
      updates. */
  predicate Known(text: string, item: string) {
    Contains(Lower(text), Lower(item))
  }

  /** The items, in order, that the text does not mention yet. */
  function Fresh(text: string, items: seq<string>): seq<string>
    decreases |items|
  {
    if |items| == 0 then []
    else (if Known(text, items[0]) then [] else [items[0]]) + Fresh(text, items[1..])
  }

  lemma {:induction false} FreshSpec(text: string, items: seq<string>)
    ensures forall x :: x in Fresh(text, items) ==> x in items && !Known(text, x)
    ensures forall j :: 0 <= j < |items| && !Known(text, items[j]) ==> items[j] in Fresh(text, items)
    decreases |items|
  {
    if |items| > 0 {
      FreshSpec(text, items[1..]);
      assert forall j :: 1 <= j < |items| ==> items[j] == items[1..][j - 1];
    }
  }

  /** Every item has a bullet of its own in the list. */
  lemma {:induction false} BulletListHas(items: seq<string>, j: nat)
    requires j < |items|
    ensures Contains(BulletList(items), Bullet(items[j]))
    decreases |items|
  {
    var s := BulletList(items);
    var b := Bullet(items[0]);
    assert s == b + BulletList(items[1..]);
    if j == 0 {
      assert s[..|b|] == b;
      ContainsAt(s, 0, b);
    } else {
      BulletListHas(items[1..], j - 1);
      assert s[|b|..] == BulletList(items[1..]);
      ContainsTransitive(s, |b|, BulletList(items[1..]), Bullet(items[j]));
    }
  }

  /** A bullet mentions its item. */
  lemma BulletHas(item: string)
    ensures Contains(Bullet(item), item)
  {
    var b := Bullet(item);
    assert b[2..2 + |item|] == item;
    ContainsAt(b, 2, item);
  }

  /** Text found in a part is found in the whole. */
  lemma ContainsLeft(a: string, b: string, t: string)
    requires Contains(a, t)
    ensures Contains(a + b, t)
  {
    var i := IndexOf(a, t).value;
    assert (a + b)[i..i + |t|] == a[i..i + |t|];
    ContainsAt(a + b, i, t);
  }

  lemma ContainsRight(a: string, b: string, t: string)
    requires Contains(b, t)
    ensures Contains(a + b, t)
  {
    assert (a + b)[|a|..|a| + |b|] == b;
    ContainsTransitive(a + b, |a|, b, t);
  }

  /** `in` survives lower-casing both sides. */
  lemma ContainsLower(s: string, t: string)
    requires Contains(s, t)
    ensures Contains(Lower(s), Lower(t))
  {
    var i := IndexOf(s, t).value;
    LowerSlice(s, i, i + |t|);
    ContainsAt(Lower(s), i, Lower(t));
  }

  /** An item ending in a visible character. */
  predicate EndsSolid(item: string) {
    |item| > 0 && !IsSpace(item[|item| - 1])
  }

  /** Stripping trailing whitespace keeps every mention of an item that ends
      in a visible character. */
  lemma KnownAfterRStrip(text: string, item: string)
    requires EndsSolid(item) && Known(text, item)
    ensures Known(RStrip(text), item)
  {
    var lo := Lower(text);
    var i := IndexOf(lo, Lower(item)).value;
    var t := |RStrip(text)|;
    SolidMentionKept(text, item, i);
    LowerSlice(text, 0, t);
    assert Lower(RStrip(text)) == lo[..t];
    SliceOfSlice(lo, 0, t, i, i + |item|);
    ContainsAt(Lower(RStrip(text)), i, Lower(item));
  }

  /** A mention ending in a visible character ends before the trailing
      whitespace. */
  lemma SolidMentionKept(text: string, item: string, i: nat)
    requires EndsSolid(item) && OccursAt(Lower(text), i, Lower(item))
    ensures i + |item| <= |RStrip(text)|
  {
    var q := i + |item| - 1;
    var t := |RStrip(text)|;
    assert Lower(text)[i..i + |item|][|item| - 1] == Lower(text)[q];
    assert !IsSpace(Lower(text)[q]);
    TrailingLowerSpace(text);
  }

  /** Lower-casing keeps the trailing whitespace that `rstrip` removes. */
  lemma TrailingLowerSpace(text: string)
    ensures forall k :: |RStrip(text)| <= k < |text| ==> IsSpace(Lower(text)[k])
  {
    var t := |RStrip(text)|;
    forall k | t <= k < |text|
      ensures IsSpace(Lower(text)[k])
    {
      assert text[t..][k - t] == text[k];
    }
  }

  // ---------------------------------------------------------------------------
  // Appending items to a section

  /** The found-section branch of `_add_features` and
      `_update_configuration`: the content with trailing whitespace removed,
      a line break, and a bullet for every item the prior content does not
      mention. */
  function AppendItems(prior: string, items: seq<string>): string {
    var kept := RStrip(prior);
    var ended := if EndsWith(kept, "\n") then kept else kept + "\n";
    ended + BulletList(Fresh(prior, items))
  }

  /** After `rstrip` the text never ends in a line break, so one is always
      added. */
  lemma AppendItemsShape(prior: string, items: seq<string>)
    ensures AppendItems(prior, items) == RStrip(prior) + "\n" + BulletList(Fresh(prior, items))
  {
    var kept := RStrip(prior);
    assert !EndsWith(kept, "\n");
  }

  /** Afterwards every item ending in a visible character is mentioned. */
  lemma AppendItemsMentions(prior: string, items: seq<string>)
    requires forall j :: 0 <= j < |items| ==> EndsSolid(items[j])
    ensures forall j :: 0 <= j < |items| ==> Known(AppendItems(prior, items), items[j])
  {
    AppendItemsShape(prior, items);
    FreshSpec(prior, items);
    var head := RStrip(prior) + "\n";
    var list := BulletList(Fresh(prior, items));
    assert AppendItems(prior, items) == head + list;
    LowerAppend(head, list);
    forall j | 0 <= j < |items|
      ensures Known(AppendItems(prior, items), items[j])
    {
      var x := items[j];
      if Known(prior, x) {
        KnownAfterRStrip(prior, x);
        LowerAppend(RStrip(prior), "\n");
        ContainsLeft(Lower(RStrip(prior)), Lower("\n"), Lower(x));
        ContainsLeft(Lower(head), Lower(list), Lower(x));
      } else {
        FreshHas(prior, items, j);
        ContainsLower(list, x);
        ContainsRight(Lower(head), Lower(list), Lower(x));
      }
    }
  }

  /** A fresh item is in the bullet list. */
  lemma FreshHas(prior: string, items: seq<string>, j: nat)
    requires j < |items| && !Known(prior, items[j])
    ensures Contains(BulletList(Fresh(prior, items)), items[j])
  {
    FreshSpec(prior, items);
    var fr := Fresh(prior, items);
    var k :| 0 <= k < |fr| && fr[k] == items[j];
    BulletListHas(fr, k);
    BulletHas(items[j]);
    var s := BulletList(fr);
    var i := IndexOf(s, Bullet(items[j])).value;
    ContainsTransitive(s, i, Bullet(items[j]), items[j]);
  }

  /** The content stays as it was exactly when every item is mentioned
      already and it ends in a single line break after its last visible
      character. */
  lemma AppendItemsUnchanged(prior: string, items: seq<string>)
    ensures AppendItems(prior, items) == prior <==> Fresh(prior, items) == [] && prior == RStrip(prior) + "\n"
  {
    AppendItemsShape(prior, items);
    var fr := Fresh(prior, items);
    if AppendItems(prior, items) == prior && |fr| > 0 {
      FreshSpec(prior, items);
      assert fr[0] in items;
      var j :| 0 <= j < |items| && items[j] == fr[0];
      FreshHas(prior, items, j);
      ContainsRight(RStrip(prior) + "\n", BulletList(fr), items[j]);
      ContainsLower(prior, items[j]);
      assert false;
    }
  }

  // ---------------------------------------------------------------------------
  // Adding and updating sections

  /** The titles `_add_features` looks for, in priority order. */
  const FeatureTitles: seq<string> := ["Features", "Key Features", "Functionality", "What it does"]

  /** The titles `_update_configuration` looks for, in priority order. */
  const ConfigTitles: seq<string> := ["Configuration", "Config", "Environment", "Setup"]

  /** A section found by `_find_section` has a non-empty name, so the
      truth test on it in Python holds whenever a name comes back. */
  lemma FoundNameNonEmpty(m: SectionMap, titles: seq<string>)
    requires forall t :: 0 <= t < |titles| ==> |titles[t]| > 0
    ensures FindSection(m, titles).Some? ==> FindSection(m, titles).value != ""
  {
    if FindSection(m, titles).Some? {
      var name := FindSection(m, titles).value;
      FindSectionSpec(m, titles);
      var t :| 0 <= t < |titles| && TitleMatches(name, titles[t]);
      ContainsFirstChar(Lower(name), Lower(titles[t]));
    }
  }

  lemma CandidateTitlesNonEmpty()
    ensures forall t :: 0 <= t < |FeatureTitles| ==> |FeatureTitles[t]| > 0
    ensures forall t :: 0 <= t < |ConfigTitles| ==> |ConfigTitles[t]| > 0
  {
  }

  /** The section `name` with its content replaced, then the text rebuilt.
      Reading a placeholder's content raises. */
  function Rewrite(u: Updater, name: string, content: string): (r: Result<Updater, Error>)
    requires HasKey(u.sections, name)
  {
    var info := Lookup(u.sections, name).value;
    if info.Pending? then Err(KeyError("content"))
    else Rebuild(Updater(u.content, Put(u.sections, name, info.(content := content))))
  }

  /** The block `"\n## " + title + "\n\n"` and a bullet per item, put in
      front of the first heading; the map is parsed again from the new text
      before the rebuild. */
  function NewSection(u: Updater, title: string, items: seq<string>): (r: Result<Updater, Error>)
    ensures r.Ok? ==> r.value.sections == Parse(InsertAfterPreamble(u.content, SectionBlock(title, items)))
  {
    var text := InsertAfterPreamble(u.content, SectionBlock(title, items));
    Rebuild(Updater(text, Parse(text)))
  }

  /** `"\n## " + title + "\n\n"` followed by a bullet per item. */
  function SectionBlock(title: string, items: seq<string>): string {
    "\n## " + title + "\n\n" + BulletList(items)
  }

  // ---------------------------------------------------------------------------
  // What a created section looks like

  /** The bullet lines `f"- {item}"`, without their line breaks. */
  function BulletLines(items: seq<string>): (ls: seq<string>)
    ensures |ls| == |items|
    ensures forall j :: 0 <= j < |items| ==> ls[j] == "- " + items[j]
  {
    seq(|items|, j requires 0 <= j < |items| => "- " + items[j])
  }

  /** The bullet list is its bullet lines, each ended by a line break. */
  lemma {:induction false} BulletListLines(items: seq<string>)
    ensures BulletList(items) == Unlines(BulletLines(items) + [""])
    decreases |items|
  {
    if |items| == 0 {
      assert BulletLines(items) + [""] == [""];
    } else {
      BulletListLines(items[1..]);
      assert BulletLines(items) + [""] == ["- " + items[0]] + (BulletLines(items[1..]) + [""]);
      JoinWithCons("- " + items[0], BulletLines(items[1..]) + [""], "\n");
    }
  }

  /** The lines of a new section's block: a blank line, the level-2 header,
      a blank line, the bullets and the empty piece after the last break. */
  function BlockLines(title: string, items: seq<string>): seq<string> {
    ["", Header(2, title), ""] + BulletLines(items) + [""]
  }

  lemma SectionBlockLines(title: string, items: seq<string>)
    ensures SectionBlock(title, items) == Unlines(BlockLines(title, items))
  {
    var head := ["", Header(2, title), ""];
    BulletListLines(items);
    assert BlockLines(title, items) == head + (BulletLines(items) + [""]);
    UnlinesAppend(head, BulletLines(items) + [""]);
    assert Repeat('#', 2) == "##";
    JoinWithCons(Header(2, title), [""], "\n");
    JoinWithCons("", [Header(2, title), ""], "\n");
  }

  /** A line holding several joined lines joins like those lines. */
  lemma UnlinesFlatten(a: seq<string>, mid: seq<string>, b: seq<string>)
    requires |mid| >= 1
    ensures Unlines(a + [Unlines(mid)] + b) == Unlines(a + mid + b)
  {
    var x := [Unlines(mid)] + b;
    var y := mid + b;
    if |b| > 0 {
      UnlinesAppend([Unlines(mid)], b);
      UnlinesAppend(mid, b);
    } else {
      assert x == [Unlines(mid)] && y == mid;
    }
    assert Unlines(x) == Unlines(y);
    assert a + [Unlines(mid)] + b == a + x;
    assert a + mid + b == a + y;
    if |a| > 0 {
      UnlinesAppend(a, x);
      UnlinesAppend(a, y);
    } else {
      assert a + x == x && a + y == y;
    }
  }

  /** The line before which `_insert_after_preamble` puts its block: the
      first heading line, or the end. */
  function InsertLine(text: string): (p: nat)
    ensures p <= |Lines(text)|
  {
    match FirstLoose(Lines(text), 0)
    case Some(i) => i
    case None => |Lines(text)|
  }

  /** The inserted block's lines go in whole before that line. */
  lemma InsertAfterPreambleLines(text: string, mid: seq<string>)
    requires |mid| >= 1
    ensures var lines := Lines(text);
      var p := InsertLine(text);
      InsertAfterPreamble(text, Unlines(mid)) == Unlines(lines[..p] + mid + lines[p..])
  {
    var lines := Lines(text);
    var p := InsertLine(text);
    UnlinesFlatten(lines[..p], mid, lines[p..]);
    if FirstLoose(lines, 0).None? {
      UnlinesLines(text);
      UnlinesAppend(lines, mid);
      assert lines[..p] + mid + lines[p..] == lines + mid;
    }
  }

  /** The new text read back as lines. */
  lemma CreatedLines(text: string, title: string, items: seq<string>)
    requires NoNewline(title) && forall j :: 0 <= j < |items| ==> NoNewline(items[j])
    ensures var lines := Lines(text);
      var p := InsertLine(text);
      Lines(InsertAfterPreamble(text, SectionBlock(title, items))) == lines[..p] + BlockLines(title, items) + lines[p..]
  {
    var lines := Lines(text);
    var p := InsertLine(text);
    var mid := BlockLines(title, items);
    SectionBlockLines(title, items);
    InsertAfterPreambleLines(text, mid);
    LinesNoNewline(text);
    assert Repeat('#', 2) == "##";
    assert forall j :: 0 <= j < |mid| ==> NoNewline(mid[j]);
    var all := lines[..p] + mid + lines[p..];
    forall j | 0 <= j < |all|
      ensures NoNewline(all[j])
    {
      if j < p {
        assert all[j] == lines[j];
      } else if j < p + |mid| {
        assert all[j] == mid[j - p];
      } else {
        assert all[j] == lines[j - |mid|];
      }
    }
    LinesUnlines(all);
  }

  /** A title with no whitespace at either end, which a heading gives back. */
  predicate Trimmed(title: string) {
    |title| > 0 && !IsSpace(title[0]) && !IsSpace(title[|title| - 1])
  }

  /** A written header is read back as the heading it was written from. */
  lemma HeaderClassified(level: nat, title: string)
    requires 1 <= level <= 6 && Trimmed(title)
    ensures Classify(Header(level, title)) == Heading(level, title)
  {
    var line := Header(level, title);
    assert line[level] == ' ';
    RunAt(line, level);
    assert line[level..] == " " + title;
    assert AllSpace(" ");
    StripLeading(" ", title);
    StripTrimmed(title);
  }

  /** Joining more lines after some keeps the join of the first ones in
      front. */
  lemma UnlinesStarts(a: seq<string>, b: seq<string>)
    requires |a| >= 1
    ensures StartsWith(Unlines(a + b), Unlines(a))
  {
    if |b| > 0 {
      UnlinesAppend(a, b);
      StartsWithJoin(Unlines(a), "\n" + Unlines(b));
    } else {
      assert a + b == a;
    }
  }

  lemma UnlinesStartsAt(lines: seq<string>, n: nat)
    requires 1 <= n <= |lines|
    ensures StartsWith(Unlines(lines), Unlines(lines[..n]))
  {
    assert lines == lines[..n] + lines[n..];
    UnlinesStarts(lines[..n], lines[n..]);
  }

  /** Plain lines keep their text in a section body. */
  lemma PlainTexts(lines: seq<string>, ls: seq<Line>, a: nat, b: nat)
    requires ls == Classified(lines) && a <= b <= |ls|
    requires forall j :: a <= j < b ==> ls[j].Plain?
    ensures Texts(ls[a..b]) == lines[a..b]
  {
  }

  /** No line of a new block but its header is a heading. */
  lemma BlockPlain(title: string, items: seq<string>)
    ensures forall j :: 2 <= j < |BlockLines(title, items)| ==> !IsHeading(BlockLines(title, items)[j])
  {
    var mid := BlockLines(title, items);
    forall j | 2 <= j < |mid|
      ensures !IsHeading(mid[j])
    {
      if 3 <= j < |mid| - 1 {
        assert mid[j] == "- " + items[j - 3];
        assert mid[j][0] == '-';
      } else {
        assert mid[j] == "";
      }
    }
  }

  /** The body of the new section, as the lines after its header. */
  lemma CreatedBody(all: seq<string>, p: nat, title: string, items: seq<string>)
    requires p + |BlockLines(title, items)| <= |all|
    requires all[p..p + |BlockLines(title, items)|] == BlockLines(title, items)
    ensures var ls := Classified(all);
      var k := NextHeading(ls, p + 2);
      && p + |BlockLines(title, items)| <= k
      && StartsWith(Unlines(Texts(ls[p + 2..k])), "\n" + BulletList(items))
  {
    var e := p + |BlockLines(title, items)|;
    var ls := Classified(all);
    BlockLinesPlain(all, p, title, items);
    var k := NextHeading(ls, p + 2);
    PlainTexts(all, ls, p + 2, k);
    var mid := BlockLines(title, items);
    assert mid[2..] == [""] + BulletLines(items) + [""];
    assert all[p + 2..k][..e - p - 2] == all[p..e][2..];
    BodyStarts(all[p + 2..k], e - p - 2, items);
  }

  /** The lines of the block after its header are plain where they land. */
  lemma BlockLinesPlain(all: seq<string>, p: nat, title: string, items: seq<string>)
    requires p + |BlockLines(title, items)| <= |all|
    requires all[p..p + |BlockLines(title, items)|] == BlockLines(title, items)
    ensures forall j :: p + 2 <= j < p + |BlockLines(title, items)| ==> Classified(all)[j].Plain?
  {
    var mid := BlockLines(title, items);
    BlockPlain(title, items);
    forall j | p + 2 <= j < p + |mid|
      ensures Classified(all)[j].Plain?
    {
      assert all[j] == mid[j - p];
    }
  }

  /** Lines that open with a blank line and the bullet lines join to a text
      that opens with a line break and the bullet list. */
  lemma BodyStarts(body: seq<string>, n: nat, items: seq<string>)
    requires n == |items| + 2 && n <= |body|
    requires body[..n] == [""] + BulletLines(items) + [""]
    ensures StartsWith(Unlines(body), "\n" + BulletList(items))
  {
    UnlinesStartsAt(body, n);
    BlankThenBullets(items);
  }

  lemma BlankThenBullets(items: seq<string>)
    ensures Unlines([""] + BulletLines(items) + [""]) == "\n" + BulletList(items)
  {
    var rest := BulletLines(items) + [""];
    assert [""] + BulletLines(items) + [""] == [""] + rest;
    BulletListLines(items);
    JoinWithCons("", rest, "\n");
  }

  /** In the map parsed from the new text, the title's entry is a level-2
      section whose content is a blank line followed by the bullets of all
      the items, with whatever plain lines followed the insertion point. */
  lemma CreatedEntry(text: string, title: string, items: seq<string>)
    requires Trimmed(title) && NoNewline(title)
    requires forall j :: 0 <= j < |items| ==> NoNewline(items[j])
    requires WellTitled(Classified(Lines(InsertAfterPreamble(text, SectionBlock(title, items)))))
    ensures var info := Lookup(Parse(InsertAfterPreamble(text, SectionBlock(title, items))), title);
      && info.Some? && info.value.Full? && info.value.level == 2
      && StartsWith(info.value.content, "\n" + BulletList(items))
  {
    var created := InsertAfterPreamble(text, SectionBlock(title, items));
    var lines := Lines(text);
    var p := InsertLine(text);
    var mid := BlockLines(title, items);
    CreatedLines(text, title, items);
    SliceMiddle(lines[..p], mid, lines[p..]);
    CreatedEntryAt(created, p, title, items);
  }

  /** The middle run of three, cut back out. */
  lemma SliceMiddle<T>(a: seq<T>, mid: seq<T>, b: seq<T>)
    ensures (a + mid + b)[|a|..|a| + |mid|] == mid
  {
  }

  lemma CreatedEntryAt(created: string, p: nat, title: string, items: seq<string>)
    requires Trimmed(title)
    requires p + |BlockLines(title, items)| <= |Lines(created)|
    requires Lines(created)[p..p + |BlockLines(title, items)|] == BlockLines(title, items)
    requires WellTitled(Classified(Lines(created)))
    ensures var info := Lookup(Parse(created), title);
      && info.Some? && info.value.Full? && info.value.level == 2
      && StartsWith(info.value.content, "\n" + BulletList(items))
  {
    var all := Lines(created);
    var ls := Classified(all);
    assert all[p + 1] == BlockLines(title, items)[1] == Header(2, title);
    HeaderClassified(2, title);
    CreatedBody(all, p, title, items);
    ParseIsClosed(created);
    ClosedLookup(ls, p + 1);
  }

  /** When the rebuild reproduces the new text, creating a section succeeds
      and the README becomes exactly that text: the old one with the block
      and a line break put in at the start of its first heading line
      (`InsertAfterPreambleText`). */
  lemma NewSectionText(u: Updater, title: string, items: seq<string>)
    requires Canonical(InsertAfterPreamble(u.content, SectionBlock(title, items)))
    ensures NewSection(u, title, items).Ok?
    ensures NewSection(u, title, items).value.content == InsertAfterPreamble(u.content, SectionBlock(title, items))
  {
    RebuildParsed(InsertAfterPreamble(u.content, SectionBlock(title, items)));
  }

  /** When the new text has headings the scanner tells apart, creating a
      section succeeds, and the map then holds a level-2 section under the
      title whose content opens with a blank line and the bullets of the
      items, so it holds the bullet of every item. */
  lemma NewSectionEntry(u: Updater, title: string, items: seq<string>)
    requires Trimmed(title) && NoNewline(title)
    requires forall j :: 0 <= j < |items| ==> NoNewline(items[j])
    requires WellTitled(Classified(Lines(InsertAfterPreamble(u.content, SectionBlock(title, items)))))
    ensures NewSection(u, title, items).Ok?
    ensures var info := Lookup(NewSection(u, title, items).value.sections, title);
      && info.Some? && info.value.Full? && info.value.level == 2
      && StartsWith(info.value.content, "\n" + BulletList(items))
      && forall j :: 0 <= j < |items| ==> Contains(info.value.content, Bullet(items[j]))
  {
    var created := InsertAfterPreamble(u.content, SectionBlock(title, items));
    var ls := Classified(Lines(created));
    CreatedEntry(u.content, title, items);
    ParseIsClosed(created);
    ClosedFull(ls, |ls|);
    RebuildFails(Updater(created, Parse(created)));
    var content := Lookup(Parse(created), title).value.content;
    forall j | 0 <= j < |items|
      ensures Contains(content, Bullet(items[j]))
    {
      PrefixHasBullet(content, items, j);
    }
  }

  /** A text that opens with a blank line and a bullet list holds each bullet. */
  lemma PrefixHasBullet(content: string, items: seq<string>, j: nat)
    requires j < |items| && StartsWith(content, "\n" + BulletList(items))
    ensures Contains(content, Bullet(items[j]))
  {
    var list := BulletList(items);
    BulletListHas(items, j);
    ContainsRight("\n", list, Bullet(items[j]));
    ContainsInPrefix(content, "\n" + list, Bullet(items[j]));
  }

  /** What a prefix holds, the whole holds. */
  lemma ContainsInPrefix(s: string, p: string, t: string)
    requires StartsWith(s, p) && Contains(p, t)
    ensures Contains(s, t)
  {
    var i := IndexOf(p, t).value;
    assert s[i..i + |t|] == p[i..i + |t|];
    ContainsAt(s, i, t);
  }

  /** The outcome of an update that reports a change once it gets through. */
  function Changed(r: Result<Updater, Error>): (c: Result<(Updater, bool), Error>)
    ensures c.Ok? <==> r.Ok?
    ensures c.Ok? ==> c.value == (r.value, true)
  {
    match r
    case Ok(next) => Ok((next, true))
    case Err(e) => Err(e)
  }

  /** The content `_add_features` gives the section it found. */
  function ExtendedContent(info: Info, features: seq<string>): string {
    if info.Full? then AppendItems(info.content, features) else ""
  }

  /** `_add_features`. */
  function AddFeatures(u: Updater, features: seq<string>): (r: Result<(Updater, bool), Error>)
    ensures |features| == 0 ==> r == Ok((u, false))
    ensures |features| > 0 && r.Ok? ==> r.value.1
  {
    if |features| == 0 then Ok((u, false))
    else
      match FindSection(u.sections, FeatureTitles)
      case Some(name) => Changed(Rewrite(u, name, ExtendedContent(Lookup(u.sections, name).value, features)))
      case None => Changed(NewSection(u, "Features", features))
  }

  /** With a features section, its content becomes the old one stripped of
      trailing whitespace, a line break and the bullets of the features it
      did not mention; every other section is kept, and the text is rebuilt
      from the result. */
  lemma AddFeaturesExtends(u: Updater, features: seq<string>, name: string)
    requires |features| > 0 && FindSection(u.sections, FeatureTitles) == Some(name)
    requires AddFeatures(u, features).Ok?
    ensures var info := Lookup(u.sections, name).value;
      var m := AddFeatures(u, features).value.0.sections;
      && info.Full?
      && Lookup(m, name) == Some(info.(content := RStrip(info.content) + "\n" + BulletList(Fresh(info.content, features))))
      && (forall other :: other != name ==> Lookup(m, other) == Lookup(u.sections, other))
      && Rebuild(Updater(u.content, m)) == Ok(AddFeatures(u, features).value.0)
  {
    var info := Lookup(u.sections, name).value;
    var content := ExtendedContent(info, features);
    AddFeaturesFound(u, features, name);
    RewriteSpec(u, name, content);
    AppendItemsShape(info.content, features);
  }

  /** With a features section `_add_features` rewrites that section. */
  lemma AddFeaturesFound(u: Updater, features: seq<string>, name: string)
    requires |features| > 0 && FindSection(u.sections, FeatureTitles) == Some(name)
    ensures AddFeatures(u, features) == Changed(Rewrite(u, name, ExtendedContent(Lookup(u.sections, name).value, features)))
  {
  }

  /** A section rewrite changes that section's content and nothing else in
      the map, and leaves the text rebuilt from the new map. */
  lemma RewriteSpec(u: Updater, name: string, content: string)
    requires HasKey(u.sections, name) && Rewrite(u, name, content).Ok?
    ensures var info := Lookup(u.sections, name).value;
      var m := Rewrite(u, name, content).value.sections;
      && info.Full?
      && Lookup(m, name) == Some(info.(content := content))
      && (forall other :: other != name ==> Lookup(m, other) == Lookup(u.sections, other))
      && Rebuild(Updater(u.content, m)) == Rewrite(u, name, content)
  {
    var info := Lookup(u.sections, name).value;
    var v := info.(content := content);
    PutLookup(u.sections, name, v);
    forall other | other != name
      ensures Lookup(Put(u.sections, name, v), other) == Lookup(u.sections, other)
    {
      PutLookupOther(u.sections, name, v, other);
    }
  }

  /** Afterwards the features section mentions every feature that ends in a
      visible character. */
  lemma AddFeaturesMentions(u: Updater, features: seq<string>, name: string)
    requires |features| > 0 && FindSection(u.sections, FeatureTitles) == Some(name)
    requires AddFeatures(u, features).Ok?
    requires forall j :: 0 <= j < |features| ==> EndsSolid(features[j])
    ensures var info := Lookup(AddFeatures(u, features).value.0.sections, name);
      info.Some? && info.value.Full? && forall j :: 0 <= j < |features| ==> Known(info.value.content, features[j])
  {
    var info := Lookup(u.sections, name).value;
    AddFeaturesExtends(u, features, name);
    AppendItemsShape(info.content, features);
    AppendItemsMentions(info.content, features);
  }

  /** Without one, `_add_features` creates a `Features` section. */
  lemma AddFeaturesNew(u: Updater, features: seq<string>)
    requires |features| > 0 && FindSection(u.sections, FeatureTitles).None?
    ensures AddFeatures(u, features) == Changed(NewSection(u, "Features", features))
  {
  }

  /** The two titles a new section is given, as headings read them back. */
  lemma NewTitlesTrimmed()
    ensures Trimmed("Features") && NoNewline("Features")
    ensures Trimmed("Configuration") && NoNewline("Configuration")
  {
    assert !IsSpace('F') && !IsSpace('s') && !IsSpace('C') && !IsSpace('n');
  }

  /** Without a features section, and when the rebuild reproduces the new
      text, the README becomes the old text with a `## Features` block and
      a line break put in before its first heading line, and a change is
      reported. */
  lemma AddFeaturesCreates(u: Updater, features: seq<string>)
    requires |features| > 0 && FindSection(u.sections, FeatureTitles).None?
    requires Canonical(InsertAfterPreamble(u.content, SectionBlock("Features", features)))
    ensures AddFeatures(u, features).Ok? && AddFeatures(u, features).value.1
    ensures AddFeatures(u, features).value.0.content == InsertAfterPreamble(u.content, SectionBlock("Features", features))
  {
    AddFeaturesNew(u, features);
    NewSectionText(u, "Features", features);
  }

  /** Without a features section, the map afterwards has a level-2
      `Features` section holding the bullet of every feature. */
  lemma AddFeaturesCreatesSection(u: Updater, features: seq<string>)
    requires |features| > 0 && FindSection(u.sections, FeatureTitles).None?
    requires forall j :: 0 <= j < |features| ==> NoNewline(features[j])
    requires WellTitled(Classified(Lines(InsertAfterPreamble(u.content, SectionBlock("Features", features)))))
    ensures AddFeatures(u, features).Ok? && AddFeatures(u, features).value.1
    ensures var info := Lookup(AddFeatures(u, features).value.0.sections, "Features");
      && info.Some? && info.value.Full? && info.value.level == 2
      && forall j :: 0 <= j < |features| ==> Contains(info.value.content, Bullet(features[j]))
  {
    AddFeaturesNew(u, features);
    NewTitlesTrimmed();
    NewSectionEntry(u, "Features", features);
  }

  /** `_update_features` treats modified features as new ones. */
  function UpdateFeatures(u: Updater, features: seq<string>): (r: Result<(Updater, bool), Error>)
    ensures |features| == 0 ==> r == Ok((u, false))
    ensures |features| > 0 && r.Ok? ==> r.value.1
    ensures r == AddFeatures(u, features)
  {
    AddFeatures(u, features)
  }

  /** `_update_configuration`. Unlike the features update it reports, and
      rebuilds, only when the section's content changes. */
  function UpdateConfiguration(u: Updater, updates: seq<string>): (r: Result<(Updater, bool), Error>)
    ensures |updates| == 0 ==> r == Ok((u, false))
  {
    if |updates| == 0 then Ok((u, false))
    else
      match FindSection(u.sections, ConfigTitles)
      case Some(name) => Reconfigure(u, name, updates)
      case None => Changed(NewSection(u, "Configuration", updates))
  }

  /** The found-section branch of `_update_configuration`. */
  function Reconfigure(u: Updater, name: string, updates: seq<string>): (r: Result<(Updater, bool), Error>)
    requires HasKey(u.sections, name)
    ensures r.Ok? && !r.value.1 ==> r.value.0 == u
  {
    var info := Lookup(u.sections, name).value;
    if info.Pending? then Err(KeyError("content"))
    else
      var content := AppendItems(info.content, updates);
      if content != info.content then Changed(Rewrite(u, name, content))
      else Ok((u, false))
  }

  /** With a configuration section the update reports a change exactly when
      some item is not mentioned yet or the content does not already end in
      a single line break after its last visible character. */
  lemma UpdateConfigurationFound(u: Updater, updates: seq<string>, name: string)
    requires |updates| > 0 && FindSection(u.sections, ConfigTitles) == Some(name)
    requires UpdateConfiguration(u, updates).Ok?
    ensures var info := Lookup(u.sections, name).value;
      UpdateConfiguration(u, updates).value.1 <==> Fresh(info.content, updates) != [] || info.content != RStrip(info.content) + "\n"
  {
    assert UpdateConfiguration(u, updates) == Reconfigure(u, name, updates);
    ReconfigureFlag(u, name, updates);
  }

  lemma ReconfigureFlag(u: Updater, name: string, updates: seq<string>)
    requires HasKey(u.sections, name) && Reconfigure(u, name, updates).Ok?
    ensures var info := Lookup(u.sections, name).value;
      Reconfigure(u, name, updates).value.1 <==> Fresh(info.content, updates) != [] || info.content != RStrip(info.content) + "\n"
  {
    var info := Lookup(u.sections, name).value;
    AppendItemsUnchanged(info.content, updates);
  }

  /** Without one a new section is always created. */
  lemma UpdateConfigurationCreates(u: Updater, updates: seq<string>)
    requires |updates| > 0 && FindSection(u.sections, ConfigTitles).None?
    requires UpdateConfiguration(u, updates).Ok?
    ensures UpdateConfiguration(u, updates).value.1
    ensures UpdateConfiguration(u, updates).value.0.sections == Parse(InsertAfterPreamble(u.content, SectionBlock("Configuration", updates)))
  {
    assert UpdateConfiguration(u, updates) == Changed(NewSection(u, "Configuration", updates));
  }

  /** Without a configuration section, and when the rebuild reproduces the
      new text, the README becomes the old text with a `## Configuration`
      block and a line break put in before its first heading line. */
  lemma UpdateConfigurationCreatesText(u: Updater, updates: seq<string>)
    requires |updates| > 0 && FindSection(u.sections, ConfigTitles).None?
    requires Canonical(InsertAfterPreamble(u.content, SectionBlock("Configuration", updates)))
    ensures UpdateConfiguration(u, updates).Ok? && UpdateConfiguration(u, updates).value.1
    ensures UpdateConfiguration(u, updates).value.0.content == InsertAfterPreamble(u.content, SectionBlock("Configuration", updates))
  {
    assert UpdateConfiguration(u, updates) == Changed(NewSection(u, "Configuration", updates));
    NewSectionText(u, "Configuration", updates);
  }

  /** Without a configuration section, the map afterwards has a level-2
      `Configuration` section holding the bullet of every update. */
  lemma UpdateConfigurationCreatesSection(u: Updater, updates: seq<string>)
    requires |updates| > 0 && FindSection(u.sections, ConfigTitles).None?
    requires forall j :: 0 <= j < |updates| ==> NoNewline(updates[j])
    requires WellTitled(Classified(Lines(InsertAfterPreamble(u.content, SectionBlock("Configuration", updates)))))
    ensures UpdateConfiguration(u, updates).Ok? && UpdateConfiguration(u, updates).value.1
    ensures var info := Lookup(UpdateConfiguration(u, updates).value.0.sections, "Configuration");
      && info.Some? && info.value.Full? && info.value.level == 2
      && forall j :: 0 <= j < |updates| ==> Contains(info.value.content, Bullet(updates[j]))
  {
    assert UpdateConfiguration(u, updates) == Changed(NewSection(u, "Configuration", updates));
    NewTitlesTrimmed();
    NewSectionEntry(u, "Configuration", updates);
  }

  // ---------------------------------------------------------------------------
  // `_remove_features`

  /** An entry after the feature loop: a full entry's content with every
      bullet line mentioning a feature deleted. */
  function Swept(e: Entry, features: seq<string>): Entry {
    if e.info.Full? then Entry(e.name, e.info.(content := RemoveAll(e.info.content, features))) else e
  }

  /** The loop over `self.sections.items()` from the `i`-th entry on; the
      preamble is visited too. Reading a placeholder's content raises. */
  function Sweep(m: SectionMap, features: seq<string>, i: nat): Result<SectionMap, Error>
    requires i <= |m|
    decreases |m| - i
  {
    if i == |m| then Ok(m)
    else if m[i].info.Pending? then Err(KeyError("content"))
    else Sweep(m[i := Swept(m[i], features)], features, i + 1)
  }

  lemma {:induction false} SweepSpec(m: SectionMap, features: seq<string>, i: nat)
    requires i <= |m|
    ensures Sweep(m, features, i).Err? <==> exists j :: i <= j < |m| && m[j].info.Pending?
    ensures Sweep(m, features, i).Ok? ==> |Sweep(m, features, i).value| == |m|
    ensures Sweep(m, features, i).Ok? ==> forall j :: 0 <= j < i ==> Sweep(m, features, i).value[j] == m[j]
    ensures Sweep(m, features, i).Ok? ==> forall j :: i <= j < |m| ==> Sweep(m, features, i).value[j] == Swept(m[j], features)
    decreases |m| - i
  {
    if i < |m| && m[i].info.Full? {
      var m' := m[i := Swept(m[i], features)];
      SweepSpec(m', features, i + 1);
      assert forall j :: i < j < |m| ==> m'[j] == m[j];
    }
  }

  /** `_remove_features`: the text is rebuilt, and a change reported, only
      when some section's content changed. */
  function RemoveFeatures(u: Updater, features: seq<string>): (r: Result<(Updater, bool), Error>)
    ensures |features| == 0 ==> r == Ok((u, false))
    ensures r.Ok? && !r.value.1 ==> r.value.0 == u
  {
    if |features| == 0 then Ok((u, false))
    else
      match Sweep(u.sections, features, 0)
      case Err(e) => Err(e)
      case Ok(m) => if m != u.sections then Changed(Rebuild(Updater(u.content, m))) else Ok((u, false))
  }

  /** A section some feature is mentioned in: one of its bullet lines
      mentions it. */
  predicate MentionsSome(e: Entry, features: seq<string>) {
    e.info.Full? && exists k :: 0 <= k < |features| && !Unmentioned(e.info.content, features[k])
  }

  /** Removal fails exactly when the map holds a placeholder, and otherwise
      reports a change exactly when a bullet line of some section mentions
      a feature; the map it leaves has every section swept. */
  lemma RemoveFeaturesSpec(u: Updater, features: seq<string>)
    requires |features| > 0
    ensures RemoveFeatures(u, features).Err? ==> exists j :: 0 <= j < |u.sections| && u.sections[j].info.Pending?
    ensures (exists j :: 0 <= j < |u.sections| && u.sections[j].info.Pending?) ==> RemoveFeatures(u, features).Err?
    ensures RemoveFeatures(u, features).Ok? ==>
      (RemoveFeatures(u, features).value.1 <==> exists j :: 0 <= j < |u.sections| && MentionsSome(u.sections[j], features))
    ensures RemoveFeatures(u, features).Ok? && RemoveFeatures(u, features).value.1 ==>
      var m := RemoveFeatures(u, features).value.0.sections;
      |m| == |u.sections| && forall j :: 0 <= j < |m| ==> m[j] == Swept(u.sections[j], features)
  {
    var sections := u.sections;
    SweepSpec(sections, features, 0);
    if Sweep(sections, features, 0).Ok? {
      var m := Sweep(sections, features, 0).value;
      SweptChanged(sections, m, features);
      if m != sections {
        RebuildFails(Updater(u.content, m));
        assert forall j :: 0 <= j < |m| ==> m[j].name == sections[j].name && m[j].info.Full?;
      }
    }
  }

  /** The swept map differs from the original exactly when some section
      mentions a feature. */
  lemma SweptChanged(sections: SectionMap, m: SectionMap, features: seq<string>)
    requires |m| == |sections|
    requires forall j :: 0 <= j < |m| ==> m[j] == Swept(sections[j], features) && sections[j].info.Full?
    ensures m != sections <==> exists j :: 0 <= j < |sections| && MentionsSome(sections[j], features)
  {
    forall j | 0 <= j < |sections|
      ensures m[j] != sections[j] <==> MentionsSome(sections[j], features)
    {
      RemoveAllUnchangedIff(sections[j].info.content, features);
    }
    if m != sections {
      var j :| 0 <= j < |m| && m[j] != sections[j];
    }
  }

  // ---------------------------------------------------------------------------
  // `update_changelog`

  /** A bullet list under a `###` heading, or nothing for no items. */
  function ChangeBlock(heading: string, items: seq<string>): string {
    if |items| == 0 then "" else heading + BulletList(items) + "\n"
  }

  /** The entry `update_changelog` builds for the release dated `date`. */
  function ChangelogEntry(a: Analysis, version: string, date: string): string {
    "\n## " + version + " (" + date + ")\n\n"
    + (ChangeBlock("### Added\n", Items(a.newFeatures))
    + (ChangeBlock("### Removed\n", Items(a.removedFeatures))
    + (ChangeBlock("### Changed\n", Items(a.modifiedFeatures))
    + ChangeBlock("### Configuration\n", Items(a.configurationUpdates)))))
  }

  /** Each list in the entry has a bullet per item. */
  lemma ChangelogEntryLists(a: Analysis, version: string, date: string)
    ensures forall j :: 0 <= j < |Items(a.newFeatures)| ==> Contains(ChangelogEntry(a, version, date), Bullet(Items(a.newFeatures)[j]))
    ensures forall j :: 0 <= j < |Items(a.removedFeatures)| ==> Contains(ChangelogEntry(a, version, date), Bullet(Items(a.removedFeatures)[j]))
    ensures forall j :: 0 <= j < |Items(a.modifiedFeatures)| ==> Contains(ChangelogEntry(a, version, date), Bullet(Items(a.modifiedFeatures)[j]))
    ensures forall j :: 0 <= j < |Items(a.configurationUpdates)| ==> Contains(ChangelogEntry(a, version, date), Bullet(Items(a.configurationUpdates)[j]))
  {
    var head := "\n## " + version + " (" + date + ")\n\n";
    var b1 := ChangeBlock("### Added\n", Items(a.newFeatures));
    var b2 := ChangeBlock("### Removed\n", Items(a.removedFeatures));
    var b3 := ChangeBlock("### Changed\n", Items(a.modifiedFeatures));
    var b4 := ChangeBlock("### Configuration\n", Items(a.configurationUpdates));
    var tail := b2 + (b3 + b4);
    BlockIn(b1, tail, "### Added\n", Items(a.newFeatures));
    BlockIn(b2, b3 + b4, "### Removed\n", Items(a.removedFeatures));
    BlockIn(b3, b4, "### Changed\n", Items(a.modifiedFeatures));
    BlockIn(b4, "", "### Configuration\n", Items(a.configurationUpdates));
    assert b4 + "" == b4;
    PrefixKeeps(head, b1 + tail, Items(a.newFeatures));
    PrefixKeeps(b1, tail, Items(a.removedFeatures));
    PrefixKeeps(head, b1 + tail, Items(a.removedFeatures));
    PrefixKeeps(b2, b3 + b4, Items(a.modifiedFeatures));
    PrefixKeeps(b1, tail, Items(a.modifiedFeatures));
    PrefixKeeps(head, b1 + tail, Items(a.modifiedFeatures));
    PrefixKeeps(b3, b4, Items(a.configurationUpdates));
    PrefixKeeps(b2, b3 + b4, Items(a.configurationUpdates));
    PrefixKeeps(b1, tail, Items(a.configurationUpdates));
    PrefixKeeps(head, b1 + tail, Items(a.configurationUpdates));
  }

  /** A block's bullets are found in any text that starts with it. */
  lemma BlockIn(block: string, after: string, heading: string, items: seq<string>)
    requires block == ChangeBlock(heading, items)
    ensures forall j :: 0 <= j < |items| ==> Contains(block + after, Bullet(items[j]))
  {
    forall j | 0 <= j < |items|
      ensures Contains(block + after, Bullet(items[j]))
    {
      BulletListHas(items, j);
      ContainsRight(heading, BulletList(items), Bullet(items[j]));
      ContainsLeft(heading + BulletList(items), "\n", Bullet(items[j]));
      ContainsLeft(block, after, Bullet(items[j]));
    }
  }

  /** Putting text in front keeps every bullet found. */
  lemma PrefixKeeps(front: string, s: string, items: seq<string>)
    requires forall j :: 0 <= j < |items| ==> Contains(s, Bullet(items[j]))
    ensures forall j :: 0 <= j < |items| ==> Contains(front + s, Bullet(items[j]))
  {
    forall j | 0 <= j < |items|
      ensures Contains(front + s, Bullet(items[j]))
    {
      ContainsRight(front, s, Bullet(items[j]));
    }
  }

  /** The header the entry goes under. */
  const LatestUpdates := "## Latest Updates"

  /** No list `update_changelog` reads has an item. */
  predicate NothingToLog(a: Analysis) {
    && |Items(a.newFeatures)| == 0 && |Items(a.removedFeatures)| == 0
    && |Items(a.modifiedFeatures)| == 0 && |Items(a.configurationUpdates)| == 0
  }

  /** The first two pieces of a split at a separator the text contains. */
  lemma SplitFound(s: string, sep: string)
    requires |sep| > 0 && Contains(s, sep)
    ensures var i := IndexOf(s, sep).value; var rest := s[i + |sep|..];
      && |SplitOn(s, sep)| >= 2
      && SplitOn(s, sep)[0] == s[..i]
      && SplitOn(s, sep)[1] == (match IndexOf(rest, sep) case None => rest case Some(j) => rest[..j])
  {
  }

  /** `parts = text.split(header)` and `parts[0] + header + entry +
      parts[1]` when the text has the header, else the entry at the end. */
  function SplitInsert(text: string, header: string, entry: string): string
    requires |header| > 0
  {
    if Contains(text, header) then
      SplitFound(text, header);
      var parts := SplitOn(text, header);
      parts[0] + header + entry + parts[1]
    else text + entry
  }

  /** The entry right after the first header, or at the end without one. */
  function InsertAfter(text: string, header: string, entry: string): (r: string)
    ensures |r| == |text| + |entry|
  {
    match IndexOf(text, header)
    case Some(i) => text[..i + |header|] + entry + text[i + |header|..]
    case None => text + entry
  }

  /** Where `InsertAfter` puts the entry. */
  function InsertPoint(text: string, header: string): (k: nat)
    ensures k <= |text|
  {
    match IndexOf(text, header)
    case Some(i) => i + |header|
    case None => |text|
  }

  /** The placement as written: the split drops everything from a second
      header on. */
  function InsertEntry(text: string, entry: string): string {
    SplitInsert(text, LatestUpdates, entry)
  }

  /** The placement the comment at readme_updater.py:141 describes: the entry
      right after the first header, everything else kept, as
      `content.split(header, 1)` would give. */
  function InsertEntryAfterFirst(text: string, entry: string): (r: string)
    ensures |r| == |text| + |entry|
  {
    InsertAfter(text, LatestUpdates, entry)
  }

  /** The text after the first header holds another one. */
  predicate HeaderTwice(text: string, header: string) {
    IndexOf(text, header).Some? && Contains(text[IndexOf(text, header).value + |header|..], header)
  }

  /** With at most one header both placements agree. */
  lemma SplitInsertOnce(text: string, header: string, entry: string)
    requires |header| > 0 && !HeaderTwice(text, header)
    ensures SplitInsert(text, header, entry) == InsertAfter(text, header, entry)
  {
    if Contains(text, header) {
      var i := IndexOf(text, header).value;
      var rest := text[i + |header|..];
      SplitOnceParts(text, header, i, rest);
      assert SplitInsert(text, header, entry) == text[..i] + header + entry + rest;
      assert text[..i + |header|] == text[..i] + header;
    }
  }

  /** The first two pieces of a split on a header that occurs once. */
  lemma SplitOnceParts(text: string, header: string, i: nat, rest: string)
    requires |header| > 0 && Contains(text, header) && IndexOf(text, header) == Some(i)
    requires rest == text[i + |header|..] && !Contains(rest, header)
    ensures |SplitOn(text, header)| >= 2
    ensures SplitOn(text, header)[0] == text[..i] && SplitOn(text, header)[1] == rest
  {
    assert SplitOn(text, header) == [text[..i]] + SplitOn(rest, header);
    assert SplitOn(rest, header) == [rest];
  }

  /** With two the split loses text: the result is shorter than the text
      and the entry together. */
  lemma SplitInsertLoses(text: string, header: string, entry: string)
    requires |header| > 0 && HeaderTwice(text, header)
    ensures |SplitInsert(text, header, entry)| < |text| + |entry|
  {
    SplitFound(text, header);
  }

  /** The corrected placement only adds the entry: taking it out again gives
      the text back, and it follows the first header directly. */
  lemma InsertAfterKeeps(text: string, header: string, entry: string)
    ensures var k := InsertPoint(text, header);
      var r := InsertAfter(text, header, entry);
      && r[k..k + |entry|] == entry
      && r[..k] + r[k + |entry|..] == text
      && (Contains(text, header) ==> EndsWith(r[..k], header))
  {
    var r := InsertAfter(text, header, entry);
    var k := InsertPoint(text, header);
    assert r[..k] == text[..k];
    assert r[k + |entry|..] == text[k..];
    if Contains(text, header) {
      var i := IndexOf(text, header).value;
      assert r[..k][|r[..k]| - |header|..] == text[i..k];
    }
  }

  lemma InsertEntryOneHeader(text: string, entry: string)
    requires !HeaderTwice(text, LatestUpdates)
    ensures InsertEntry(text, entry) == InsertEntryAfterFirst(text, entry)
  {
    SplitInsertOnce(text, LatestUpdates, entry);
  }

  lemma InsertEntryLosesText(text: string, entry: string)
    requires HeaderTwice(text, LatestUpdates)
    ensures |InsertEntry(text, entry)| < |text| + |entry|
  {
    SplitInsertLoses(text, LatestUpdates, entry);
  }

  /** `update_changelog` with the entry placed as written. */
  function UpdateChangelog(u: Updater, a: Analysis, version: string, date: string): (r: (Updater, bool))
    ensures r.1 <==> !NothingToLog(a)
    ensures !r.1 ==> r.0 == u
    ensures r.0.sections == u.sections
    ensures !Contains(u.content, LatestUpdates) ==> r.0.content == u.content + (if r.1 then ChangelogEntry(a, version, date) else "")
  {
    if NothingToLog(a) then (u, false)
    else (u.(content := InsertEntry(u.content, ChangelogEntry(a, version, date))), true)
  }

  /** With exactly one header the entry goes right after it and the rest of
      the text is kept around it. */
  lemma UpdateChangelogOneHeader(u: Updater, a: Analysis, version: string, date: string)
    requires !NothingToLog(a) && Contains(u.content, LatestUpdates) && !HeaderTwice(u.content, LatestUpdates)
    ensures var k := InsertPoint(u.content, LatestUpdates);
      var e := ChangelogEntry(a, version, date);
      var r := UpdateChangelog(u, a, version, date).0.content;
      && |r| == |u.content| + |e|
      && r[k..k + |e|] == e
      && r[..k] + r[k + |e|..] == u.content
      && EndsWith(r[..k], LatestUpdates)
  {
    var e := ChangelogEntry(a, version, date);
    InsertEntryOneHeader(u.content, e);
    InsertAfterKeeps(u.content, LatestUpdates, e);
  }

  /** `update_changelog` with the entry placed after the first header only. */
  function UpdateChangelogAfterFirst(u: Updater, a: Analysis, version: string, date: string): (r: (Updater, bool))
    ensures r.1 <==> !NothingToLog(a)
    ensures !r.1 ==> r.0 == u
    ensures r.0.sections == u.sections
    ensures r.1 ==> |r.0.content| == |u.content| + |ChangelogEntry(a, version, date)|
  {
    if NothingToLog(a) then (u, false)
    else (u.(content := InsertEntryAfterFirst(u.content, ChangelogEntry(a, version, date))), true)
  }

  // ---------------------------------------------------------------------------
  // `update_from_analysis`

  /** The four updates `update_from_analysis` runs. */
  datatype Kind = Add | Remove | Modify | Configure

  /** One guarded step of `update_from_analysis`: the update runs only for a
      non-empty list. */
  function Run(u: Updater, kind: Kind, items: seq<string>): (r: Result<(Updater, bool), Error>)
    ensures |items| == 0 ==> r == Ok((u, false))
    ensures r.Ok? && !r.value.1 ==> r.value.0 == u
    ensures (kind == Add || kind == Modify) && |items| > 0 && r.Ok? ==> r.value.1
  {
    if |items| == 0 then Ok((u, false))
    else
      match kind
      case Add => AddFeatures(u, items)
      case Remove => RemoveFeatures(u, items)
      case Modify => UpdateFeatures(u, items)
      case Configure => UpdateConfiguration(u, items)
  }

  /** The lists `update_from_analysis` reads, in the order it acts on them. */
  function Plan(a: Analysis): (steps: seq<(Kind, seq<string>)>)
    ensures |steps| == 4
    ensures forall j :: 0 <= j < 4 ==> steps[j].0 == [Add, Remove, Modify, Configure][j]
  {
    [(Add, Items(a.newFeatures)), (Remove, Items(a.removedFeatures)),
     (Modify, Items(a.modifiedFeatures)), (Configure, Items(a.configurationUpdates))]
  }

  /** The steps from the `i`-th on, with `modified |= ...` after each; the
      first `KeyError` ends the run. */
  function RunFrom(u: Updater, steps: seq<(Kind, seq<string>)>, i: nat, modified: bool): (r: Result<(Updater, bool), Error>)
    requires i <= |steps|
    ensures r.Ok? && modified ==> r.value.1
    ensures r.Ok? && !r.value.1 ==> r.value.0 == u
    decreases |steps| - i
  {
    if i == |steps| then Ok((u, modified))
    else
      var step :- Run(u, steps[i].0, steps[i].1);
      RunFrom(step.0, steps, i + 1, modified || step.1)
  }

  /** `update_from_analysis`. */
  function UpdateFromAnalysis(u: Updater, a: Analysis): (r: Result<(Updater, bool), Error>)
    ensures r.Ok? && !r.value.1 ==> r.value.0 == u
  {
    RunFrom(u, Plan(a), 0, false)
  }

  /** Steps with empty lists do nothing. */
  lemma {:induction false} RunFromQuiet(u: Updater, steps: seq<(Kind, seq<string>)>, i: nat, modified: bool)
    requires i <= |steps|
    requires forall j :: i <= j < |steps| ==> |steps[j].1| == 0
    ensures RunFrom(u, steps, i, modified) == Ok((u, modified))
    decreases |steps| - i
  {
    if i < |steps| {
      RunFromQuiet(u, steps, i + 1, modified);
    }
  }

  /** A later step that adds or updates features makes the run report a
      change. */
  lemma {:induction false} RunFromReports(u: Updater, steps: seq<(Kind, seq<string>)>, i: nat, modified: bool, k: nat)
    requires i <= k < |steps|
    requires (steps[k].0 == Add || steps[k].0 == Modify) && |steps[k].1| > 0
    requires RunFrom(u, steps, i, modified).Ok?
    ensures RunFrom(u, steps, i, modified).value.1
    decreases |steps| - i
  {
    var step := Run(u, steps[i].0, steps[i].1);
    assert step.Ok?;
    if i < k {
      RunFromReports(step.value.0, steps, i + 1, modified || step.value.1, k);
    }
  }

  /** With nothing to add, remove, update or configure the updater is left
      alone. */
  lemma UpdateFromAnalysisQuiet(u: Updater, a: Analysis)
    requires NothingToLog(a)
    ensures UpdateFromAnalysis(u, a) == Ok((u, false))
  {
    RunFromQuiet(u, Plan(a), 0, false);
  }

  /** New or modified features are always reported as a change. */
  lemma UpdateFromAnalysisReports(u: Updater, a: Analysis)
    requires |Items(a.newFeatures)| > 0 || |Items(a.modifiedFeatures)| > 0
    requires UpdateFromAnalysis(u, a).Ok?
    ensures UpdateFromAnalysis(u, a).value.1
  {
    if |Items(a.newFeatures)| > 0 {
      RunFromReports(u, Plan(a), 0, false, 0);
    } else {
      RunFromReports(u, Plan(a), 0, false, 2);
    }
  }

  /** Only the four lists are read: significance, summary, documentation
      entries and the error keys do not matter. */
  lemma UpdateFromAnalysisIgnores(u: Updater, a: Analysis, b: Analysis)
    requires Items(a.newFeatures) == Items(b.newFeatures) && Items(a.removedFeatures) == Items(b.removedFeatures)
    requires Items(a.modifiedFeatures) == Items(b.modifiedFeatures) && Items(a.configurationUpdates) == Items(b.configurationUpdates)
    ensures UpdateFromAnalysis(u, a) == UpdateFromAnalysis(u, b)
  {
    assert Plan(a) == Plan(b);
  }
}
