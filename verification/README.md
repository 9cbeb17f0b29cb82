# pr-analyzer core in Dafny

pr-analyzer reads the files a pull request changes. It decides whether
the change is worth an AI analysis, asks a model what the change added,
removed, changed or reconfigured, and then edits the repository README
to match. This project models the deterministic parts of that pipeline
and proves what they do:

- **Path filters** (`ChangeFilter` and `should_skip_analysis`). These
  cover test, README and documentation file detection by
  case-insensitive `re.match`, the list filters built on it, and the
  skip markers in a commit message. Modules `Patterns`, `Filters` and
  `FilterExamples`.
- **E-mail validation** (`EmailValidator` and `validate_github_email`):
  the address pattern on the stripped input, the error path and domain
  extraction. Modules `Email` and `EmailExamples`.
- **The analysis record** (`AIAnalyzer`): `should_update_readme`, the
  normalisation of a decoded response, and the two fallback records.
  Module `Analysis`.
- **The README updater** (`READMEUpdater`). It is modelled as a state
  machine over its two fields, the text and the ordered section map.
  Modules `Sections`, `Bullets` and `ReadmeUpdater` cover the following:
  - `_parse_sections` and `_find_section`.
  - The `re.sub` that removes feature bullets.
  - `_rebuild_content` and `_insert_after_preamble`.
  - Adding, updating and removing features, and updating configuration.
  - `update_changelog` and `update_from_analysis`.

  Each operation returns the next state and the Python boolean, or the
  `KeyError` the Python raises. A section whose heading has an empty
  title keeps a placeholder entry with only `line_start`. Reading a
  missing field of it raises.
- **Support modules.** `Results` (Option/Result) and `Strings` (ASCII
  lower-casing and stripping, splitting, joining, substring search).

`_rebuild_content` writes every section back at the line range recorded
when the map was parsed. The map is not parsed again after a section
grows, so the ranges go stale. The model keeps this behaviour:
`ReadmeUpdater.StaleRangeOverwrites` shows a gained line being
overwritten by the next section.

## Model

| member | source | states |
|---|---|---|
| `Patterns.EndPatternIsMatch` | filters.py:15-41 | A `.*LIT$` pattern accepts a path exactly when the path's first line, less one trailing line break, ends with the literal and has no line break. |
| `Patterns.PrefixEndPatternIsMatch` | filters.py:17 | `^test_.*\.py$` accepts exactly the line-free bodies that start with `test_`, end with `.py` and are long enough for both. |
| `Patterns.ExactPatternIsMatch` | filters.py:30-32 | `^readme\.md$` and its siblings accept exactly the literal, optionally followed by one line break. |
| `Patterns.InfixPatternIsMatch` | filters.py:22-23 | `.*/tests?/.*` and the other directory patterns accept exactly the paths whose first line contains the literal. |
| `Filters.IsTestFileIsMatch` | filters.py:15-50 | `is_test_file` holds exactly when one alternative of TEST_PATTERNS matches the lower-cased path. |
| `Filters.IsReadmeFileIsMatch` | filters.py:29-54 | `is_readme_file` holds exactly when one alternative of README_PATTERNS matches. |
| `Filters.IsDocFileIsMatch` | filters.py:38-58 | `is_doc_file` holds exactly when a `.md` suffix or a `doc`/`docs` directory matches. |
| `Filters.ClassificationIgnoresCase` | filters.py:44-46 | With IGNORECASE, lower-casing the path never changes any of the three classifications. |
| `Filters.FilterFiles` | filters.py:60-86 | The result keeps the input order. A path is in it exactly when it is an input path that the two flags do not exclude, and it appears as many times as in the input. With both flags off it is the input. |
| `Filters.FilterFilesIdempotent` | filters.py:60-86 | Filtering a filtered list again changes nothing. |
| `Filters.IsReadmeOnlyCommit` | filters.py:88-105 | True exactly when the list is non-empty and every path in it is a README. |
| `Filters.GetCodeFiles` | filters.py:107-132 | The result keeps the input order. A path is in it exactly when it is an input path that is neither a test, a README nor a documentation file, and it appears as many times as in the input. |
| `Filters.CodeFilesWithinFiltered` | filters.py:107-132 | The code files are an ordered sub-list of what `filter_files` keeps with both exclusions on. |
| `Filters.ShouldSkipAnalysis` | filters.py:135-152 | True exactly when the message contains one of the four markers, case-sensitively. |
| `FilterExamples.PrefixTestName` | filters.py:17 | `test_example.py` is a test file. |
| `FilterExamples.SuffixTestName` | filters.py:16 | `example_test.py` is a test file. |
| `FilterExamples.PlainModulesAreNotTests` | filters.py:15-26 | `example.py` is not a test file. |
| `FilterExamples.TopLevelTestsDirectoryIsNotTest` | filters.py:22 | `tests/test_utils.py` is not a test file: no `/` comes before `tests`, and the base name matches no suffix pattern. |
| `FilterExamples.UpperReadme` | filters.py:30 | `README.md` is a README regardless of case. |
| `FilterExamples.NestedReadme` | filters.py:33 | `docs/README.md` is a README. |
| `FilterExamples.NotAReadme` | filters.py:29-35 | `READTHIS.md` is not a README. |
| `FilterExamples.GitignoreIsCode` | filters.py:119-130 | `.gitignore` is kept by `get_code_files`. |
| `Email.IsAddressIsMatch` | email_validator.py:14-16 | The direct test agrees with `re.match` of the address pattern. That means a local part, `@`, a domain, a `.` and two or more letters, ending where `$` may match. |
| `Email.AddressOneAt` | email_validator.py:15 | An accepted address contains exactly one `@`. |
| `Email.IsValidStripInvariant` | email_validator.py:35-38 | Validity does not change when surrounding whitespace is stripped first. |
| `Email.ValidOneAt` | email_validator.py:35-38 | A valid input, padding included, holds exactly one `@`, and it is the first one. |
| `Email.ValidateOrRaise` | email_validator.py:41-59 | Succeeds exactly on valid input and returns the stripped, still valid address. Otherwise it fails with `Invalid email address: ` followed by the input. |
| `Email.ValidateOrRaiseIdempotent` | email_validator.py:41-59 | Validating the cleaned address again returns it unchanged. |
| `Email.ExtractDomain` | email_validator.py:62-82 | There is a domain exactly when the input is valid, and it is everything after the one `@`. |
| `Email.ExtractDomainSplits` | email_validator.py:76-80 | The domain holds no `@`, and the input is some local part, `@` and the domain. |
| `Email.ValidateGithubEmail` | email_validator.py:85-101 | True exactly when the address is valid: the domain list adds nothing, because every valid address contains `@`. |
| `EmailExamples.ExampleIsValid` | email_validator.py:30-31 | `user@example.com` is valid. |
| `EmailExamples.ExampleDomain` | email_validator.py:73-74 | The domain of `user@example.com` is `example.com`. |
| `EmailExamples.ExampleInvalid` | email_validator.py:32-33 | `invalid-email` is not valid. |
| `Analysis.ShouldUpdateReadme` | ai_analyzer.py:201-220 | With no significance given, or with one other than exactly `medium` or `high` (such as `low`, `Medium` or the empty string), the answer is yes exactly when a new, removed or configuration list is non-empty. The empty record never updates, and medium or high always does. |
| `Analysis.InsignificantLevelIsAbsent` | ai_analyzer.py:212-218 | Any level other than `medium` or `high` gives the same answer as no level at all. |
| `Analysis.ShouldUpdateReadmeIgnores` | ai_analyzer.py:212-218 | Only the new, removed and configuration lists and the significance matter. |
| `Analysis.ShouldUpdateReadmeMonotone` | ai_analyzer.py:212-220 | Adding new features never turns a yes into a no. |
| `Analysis.Normalise` | ai_analyzer.py:176-185 | Every list key is present and equals the decoded list, or is empty when missing. Documentation entries are the decoded ones or empty. Significance is the lower-cased decoded level, `medium` when missing. Summary is the decoded one or empty. No error key survives. |
| `Analysis.NormaliseIdempotent` | ai_analyzer.py:176-185 | Normalising a normalised record changes nothing. |
| `Analysis.MissingSignificanceUpdates` | ai_analyzer.py:183-218 | A response without a significance is normalised to `medium`, so the README is always updated. |
| `Analysis.NormaliseIgnoresCase` | ai_analyzer.py:183 | The case of the significance never changes the decision after normalisation. |
| `Analysis.NormalisePreservesDecision` | ai_analyzer.py:176-220 | For a lower-case significance, normalising does not change the decision. |
| `Analysis.RequestFailure` | ai_analyzer.py:76-85 | The request fallback carries the error, has empty lists and low significance. |
| `Analysis.ParseFailure` | ai_analyzer.py:187-199 | The parse fallback carries the parse error, has no configuration list and low significance. |
| `Analysis.FailuresNeverUpdate` | ai_analyzer.py:191-220 | Neither fallback ever asks for a README update. |
| `Sections.IsHeadingIsMatch` | readme_updater.py:51 | The direct heading test holds exactly when `^(#{1,6})\s+(.+)$` has a match. |
| `Sections.HeadingMatchParts` | readme_updater.py:51-65 | For any way the pattern matches, the level is the number of hashes, and the title is the stripped rest after the whitespace run. |
| `Sections.LooseHeadingCases` | readme_updater.py:303 | Every line `_parse_sections` takes as a heading is one `_insert_after_preamble` stops at. The converse fails only for a hash run followed by a single whitespace character. |
| `Sections.PutLookup` | readme_updater.py:69 | After `sections[key] = value`, reading the key gives the value. |
| `Sections.PutLookupOther` | readme_updater.py:56-69 | Assigning one key never changes what another key reads. |
| `Sections.Parse` | readme_updater.py:36-95 | No title appears twice. Every entry is either a closed range within the document or, for the empty title only, a placeholder that has just a start line. |
| `Sections.ParseIsClosed` | readme_updater.py:36-95 | When titles are distinct, non-empty and not `preamble`, the map is the reference. That is the preamble range, then each heading's level, joined body and range up to the line before the next heading. |
| `Sections.ClosedLookup` | readme_updater.py:36-95 | With distinct, non-empty titles other than `preamble`, each heading's title maps to its level and the body up to the next heading. |
| `Sections.FindFrom` | readme_updater.py:289-295 | It finds the first candidate, in priority order, that matches some key, and the first key in map order that it matches. No earlier candidate matches any key. |
| `Sections.FindSectionSpec` | readme_updater.py:289-295 | Nothing is found exactly when no candidate is a case-insensitive substring of any title. What is found is matched by some candidate. |
| `Bullets.MatchAtSound` | readme_updater.py:232-233 | Where `MatchAt` reports a match of `^\s*[-*+]\s+.*F.*$`, the pattern really matches there, part by part, ending at the end of the line. |
| `Bullets.MatchAtComplete` | readme_updater.py:232-233 | Wherever the pattern can match from a position, `MatchAt` reports a match there. The match covers the whole line of the feature text. |
| `Bullets.SubUnchangedIff` | readme_updater.py:233 | `re.sub` leaves the text unchanged exactly when no line start begins a match. Otherwise the text gets shorter. |
| `Bullets.RemoveAllUnchangedIff` | readme_updater.py:229-235 | Deleting the matches of every feature in turn leaves the text unchanged exactly when no feature has a match in it. |
| `ReadmeUpdater.Load` | readme_updater.py:21-34 | A file that is present gives its text and its parsed map, with distinct settled entries. A missing file gives the empty text and an empty map. |
| `ReadmeUpdater.Splice` | readme_updater.py:334 | For an in-range slice, the assignment puts the new lines between the kept prefix and the kept suffix. |
| `ReadmeUpdater.SpliceSame` | readme_updater.py:334 | Assigning a range its own lines changes nothing. |
| `ReadmeUpdater.Rebuild` | readme_updater.py:311-336 | A rebuild never changes the map. |
| `ReadmeUpdater.RebuildFails` | readme_updater.py:311-336 | A rebuild raises exactly when some section other than the preamble is a placeholder, which has no `line_end`. |
| `ReadmeUpdater.RebuildParsed` | readme_updater.py:311-336 | Rebuilding the freshly parsed map of a text whose headings are written canonically gives the text back. |
| `ReadmeUpdater.StaleRangeOverwrites` | readme_updater.py:328-334 | After one section gains a line, the next section is written over its old range. The gained line is lost and the next section's last line is duplicated. |
| `ReadmeUpdater.FirstLoose` | readme_updater.py:302-303 | Finds the first line matching `^#{1,6}\s+`. No earlier line matches, and nothing is found only when no line matches. |
| `ReadmeUpdater.InsertAfterPreambleText` | readme_updater.py:297-309 | The block and a line break go in at the start of the first heading line, with all of the text kept around them. With no heading, the text gets a line break and the block at the end. |
| `ReadmeUpdater.FreshSpec` | readme_updater.py:198-201 | The items bulleted are exactly the listed items that the old section does not already mention, case-insensitively. |
| `ReadmeUpdater.AppendItemsShape` | readme_updater.py:194-201 | The new content is the old one stripped of trailing whitespace, one line break, and a bullet per fresh item. The `endswith` test never fires. |
| `ReadmeUpdater.AppendItemsMentions` | readme_updater.py:194-201 | Afterwards every item that ends in a visible character is mentioned, case-insensitively. |
| `ReadmeUpdater.AppendItemsUnchanged` | readme_updater.py:262-270 | The content is unchanged exactly when no item is fresh and the old content already ends in exactly one line break after stripping. |
| `ReadmeUpdater.FoundNameNonEmpty` | readme_updater.py:187-189 | A found section always has a non-empty name, so the truth test on it matches "found". |
| `ReadmeUpdater.AddFeatures` | readme_updater.py:181-215 | No features means no change and no flag. Otherwise every successful run reports a change. |
| `ReadmeUpdater.AddFeaturesExtends` | readme_updater.py:189-214 | With a features section found, that section's content becomes the extended content and every other entry reads the same. The text is the rebuild of the new map. |
| `ReadmeUpdater.AddFeaturesMentions` | readme_updater.py:198-203 | Afterwards the found section mentions every feature that ends in a visible character. |
| `ReadmeUpdater.AddFeaturesCreates` | readme_updater.py:204-214 | With no features section, and when the rebuild reproduces the new text, a change is reported. The README becomes the old text with the `## Features` block and its bullets put in before the first heading line. |
| `ReadmeUpdater.AddFeaturesCreatesSection` | readme_updater.py:204-214 | With no features section, a change is reported. The re-parsed map then has a level-2 `Features` section that holds the bullet of every feature. |
| `ReadmeUpdater.NewSectionText` | readme_updater.py:204-214 | When the rebuild reproduces the text with the block inserted, creating a section succeeds and the README is exactly that text. |
| `ReadmeUpdater.NewSectionEntry` | readme_updater.py:204-214 | When the new text's titles are distinct, creating a section succeeds. The title then maps to a level-2 section whose content opens with a blank line and the bullet list, so it holds every item's bullet. |
| `ReadmeUpdater.RewriteSpec` | readme_updater.py:203-214 | Rewriting a section sets its content, keeps every other entry, and rebuilds the text from the new map. |
| `ReadmeUpdater.UpdateFeatures` | readme_updater.py:244-248 | Updating features has the same outcome as adding them. |
| `ReadmeUpdater.UpdateConfiguration` | readme_updater.py:250-253 | No updates means no change and no flag. |
| `ReadmeUpdater.Reconfigure` | readme_updater.py:258-274 | When the found section's content would not change, the state is left exactly as it was. |
| `ReadmeUpdater.UpdateConfigurationFound` | readme_updater.py:258-274 | With a configuration section, a change is reported exactly when some update is fresh or the old content is not already stripped with one line break. |
| `ReadmeUpdater.UpdateConfigurationCreates` | readme_updater.py:275-285 | With no configuration section, every successful run reports a change. |
| `ReadmeUpdater.UpdateConfigurationCreatesText` | readme_updater.py:275-285 | With no configuration section, and when the rebuild reproduces the new text, the README becomes the old text with the `## Configuration` block and its bullets put in before the first heading line. |
| `ReadmeUpdater.UpdateConfigurationCreatesSection` | readme_updater.py:275-285 | With no configuration section, the re-parsed map has a level-2 `Configuration` section that holds the bullet of every update. |
| `ReadmeUpdater.SweepSpec` | readme_updater.py:225-237 | The loop over all sections, preamble included, raises exactly when a placeholder is met. Otherwise it sweeps every entry and keeps the map's length and order. |
| `ReadmeUpdater.RemoveFeatures` | readme_updater.py:217-242 | No features means no change. A run that reports no change leaves the state as it was. |
| `ReadmeUpdater.RemoveFeaturesSpec` | readme_updater.py:217-242 | Removal raises exactly when the map holds a placeholder. Otherwise it reports a change exactly when some section has a bullet line mentioning a feature, and the new map is the swept one. |
| `ReadmeUpdater.ChangelogEntryLists` | readme_updater.py:115-139 | The entry holds a `- item` bullet line for every item of each of the four lists. |
| `ReadmeUpdater.UpdateChangelog` | readme_updater.py:97-149 | A change is reported exactly when some list is non-empty, and the map is never touched. Without the header, the entry is appended to the text. |
| `ReadmeUpdater.UpdateChangelogOneHeader` | readme_updater.py:141-146 | With exactly one header, the entry sits right after it and the rest of the text is kept around it. |
| `ReadmeUpdater.InsertEntryOneHeader` | readme_updater.py:143-145 | With at most one header, the split placement equals inserting after the first header. |
| `ReadmeUpdater.InsertEntryLosesText` | readme_updater.py:143-145 | With a second header, the split placement is shorter than the text and the entry together, so text is lost. |
| `ReadmeUpdater.InsertAfterKeeps` | readme_updater.py:141-145 | The corrected placement only adds the entry. Removing the entry gives the text back, and the entry directly follows the first header. |
| `ReadmeUpdater.UpdateChangelogAfterFirst` | readme_updater.py:141-148 | The corrected changelog update reports the same flag, keeps the map, and grows the text by exactly the entry. |
| `ReadmeUpdater.Run` | readme_updater.py:163-177 | A step with an empty list does nothing. Adding or updating features that gets through always reports a change. |
| `ReadmeUpdater.RunFrom` | readme_updater.py:160-179 | The or-ed flag never goes back to false, and a run reporting no change leaves the state as it was. |
| `ReadmeUpdater.UpdateFromAnalysis` | readme_updater.py:151-179 | A run reporting no change leaves the state as it was. |
| `ReadmeUpdater.UpdateFromAnalysisQuiet` | readme_updater.py:160-179 | With all four lists empty, the state is left alone and no change is reported. |
| `ReadmeUpdater.UpdateFromAnalysisReports` | readme_updater.py:163-172 | New or modified features always make a successful run report a change. |
| `ReadmeUpdater.UpdateFromAnalysisIgnores` | readme_updater.py:163-177 | Only the four lists are read. Significance, summary, documentation entries and error keys make no difference. |

## Code and tests disagree

Where the code and its tests disagree, the model follows the code:

- tests/test_filters.py:20 expects `tests/test_utils.py` to be a test file. The pattern `.*/tests?/.*` (filters.py:22) needs a `/` before `tests`, so a top-level `tests/` directory is not recognised. See `FilterExamples.TopLevelTestsDirectoryIsNotTest`.
- tests/test_filters.py:82 expects `.gitignore` to be dropped by `get_code_files`. No pattern matches it, and filters.py:128 says config files are wanted. See `FilterExamples.GitignoreIsCode`.
- tests/test_readme_updater.py:77 expects both added features in the text. The Features section of the sample README grows by two lines. `Installation` is then written back over its parsed range, which by then holds `- Another cool feature`, so that line is overwritten. `ReadmeUpdater.StaleRangeOverwrites` states the mechanism on a small map.

## Left out

- Reading and writing the README file (readme_updater.py:25-31, 338-341) are left out. `Load` takes the file's text, or `None` for a missing file, and the new text is the `content` of the returned state.
- `get_diff_preview` (readme_updater.py:343-366) is left out: it formats output through `difflib` and changes no state.
- The clock (readme_updater.py:112-113) is not modelled. The date of a changelog entry is a parameter.
- The Groq client is not modelled: the API key and the request (ai_analyzer.py:14-75), the prompt text, the JSON extraction and decoding (ai_analyzer.py:160-174) and the printing. What a decoded response becomes is modelled by `Normalise`. The two failure paths are modelled by `RequestFailure` and `ParseFailure`.
- analyzer.py, setup.py, the verify scripts and the tests are not part of this model.
- Unicode is not modelled. Lower-casing, `strip`/`rstrip` and `\s` use the ASCII sets. Paths and addresses are compared as sequences of characters.
- Types are modelled only for well-typed input. The analysis dict's values are assumed to have their documented types: a key that is present with a non-list value is not modelled. The `isinstance` test in `is_valid` always holds, because inputs are strings.
- A `KeyError` loses the state. Python leaves the half-updated object behind when a `KeyError` interrupts an update; the model returns only the error.
- `Sections.ParseIsClosed`: the closed-form description covers only documents whose heading titles are distinct, non-empty and not `preamble`. `Sections.Parse` itself handles every document.
- `ReadmeUpdater.RebuildParsed`: states the identity only for canonical texts. There, titles are distinct, non-empty and not `preamble`. Every heading is written as `#`×level, one space and the title. Every heading is followed by a line that is not a heading. A rebuild does not restore other texts. Other heading spellings are normalised. A heading with no body line after it gets an empty line added: `# T` becomes `# T\n`, because the empty content splits to `['']` (readme_updater.py:331-334).
- `ReadmeUpdater.AddFeaturesCreates`: states the new README text only when the rebuild reproduces it, the canonical case above.
- `ReadmeUpdater.UpdateConfigurationCreatesText`: states the new README text only when the rebuild reproduces it, the canonical case above.
- `ReadmeUpdater.NewSectionText`: states the new README text only when the rebuild reproduces it, the canonical case above.
- `ReadmeUpdater.NewSectionEntry`: states the new section only when the new text's titles are distinct, non-empty and not `preamble`, and the items hold no line break. An item with a line break can start a heading of its own, which then cuts the section short.
- `ReadmeUpdater.AddFeaturesCreatesSection`: carries the same two conditions as `ReadmeUpdater.NewSectionEntry`.
- `ReadmeUpdater.UpdateConfigurationCreatesSection`: carries the same two conditions as `ReadmeUpdater.NewSectionEntry`.
- `ReadmeUpdater.UpdateChangelog`: `version` has no default. Python's default `"Unreleased"` (readme_updater.py:97) is passed in explicitly.
- `ReadmeUpdater.RemoveFeaturesSpec`: states when removal reports a change and what map it leaves. It does not state that no bullet mentioning a feature remains afterwards; that property is not proved.
- `ReadmeUpdater.ChangelogEntryLists`: states that every bullet line is present in the entry, not the order of the four blocks.

## Findings

| source | as written | input that shows it | evidently intended | confidence | as-written member | corrected member |
|---|---|---|---|---|---|---|
| readme_updater.py:143-145 | `parts = self.content.split(latest_updates_header)` and then `parts[0] + header + entry + parts[1]`, which drops every piece after the second | a README holding `## Latest Updates` twice, such as `## Latest Updates\nA\n## Latest Updates\nB`: the result ends after `\nA\n`, losing the second header and `B` | the entry inserted after the first header with everything else kept, as the comment at readme_updater.py:141 says (`split(header, 1)`) | not executed | `ReadmeUpdater.InsertEntryLosesText` | `ReadmeUpdater.InsertAfterKeeps` |
