# changelog-generator, modelled in Dafny

The changelog generator is a small release helper with two jobs:

- It decides whether a pull request may be merged. The CI gate passes when the
  pull request carries exactly one recognised `changelog/...` label.
- It writes a Markdown changelog from the history of the main branch:
  - it walks the commits newest first, stopping at a given start commit;
  - it recovers the pull request's number and title from each commit message;
  - it labels each such entry with the pull request's first recognised label;
  - it renders one section per category, in the order of the category table.

This project models that core (`src/main.py` without its I/O) and proves what
it does. The modules follow the program's parts:

| file | module | what it holds |
|---|---|---|
| `options.dfy` | `Options` | the `Option` datatype |
| `tables.dfy` | `Tables` | the recognised labels; Python dicts as ordered association lists; the category map |
| `message_parser.dfy` | `MessageParser` | the merge and squash message matchers, written out as functions, with `get_pr_number` |
| `labels.dfy` | `Labels` | the label picker `get_changelog_label` and the CI gate `ci_pr`, both as loops |
| `history_walker.dfy` | `HistoryWalker` | the commit walk `_get_changelog_entries`, as a loop |
| `changelog.dfy` | `Changelog` | the two rendering loops of `run_changelog_generation` and the generation run |

The repository client appears as two inputs:

- the commits, newest first, as a sequence of `(sha, message)` pairs;
- a function from pull-request number to that pull request's label names.

Each loop is a method proved against a function that specifies it. The
properties the program promises are proved about those functions, as lemmas.
Two loops have a helper of their own:

- The walk's per-commit step is the method `HistoryWalker.ProcessCommit`.
- The two rendering loops are the method `Changelog.RenderSections`, which
  works over any category table, with the inner loop in
  `Changelog.CollectCategory`. `Changelog.RenderChangelog` calls it with the
  category map.

### Behaviour of the code worth knowing

- The changelog generator picks the first recognised label (`get_changelog_label`,
  lines 54-66). It does not require exactly one. Only the CI gate counts.
  `Labels.FirstMatchNotStrict` shows a pull request with two recognised labels
  that still gets the first one.
- `CHANGELOG_CATEGORIES` has the key `changelog/feature` twice. A Python dict
  literal keeps the first position and the last value, so the heading is
  "Feature", not "Features". `Tables.CategoriesFromLiteral` derives this from
  the literal.
- Line 29 of the literal (a bare key without a value) is not valid Python. The
  model builds the map from lines 23-28.
- A failed pull-request lookup is not caught in the code. The model takes the
  label lookup as a total function.
- `#0` and leading zeros are accepted as pull-request numbers (`int("007")` is 7).
- The merge pattern's title is a single line: `.*` stops at a line feed and `$`
  admits at most one final line feed (`MessageParser.MergeRejectsBody`).

## Model

| member | source | states |
|---|---|---|
| Tables.IsRecognised | src/main.py:62 | `label in CHANGELOG_LABELS`, membership in the label list; its meaning is given by Tables.RecognisedLabels |
| Tables.RecognisedLabels | src/main.py:11-20 | a label is recognised exactly when it is one of the seven distinct strings of the list (`changelog/feature` is listed twice) |
| Tables.DictSet | src/main.py:22-28 | `d[k] = v` on a dict held as an ordered list of pairs; its meaning is given by Tables.DictSetKeys, Tables.DictSetLookup, Tables.DictSetPresent and Tables.DictSetAbsent |
| Tables.DictFromPairs | src/main.py:22-28 | a dict literal, built by inserting its pairs left to right; its meaning is given by Tables.DictFromPairsSound, Tables.DictFromDistinctPairs and Tables.RepeatedLastKey |
| Tables.DictSetKeys | src/main.py:22-30 | `d[k] = v` keeps the keys when `k` is present and appends `k` when it is absent |
| Tables.DictSetLookup | src/main.py:22-30 | after `d[k] = v`, `k` looks up `v` and every other key looks up what it did before |
| Tables.DictSetPresent | src/main.py:22-30 | in a dict without repeated keys, setting a present key overwrites its pair in place |
| Tables.DictSetAbsent | src/main.py:22-30 | setting an absent key appends the pair at the end |
| Tables.DictFromPairsSound | src/main.py:22-30 | a dict literal's keys are the first occurrences of its keys, in order, and each lookup gives the value of the key's last occurrence |
| Tables.DictFromDistinctPairs | src/main.py:22-28 | a literal without repeated keys builds the dict of exactly its pairs, in their order |
| Tables.RepeatedLastKey | src/main.py:22-28 | a literal whose last key repeats an earlier one, and no other repetition, gives the other pairs with the earlier pair replaced by the last |
| Tables.CategoriesFromLiteral | src/main.py:22-28 | the category literal builds the five-pair map breaking, enhancement, feature ("Feature"), bugfix, internal, in this order |
| Tables.CategoryKeys | src/main.py:22-30 | the map's keys, in `.items()` order, without repetition |
| Tables.CategoryLabelsRecognised | src/main.py:11-30 | every label with a category is a recognised label |
| Tables.UncategorisedLabels | src/main.py:11-30 | `changelog/ignore` and `changelog/security` are recognised but have no category |
| Tables.Lookup | src/main.py:22-30 | a lookup fails exactly when the key is absent |
| MessageParser.Span | src/main.py:34-44 | a greedy `p*` consumes the longest prefix of characters satisfying `p` |
| MessageParser.DecimalValue | src/main.py:168 | `int()` of a string of decimal digits (also at line 75); Python's digit-count limit is not modelled (see "## Left out"); leading zeros are covered by MessageParser.LeadingZero |
| MessageParser.MatchMerge | src/main.py:34-36 | `MERGE_MSG_REGEX.match`, giving the number and the title; its meaning is given by MessageParser.MergeComplete, MessageParser.MergeSound and MessageParser.MergeNoneIff |
| MessageParser.MergeComplete | src/main.py:34-36 | every message `Merge pull request #<digits> from <non-space>\n\n<one line>[\n]` is matched, with the decimal value of the digits and the title |
| MessageParser.MergeSound | src/main.py:34-36 | every message the merge matcher accepts has that shape, and the match carries its number and title |
| MessageParser.MergeNoneIff | src/main.py:34-36 | the merge matcher fails exactly on the messages not of the merge shape |
| MessageParser.MergeRejectsBody | src/main.py:34-36 | a title followed by further lines is not a merge match |
| MessageParser.LeadingZero | src/main.py:75 | leading zeros do not change the number |
| MessageParser.FirstLine | src/main.py:38-40 | the first line is a prefix without line feeds that ends at the message's end or at its first line feed |
| MessageParser.MatchSquash | src/main.py:42-44 | no match exactly when no ` (#<digits>)` occurs; otherwise the title is everything before the last occurrence, and the number is that occurrence's digits |
| MessageParser.SquashComplete | src/main.py:42-44 | `<title> (#<digits>)<rest>` with no later marker in the rest is matched with that title and number |
| MessageParser.SquashSound | src/main.py:42-44 | every accepted line is the title, a marker and a rest without a marker |
| MessageParser.SquashNeedsSpaceParen | src/main.py:42-44 | a line with no space followed by `(` is never a squash match |
| MessageParser.SquashNoSpaceExample | src/main.py:42-44 | "Fix(#5)" yields no reference: the space before `(#` is required |
| MessageParser.SquashEmptyTitleExample | src/main.py:42-44 | " (#5)" yields 5 with an empty title: the title group may match nothing |
| MessageParser.SquashLastMarkerExample | src/main.py:42-44 | with two markers the greedy title runs up to the last one: "Fix (#1) thing (#22) x" gives 22 and "Fix (#1) thing" |
| MessageParser.ParseMessage | src/main.py:157-165 | the merge pattern on the whole message, else the squash pattern on its first line; its meaning is given by MessageParser.SquashOnlyFirstLine, MessageParser.OneLineNotMerge and MessageParser.MergeBeforeSquashExample |
| MessageParser.SquashOnlyFirstLine | src/main.py:158-165 | when the merge pattern fails, only the first line decides the result |
| MessageParser.OneLineNeverMerge | src/main.py:34-36 | no message without a line feed matches the merge pattern, which needs `\n\n` after the branch reference |
| MessageParser.OneLineNotMerge | src/main.py:158-165 | every one-line message, including one that starts like a merge header, is decided by the squash pattern alone |
| MessageParser.MergeBeforeSquashExample | src/main.py:158-165 | the merge pattern is tried first, even where the first line also holds a squash marker |
| MessageParser.MergeExample | src/main.py:34-36 | "Merge pull request #482 from org/b\n\nAdd widget" gives 482 and "Add widget" |
| MessageParser.SquashExample | src/main.py:42-44 | "Add widget (#482)" gives 482 and "Add widget" |
| MessageParser.UnrelatedExample | src/main.py:158-167 | a message of neither shape yields no pull request |
| MessageParser.GetPrNumber | src/main.py:69-75 | `get_pr_number` fails exactly when the merge pattern fails; otherwise it gives the merge match's number |
| MessageParser.GetPrNumberOfMerge | src/main.py:69-75 | on a merge message it gives the decimal value of the embedded digits |
| Labels.FirstRecognised | src/main.py:54-66 | None exactly when no label is recognised; otherwise a recognised label of the pull request |
| Labels.FirstRecognisedAt | src/main.py:54-66 | when the label at position `i` is recognised and none before it is, the picker returns that label |
| Labels.GetChangelogLabel | src/main.py:54-66 | the loop returns the label at the first recognised position, or None when there is none |
| Labels.CountRecognised | src/main.py:92-97 | the count is 0 exactly when no label is recognised |
| Labels.CiPr | src/main.py:87-108 | passes exactly when one label is recognised; fails with the "more than one" message exactly when more are, and with the "no matching" message exactly when none is |
| Labels.SingleRecognised | src/main.py:87-108 | when the gate passes, the picker returns the only recognised label |
| Labels.FirstMatchNotStrict | src/main.py:54-66 | with recognised labels at any two positions `i < j`, and none before `i`, the count is at least two and the picker still returns the label at `i` |
| Labels.GateExamples | src/main.py:87-108 | one, zero and two recognised labels counted |
| HistoryWalker.EntryFor | src/main.py:167-175 | the entry of one commit: None when no pattern matches, else the first recognised label of the pull request and its title; the entries of a history are given meaning by HistoryWalker.CollectLength and HistoryWalker.CollectAt |
| HistoryWalker.Until | src/main.py:153-155 | the walked commits are a prefix of the history, none of them is the start commit, and the walk stops at the start commit |
| HistoryWalker.UntilStopsAt | src/main.py:153-155 | the start commit and everything older are not walked |
| HistoryWalker.UntilAbsent | src/main.py:153-155 | without the start commit the whole history is walked |
| HistoryWalker.CollectAppend | src/main.py:150-177 | the entries of a concatenation of commits are the concatenation of their entries |
| HistoryWalker.CollectLength | src/main.py:150-177 | exactly one entry per commit whose message names a pull request, whether or not it has a recognised label |
| HistoryWalker.CollectAt | src/main.py:150-177 | each such commit's entry sits at the position counted by the parseable commits before it |
| HistoryWalker.CollectLabelsRecognised | src/main.py:170-175 | every entry's label is a recognised label or None |
| HistoryWalker.ProcessCommit | src/main.py:157-175 | one commit's step: the merge pattern on the message, else the squash pattern on its first line, then the picker on that pull request's labels |
| HistoryWalker.GetChangelogEntries | src/main.py:150-177 | the loop returns the entries collected from the commits before the start commit, in commit order |
| Changelog.Heading | src/main.py:192 | the section heading `"\n#### " + category + "\n\n"`, the text the example in Changelog.RenderedExample shows |
| Changelog.Bullet | src/main.py:198 | the bullet `"- " + title + "\n"` of one entry, placed by Changelog.BulletsAt |
| Changelog.Matches | src/main.py:195 | `label == entry["label"]`: only an entry whose label is present and equal to the key matches |
| Changelog.Rendered | src/main.py:190-201 | the changelog text of a list of entries over the category map; its meaning is given by Changelog.RenderedInTableOrder, Changelog.RenderedEmptyIff, Changelog.RenderedDropsUncategorised and Changelog.RenderedExample |
| Changelog.BulletsAppend | src/main.py:194-198 | the bullets of a category keep the entries' relative order |
| Changelog.BulletsAt | src/main.py:194-198 | every entry with the category's label yields its bullet, between those of the earlier and the later entries |
| Changelog.BulletsEmptyIff | src/main.py:194-198 | a category has bullets exactly when some entry carries its label |
| Changelog.KeepLabelled | src/main.py:194-195 | keeps exactly the entries whose label is one of the given names, and never more entries than given |
| Changelog.RenderCategoriesEmptyIff | src/main.py:188-201 | nothing is rendered exactly when none of the rendered categories has an entry |
| Changelog.RenderedEmptyIff | src/main.py:188-201 | the changelog is empty exactly when no entry has a label with a category |
| Changelog.RenderedDropsUncategorised | src/main.py:188-201 | dropping the entries without a label, and those whose label has no category, leaves the changelog unchanged |
| Changelog.RenderedInTableOrder | src/main.py:188-201 | the sections come in the order of the category table, whatever the order of the entries |
| Changelog.RenderedExample | src/main.py:188-201 | entries bugfix "Fix X", feature "Add Y" and unlabelled "Untitled" render as "\n#### Feature\n\n- Add Y\n\n#### Fixed\n\n- Fix X\n" |
| Changelog.SectionOfOne | src/main.py:190-201 | a category with one matching entry renders as its heading and that entry's bullet |
| Changelog.CollectCategory | src/main.py:191-198 | the inner loop reports whether some entry carries the category's label, and returns the heading followed by those entries' bullets in entry order |
| Changelog.RenderSections | src/main.py:190-201 | the nested loops return every category's heading and bullets, in table order, skipping the categories without entries |
| Changelog.RenderChangelog | src/main.py:188-201 | the loops over `CHANGELOG_CATEGORIES` return the changelog text of the entries |
| Changelog.RunChangelogGeneration | src/main.py:180-203 | the generation run's output is the rendering of the entries collected from the walked commits |

## Left out

- Argument parsing, `run_ci` and the `__main__` block (lines 111-147 and 206-217) are not part of this model. They read flags and the environment and exit with a status code. `Labels.CiPr` models the gate's decision.
- The GitHub client is not part of this model: the access token, `get_repo`, `get_commits`, `get_pull` and `get_pr_labels` (lines 47-51). Commits and labels are inputs instead.
- `get_commits` (lines 78-84) is left out. It only prints messages and returns an empty list.
- The `print` calls (lines 103, 107 and 203) are left out. The gate's two messages are carried in its `Fail` verdict, and the generation run returns its text.
- A pull-request lookup that raises an exception is left out. The label lookup is a total function.
- The commit history is a finite sequence. An unbounded or paginated stream is not modelled.
- DecimalValue: Python's limit of 4300 digits on converting a decimal string to an integer is not modelled. Every digit string converts, where `int()` at lines 75 and 168 raises `ValueError` on a longer one.
- `\d` is taken to be the ASCII digits. `\s` is taken to be the ASCII characters Python counts as whitespace (codes 9-13 and 28-32). Non-ASCII digits and whitespace are not modelled.
- The regular-expression engine itself is not modelled. Each pattern is a hand-written matcher with the same result, proved complete and sound against the shape it accepts.
- Line 29 of `CHANGELOG_CATEGORIES` is left out. It is a bare key with no value, which Python rejects.
