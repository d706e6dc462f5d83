# uomreqs in Dafny

A model of the three working parts of uomreqs, a tool that turns the
University of Melbourne handbook's subject pages into a prerequisite graph.

- **The section splitter** (`scrape/scrape.py`). It walks the children of a
  requirements panel and cuts them into sections at each `h3` heading. Tables
  become lists of subject codes, lists become the texts of their items, and
  other elements become their text. A `div` ends the walk. Headings are mapped
  to short keys (`prereqs`, `coreqs`, `antireqs`, `addreqs`, `inherent`,
  `background`), and boilerplate lines are removed from `inherent`. Module
  `Requisites` models it.
- **The constraint extractor** (`scrape/parse.py`). For every line of
  `prereqs`, `coreqs` and `antireqs` it finds the subject codes the line
  names, drops the subject's own code, and applies four regular-expression
  matchers in order: course, points, year-level units and major. The cues
  "one of" and "may be taken concurrently" set the quantity and the
  concurrency of the next SUBJECTS constraint. Code tables are cleaned, and
  `addreqs` becomes one ADDITIONAL constraint. Modules `ParseMatch` and
  `ParsePrereqs` model it.
- **The prerequisite graph** (`main.js`). `build_nodes` interns one node per
  subject and links each subject to the options of its non-negative SUBJECTS
  constraints. `accessible_from` and `build_tree` search the graph
  breadth-first from a root, using each node's `visited` mark. The unreached
  nodes are scrubbed, and `build_tree` keeps only the edges along which each
  node was first reached. `nodes_to_d3_graph` lists the links by position.
  Modules `Graph`, `Search`, `Tree` and `Draw` model it, on `Node` and `Nodes`
  classes whose fields the methods update in place.

The regular expressions are modelled by their meaning rather than by a regex
engine:

- `re.search` returns the leftmost match, and at that start the longest
  greedy run whose lookahead holds.
- Lookbehinds and lookaheads are predicates on positions.
- `re.IGNORECASE` folds ASCII letters. The exception is `[a-zA-Z]` in the
  subject-code pattern, which also matches U+0130, U+0131, U+017F and
  U+212A, as Python does (`ParsePrereqs.CodeLetter`).
- `$` matches at the end of the string or just before a final newline.
- `\w` and `\d` are the ASCII classes.

Each algorithm with a loop is a method proved equal to a fold. The
properties are then proved about that fold:

- `CleanSubjList` is proved equal to `CleanedList`.
- `ParsePrereqInfo` is proved equal to `PrereqInfoWith`.
- `ParseRequisitesElement` is proved equal to `RequisitesInfo`.
- `BuildNodes` is proved to represent `GraphOf`.
- `build_tree`'s breadth-first search is proved equal to `Rounds`, a
  search on names.
- `accessible_from`'s search is proved to keep exactly the reachable
  nodes: it sees only reachable names (`Sound`) and stops closed under
  successors (`Done`, `Finished`).

Exceptions that escape the code are values of an `Error` datatype:
`KeyError`, `TypeError` and `IndexError`.

Where a prose description of the system and the code disagree, the model
follows the code:

- `clean_subj_list` keeps every entry of exactly 7 characters. Any other
  entry is replaced by the first 9-character code (4 letters, 5 digits) it
  contains, and the replacement goes to the end of the list.
- Tables are never searched for the subject's own code.
- The "one of" cue is read in `antireqs` as well.

The lemmas `CleanedKeepsSevens`, `TableKeepsOwnCode` and `AntireqsOneOf`
state this behaviour.

`ParsePrereqInfo` runs the code's own matchers, `MatchersAsWritten`: the
course matcher with the fused prefix and the major matcher with the trimmed
lookahead. `Matchers` is the same list with the corrected matchers of the
Findings, and `PrereqInfoWith(Matchers, subj)` is the extractor they give.
Every lemma about the extractor takes the matchers as a parameter, and the
two `...Typed` lemmas show that both lists meet its precondition.

## Model

| member | source | states |
|---|---|---|
| ParseMatch.MinLen | scrape/parse.py:9 | the minimum is no longer than any option |
| ParseMatch.MinLenAttained | scrape/parse.py:9 | some option has exactly the minimum length |
| ParseMatch.Alternatives | scrape/parse.py:8-10 | each alternative is the last `MinLen` characters of its option, so all have the same length, in option order |
| ParseMatch.MinLenAnyStr | scrape/parse.py:8-10 | the joined pattern has the length of the options' equal-length tails plus the dividers |
| ParseMatch.AlternativesAgree | scrape/parse.py:8-10 | when no option is empty, the code's `o[-l:]` tails and the intended tails are the same |
| ParseMatch.RunEnd | scrape/parse.py:4 | the greedy run of `RE_ANY` characters from a position ends at the first character outside the class |
| ParseMatch.LastEnd | scrape/parse.py:19-20 | the end chosen is the last position in range where the lookahead holds, or none holds |
| ParseMatch.SearchFrom | scrape/parse.py:22-26 | the match found is a match, no match starts earlier, and none at that start is longer; none found means no match at all |
| ParseMatch.Search | scrape/parse.py:22-26 | `re.search` returns the leftmost-longest match, and None exactly when the pattern matches nowhere |
| ParseMatch.LeftmostLongestUnique | scrape/parse.py:22-26 | the leftmost-longest match is unique |
| ParseMatch.SearchFinds | scrape/parse.py:22-26 | a match with no lookbehind hit before it and no lookahead hit after it is the one returned |
| ParseMatch.CutSuffix | scrape/parse.py:31-37 | the result is a prefix of the match; if shorter, a suffix option follows it in the match, and no earlier cut point exists |
| ParseMatch.CutOneSuffix | scrape/parse.py:133-138 | with one suffix, the suffix is removed exactly when the text ends with it, ignoring case |
| ParseMatch.MatchClean | scrape/parse.py:22-37 | None exactly when nothing matches; otherwise the leftmost-longest match with its suffix removed |
| ParseMatch.MatchPrefCleanSuffAsWritten | scrape/parse.py:12-37 | a result exists exactly when some span matches the code's pattern, whose lookahead uses only the shortest suffix tail; the result is the leftmost-longest such span with its suffix cut |
| ParseMatch.MatchPrefCleanSuff | scrape/parse.py:12-37 | a result exists exactly when some span matches; the result is the leftmost-longest match with its suffix cut |
| ParseMatch.MatchPrefCleanSuffAgree | scrape/parse.py:19 | when all suffixes have one length, the code's lookahead and the intended one give the same result |
| ParseMatch.AlternativesOfOneLength | scrape/parse.py:8-10 | options of one length are their own alternatives |
| ParseMatch.ParseMajorRequirementAsWritten | scrape/parse.py:39-55 | a MAJOR result exists exactly when a span lies between the trimmed prefixes and the trimmed lookahead `or within the` / ` major of the`; its name is the leftmost-longest such span with a major suffix cut |
| ParseMatch.ParseMajorRequirement | scrape/parse.py:39-55 | a MAJOR result exists exactly when a span lies between a prefix and a full suffix; its name is the leftmost-longest such span with the suffix removed |
| ParseMatch.DegreePrefixesOfTypes | scrape/parse.py:77-86 | the separator lookahead is the first six letters of the seven degree types |
| ParseMatch.SepLen | scrape/parse.py:89 | a separator is ` or ` or `, ` before a degree prefix, and lies inside the text |
| ParseMatch.SplitRejoin | scrape/parse.py:88-92 | `re.split` pieces interleaved with the separators rebuild the text; every separator is ` or ` or `, `; no piece holds a separator |
| ParseMatch.ParseCourseRequirementAsWritten | scrape/parse.py:57-94 | a COURSE result exists exactly when a span follows one of the code's five prefixes (one fused) and ends at a full stop or the end; its courses are the stripped split pieces of the leftmost-longest such span with its suffix cut |
| ParseMatch.ParseCourseRequirement | scrape/parse.py:57-94 | a COURSE result exists exactly when a span follows one of the six prefixes; its courses are the stripped pieces of the cleaned match |
| ParseMatch.PointsNumber | scrape/parse.py:98 | the captured number is a non-empty run of digits |
| ParseMatch.DigitRunEnd | scrape/parse.py:98 | `[\d]+` takes every digit from its start |
| ParseMatch.FirstPointsFrom | scrape/parse.py:97-101 | the first position where the points clause matches, or none |
| ParseMatch.ParsePointsRequirement | scrape/parse.py:96-103 | a POINTS result exists exactly when "must be in the last/final N" occurs; scope FINAL and N from the first occurrence |
| ParseMatch.PointsIgnoreCase | scrape/parse.py:100 | the points matcher gives the same result on the lower-cased line |
| ParseMatch.WordRunEnd | scrape/parse.py:107 | `\w+` takes every word character from its start |
| ParseMatch.FieldWordEnd | scrape/parse.py:107-108 | the count word is followed by a space, a digit, `nd`/`rd`/`th` and " year units in " |
| ParseMatch.FirstFieldFrom | scrape/parse.py:106-110 | the first position where the year-level clause matches, or none |
| ParseMatch.NumberWordNames | scrape/parse.py:115-127 | the number words are exactly "one" to "ten" and map to 1 to 10 |
| ParseMatch.DigitValue | scrape/parse.py:132 | `int` of one digit is 0 to 9 |
| ParseMatch.ParseSubjectRequirement | scrape/parse.py:105-140 | no clause gives None; the first clause decides: a word from one..ten gives FIELD with that count, the clause's year digit and its fields less ", or equivalent", any other word gives None |
| ParsePrereqs.FirstCodeFrom | scrape/parse.py:149 | the first position of a case-sensitive code from a point, or none |
| ParsePrereqs.FirstCode | scrape/parse.py:149-154 | None exactly when no code occurs; otherwise the code at the first position |
| ParsePrereqs.FirstCodeOfCode | scrape/parse.py:149 | a code searched in itself is found whole |
| ParsePrereqs.FindCodes | scrape/parse.py:180-184 | `re.findall` returns only codes, ignoring case |
| ParsePrereqs.FindCodesNext | scrape/parse.py:180-184 | `re.findall` returns every non-overlapping code in order of appearance: nothing iff no code starts at or after the scan position, otherwise the leftmost code followed by the codes after its end |
| ParsePrereqs.FindCodesJoin | scrape/parse.py:180-184 | codes joined by a separator without letters are found again, in order |
| ParsePrereqs.RemoveOwn | scrape/parse.py:185-186 | exactly one occurrence of the own code goes, when there is one; otherwise the list is unchanged |
| ParsePrereqs.RemoveOwnOrder | scrape/parse.py:186 | the first occurrence is the one removed, and the order is kept |
| ParsePrereqs.RemoveOwnOnce | scrape/parse.py:186 | a code listed twice stays in the list |
| ParsePrereqs.Keep7 | scrape/parse.py:146 | the entries kept in place all have 7 characters |
| ParsePrereqs.Non7 | scrape/parse.py:146-147 | the removals are the other entries, and the two parts cover the list |
| ParsePrereqs.CleanSubjList | scrape/parse.py:142-159 | the two loops leave the 7-character entries in order, followed by the codes found in the other entries |
| ParsePrereqs.CleanedListShape | scrape/parse.py:142-159 | cleaning never lengthens the list, and every entry has 7 characters or is a code |
| ParsePrereqs.CleanedKeepsSevens | scrape/parse.py:146 | every 7-character entry survives as often as it occurs; any other non-code entry is gone |
| ParsePrereqs.CleanedListOfCodes | scrape/parse.py:142-159 | a list of codes comes back unchanged |
| ParsePrereqs.RunMatchers | scrape/parse.py:191-199 | the constraints appended are the matchers' results that are not None, in order |
| ParsePrereqs.ParseLine | scrape/parse.py:179-220 | one text line's output and pending pair are those of the specification step |
| ParsePrereqs.ParseSection | scrape/parse.py:170-220 | the loop over one section's items computes its fold, an exception included |
| ParsePrereqs.ParsePrereqInfo | scrape/parse.py:161-225 | the whole extractor, with the code's own matchers, computes `PrereqInfoWith(MatchersAsWritten, subj)`: the sections in order, then ADDITIONAL |
| ParsePrereqs.ParsePrereqInfoWith | scrape/parse.py:161-225 | the loop over the three sections and the additional requirements, for any list of matchers `ms`, computes `PrereqInfoWith(ms, subj)`, errors included |
| ParsePrereqs.MatchersTyped | scrape/parse.py:191-196 | the corrected matchers return COURSE, POINTS, FIELD and MAJOR in that order |
| ParsePrereqs.MatchersAsWrittenTyped | scrape/parse.py:191-196 | so do the matchers as written |
| ParsePrereqs.LineOrdered | scrape/parse.py:180-199 | a line emits at most one SUBJECTS, first, then at most one of each kind in matcher order |
| ParsePrereqs.PendingWindow | scrape/parse.py:171-220 | the pending pair after n items is the default, reset at the last emitting item, with later cues applied |
| ParsePrereqs.FragmentSubjects | scrape/parse.py:173-189 | an emitting item appends a SUBJECTS tuple with the pending quantity and concurrency and the cleaned or own-less codes |
| ParsePrereqs.SectionSubjectsRange | scrape/parse.py:164-220 | every SUBJECTS quantity of a section is its default or 1 |
| ParsePrereqs.PrereqInfoSections | scrape/parse.py:170-176 | the output is prereqs, then coreqs, then antireqs, each from its own default |
| ParsePrereqs.SectionsNoAdditional | scrape/parse.py:170-220 | the sections emit no ADDITIONAL |
| ParsePrereqs.AdditionalLast | scrape/parse.py:222-225 | ADDITIONAL comes last exactly when `addreqs` exists, holds its lines joined by newlines, and a list among them raises TypeError |
| ParsePrereqs.MissingPrereqs | scrape/parse.py:170-172 | a subject without `prereqs` fails with KeyError on it |
| ParsePrereqs.CodeRequired | scrape/parse.py:179-185 | without `code`, the first text line raises KeyError, whatever tables came before |
| ParsePrereqs.TableKeepsOwnCode | scrape/parse.py:173-176 | a table naming the subject's own code keeps it in its SUBJECTS tuple |
| ParsePrereqs.AntireqsOneOf | scrape/parse.py:204-212 | "one of" before a table in antireqs gives that table quantity 1 instead of -1 |
| Requisites.TagCloseSpec | scrape/scrape.py:17 | a tag closes at the first `>` with no `<` before it, or the `<` is kept |
| Requisites.RemoveTagsPrefix | scrape/scrape.py:17 | text without `<` is kept as it is |
| Requisites.RemoveTagsTag | scrape/scrape.py:17 | a tag `<...>` without inner brackets is removed |
| Requisites.ElementTextPlain | scrape/scrape.py:16-17 | text without tags is only stripped |
| Requisites.ElementTextWrapped | scrape/scrape.py:16-17 | an element wrapping plain text yields that text stripped |
| Requisites.OnePass | scrape/scrape.py:17 | a single pass: `<<b>>` becomes `<>` |
| Requisites.FirstCells | scrape/scrape.py:26-31 | IndexError exactly when a row has no cell; otherwise the first cell of each row, in order |
| Requisites.ParseSubjectTable | scrape/scrape.py:19-31 | the loop returns `FirstCells` |
| Requisites.ItemTextsAt | scrape/scrape.py:33-38 | each entry is the text of its item |
| Requisites.ParseList | scrape/scrape.py:33-38 | the loop returns one text per item, in order |
| Requisites.AliasTable | scrape/scrape.py:41-53 | six headings get six distinct keys; every other heading is its own key; the alias is idempotent and empty only for "" |
| Requisites.DropInherent | scrape/scrape.py:75 | exactly the lines that are not boilerplate are kept, in order |
| Requisites.DropInherentAppend | scrape/scrape.py:75 | the filter works line by line |
| Requisites.FilterInherent | scrape/scrape.py:74-75 | only `inherent` changes, and only by losing boilerplate |
| Requisites.ParseRequisitesElement | scrape/scrape.py:40-76 | the loop, the last commit and the filter compute `RequisitesInfo` |
| Requisites.SectionBody | scrape/scrape.py:60-71 | body children append their entries to the current content, or raise |
| Requisites.DivStops | scrape/scrape.py:64-65 | nothing after the first `div` matters |
| Requisites.Ignored | scrape/scrape.py:66-71 | an `h2`, or an element without text, changes nothing |
| Requisites.NoHeading | scrape/scrape.py:50-72 | without a heading, everything goes under the key "" |
| Requisites.PreambleDiscarded | scrape/scrape.py:55-57 | content before the first heading is dropped |
| Requisites.EmptyHeadingDiscards | scrape/scrape.py:56 | content under an empty heading is dropped when another heading follows |
| Requisites.LastSectionWins | scrape/scrape.py:72 | the last section is stored under its alias with its entries |
| Requisites.SameKeyOverwrites | scrape/scrape.py:57 | a later heading with the same alias replaces the earlier section |
| Requisites.GetSubjectRequirements | scrape/scrape.py:85-99 | the keys are `updated` plus both passes; the second pass wins; either pass's exception escapes |
| Requisites.RequirementsHref | scrape/scrape.py:78-83 | an href naming the requirements page is returned without a fetch; otherwise the linked one is |
| Graph.Clamp | main.js:3-5 | the result lies in [lo, hi], equals x inside it, is lo below it and hi above it |
| Graph.ClampIdempotent | main.js:3-5 | clamping twice is clamping once |
| Graph.Opts | main.js:206-212 | only a SUBJECTS constraint with quantity at least 0 links, to its codes |
| Graph.AdjAddConstraint | main.js:204-213 | one constraint appends its options to its subject's list and makes them vertices |
| Graph.GraphOfSpec | main.js:203-215 | the vertices are the subjects with a constraint and every option linked; each list is the record's options, in order |
| Graph.GraphOfWellFormed | main.js:189-218 | each name has one node, and every neighbour is a node |
| Graph.Nodes.Get | main.js:191-201 | a known name returns its node and changes nothing; a new name makes one node without neighbours, appended and indexed |
| Graph.Nodes.RepresentsMeans | main.js:189-218 | a table standing for a graph has a node per vertex, neighbours spelling the lists, and no marks |
| Graph.Nodes.Link | main.js:210 | linking one option extends the graph by that edge |
| Graph.Nodes.AddRecord | main.js:203-215 | one record's constraints extend the graph as `AddConstraints` says |
| Graph.BuildNodes | main.js:189-218 | the table built from the records stands for `GraphOf` of them |
| Search.ScrubUnvisited | main.js:109-124 | the list keeps, in order, exactly the marked nodes; the index follows; no mark remains |
| Search.ClearMarks | main.js:110-116 | the removals are the unmarked nodes in list order, and every mark is cleared |
| Graph.Nodes.RemoveAt | main.js:119-120 | the splice and delete of one listed node keep every other node, in order, with unique names and an exact index |
| Search.RemoveNodes | main.js:118-121 | splicing the removals leaves the others, in order, and the index without them |
| Search.Finished | main.js:130-142 | a search closed under neighbours has seen exactly the names reachable from the root |
| Search.AccessibleFrom | main.js:126-145 | the table keeps, in order, exactly the nodes reachable from the root, with no marks |
| Tree.FirstDiscoverer | main.js:167-175 | a name first seen while visiting n gets n as parent; a name seen before keeps its parent |
| Tree.RoundsFinished | main.js:164-176 | when nothing waits, the seen names are exactly the reachable ones and the children form a spanning tree |
| Tree.TreeEdges | main.js:147-187 | a spanning tree has one edge fewer than its nodes |
| Tree.EnsureChildren | main.js:148-152 | absent children become an empty list; present ones are kept |
| Tree.AddChild | main.js:154-157 | the child is appended to the children |
| Tree.BuildLevel | main.js:164-176 | one pass over `cur` is one round of the search on names |
| Tree.MarkTree | main.js:159-176 | the marks are the reachable names; the children are those of a finished search, forming a spanning tree |
| Tree.AdoptChildren | main.js:180-184 | every listed node's neighbours become its children, or empty, and the children go |
| Tree.BuildTree | main.js:147-187 | the table keeps the reachable nodes in order; their neighbours are the tree's children; one neighbour entry fewer than nodes |
| Draw.Row | main.js:98-103 | one link per neighbour entry, by positions in the list, in order |
| Draw.ToD3Graph | main.js:91-107 | the graph lists the nodes themselves and their links node by node |
| Draw.LinkCount | main.js:91-107 | there is one link per neighbour entry |
| Draw.LinksSound | main.js:97-104 | each link joins a listed node to one of its neighbours |
| Draw.LinksComplete | main.js:97-104 | each neighbour entry has its link |
| Seqs.IndexOf | main.js:100-101 | `indexOf` is the first position, or -1 exactly when absent |
| Seqs.RemoveFirst | scrape/parse.py:157 | `list.remove` takes out one occurrence |
| Text.StripSpec | scrape/scrape.py:17 | `strip` removes whitespace at both ends and nothing else |
| Text.StripIdempotent | scrape/parse.py:88 | stripping twice is stripping once |
| ParseExamples.MinLenAnyStrEmptyOption | scrape/parse.py:8-10 | with an empty option the code keeps the other options whole |
| ParseExamples.MajorLookaheadTrimmedAsWritten | scrape/parse.py:39-55 | the code's trimmed lookahead turns "enrolled in the X major within the" into "X maj" |
| ParseExamples.MajorLookahead | scrape/parse.py:39-55 | the full suffixes give "X" |
| ParseExamples.CoursePrefixFusedAsWritten | scrape/parse.py:60-67 | "admission to the X" yields no course as written |
| ParseExamples.CoursePrefixes6 | scrape/parse.py:60-67 | with the comma restored, "admission to the X" yields the course "X" |

## Left out

- The network, `bs4` and the DOM are not modelled. This covers `get`, the CSS selectors, and `body.children` with `children.remove(prerequisites)`. The splitter takes the children as a `Child` datatype, and `get_subject_requirements` takes the update stamp and the two child lists.
- `get_requirements_href` is modelled without the fetch: the href of the "Eligibility and requirements" link is a parameter.
- A `.string` that is None (an `h3` or `td` with nested tags) is not modelled. A heading or cell is always a string.
- A table row with no `td` raises IndexError, which is modelled. A table outside `table > tr` is not.
- The `print` calls are not modelled: the format warning, `print(item)`, and the "Failed to parse" message, after which the model returns None as the code does.
- The `'WTF' + item` branch for items that are neither str nor list is not modelled. `Fragment` has only text lines and code lists, as the splitter produces.
- ParsePrereqs.CleanSubjList returns the cleaned list as a value rather than mutating the caller's list in place; aliasing of that list is not modelled.
- The code is read with the key `code` as an `Option`, and `subj[req]` as a map lookup. Python dict order is modelled only for `defaults`, whose key order is fixed.
- The concurrent orchestration and the file I/O are not modelled: `get_page_of_subjects`, `get_all_subjects`, `add_requirement_info`, `clean_scraped`, `main`, the JSON files and `inherent.txt`. The boilerplate list is a parameter.
- `display_graph`, `load_graph_from_json` and the d3 force simulation are not modelled.
- Graph.Clamp is stated over real numbers. JavaScript's NaN and infinities are not modelled.
- Graph.Nodes keeps the name index apart from the object's other properties. `n in nodes` in `nodes.get` also finds any property name of the object, own (`list`, `get`) or inherited (`valueOf`, `toString`, ...); the clash of a subject with such a name is not modelled.
- Nodes store `children` as an `Option`, which stands for an undefined or present property. Deleting `visited` is modelled as clearing it to false.
- `build_tree`'s default root `MAST30028` is not modelled; the root is a parameter.
- `\w`, `\d` and case folding are ASCII only, except that the subject-code letter class also takes the four non-ASCII letters Python folds onto `[a-zA-Z]`. Python's other Unicode classes and foldings are not modelled. `str.strip` uses Python's full whitespace set.

## Findings

| source | as written | input that shows it | evidently intended | confidence | as-written member | corrected member |
|---|---|---|---|---|---|---|
| scrape/parse.py:9-10 | `o[-l:]` with `l == 0` is the whole option, so an empty option leaves the others untrimmed | options `["", "ab"]` give `"\|ab"` | every option cut to the shortest length, so the lookbehind has a fixed width (`"\|"`) | not executed; latent, since every list in the code is non-empty | ParseExamples.MinLenAnyStrEmptyOption | ParseMatch.MinLenAnyStr |
| scrape/parse.py:19,46-50 | the lookahead is built with `min_len_any_str(suffs)`, which cuts " major within the" to "or within the" | "enrolled in the X major within the" gives MAJOR "X maj" | the lookahead lists the full suffixes, giving MAJOR "X" | not executed; high | ParseExamples.MajorLookaheadTrimmedAsWritten | ParseMatch.ParseMajorRequirement |
| scrape/parse.py:64-65 | a missing comma fuses "admission to the " and "major within the " into one prefix, and the lookbehind loses "admission to the " | "admission to the X" gives no COURSE | six prefixes, giving COURSE ["X"] | not executed; high | ParseExamples.CoursePrefixFusedAsWritten | ParseMatch.ParseCourseRequirement |
