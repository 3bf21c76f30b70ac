# Column-name similarity grouping

This project models the column analysis panel of the exoplanet-detection front end. The panel takes the
column names of an uploaded table and proposes groups of names that look like spellings of the same
column. A user can then merge each group under one standard name.

The model covers three pieces of `src/components/ColumnAnalysis.tsx`:

- **`levenshteinDistance`** fills a `(|b|+1) x (|a|+1)` table with nested loops and returns its
  bottom-right cell. The JavaScript table is an array of growable rows:
  - each row starts as `[i]`;
  - it then grows by index assignment at its current length.

  `EditDistance.LevenshteinDistance` keeps that shape. The table is a sequence of rows, reassigned
  through `Store`, which overwrites an index or appends at the current length. The method is proved
  to return `Lev(a, b)`, the Levenshtein recurrence on prefixes. `EditScripts` shows that `Lev` is
  the least cost of any script of keeps, substitutions, insertions and deletions that turns `a` into
  `b`.
- **`findSimilarColumns`** is a greedy single pass with a set `processed` of placed names, kept by
  value, not by position. For every name not yet placed, an inner scan collects, in input order, each
  name that meets all three tests:
  - it sits at another position;
  - it is not yet placed;
  - it passes the similarity test `1 - d / maxLen > 0.6`. Here `d` is the distance of the lower-cased
    names and `maxLen` the longer of the two original lengths.

  When the scan finds something, the pass emits a group with the fixed score 0.8. It then places the
  representative and all members.
  - `ColumnGrouping.Scan` states the pass after its first `n` iterations.
  - `FindSimilarColumns`, with its inner loop `CollectSimilar`, is proved to compute it.
  - `GroupingProperties` proves what the result guarantees.
- **The panel and its merge button.** The panel shows nothing for an empty column list. The merge
  button hands `[original, ...similar]` to the merge hook, if one is given, together with the typed
  standard name, or with `original` when nothing (or the empty text) was typed. This holds for names
  that are not properties every JavaScript object inherits (see `NewName` under "## Left out").

Points where the code's behaviour is less obvious than its purpose:

- The similarity test is the exact integer form `2 * maxLen > 5 * d`.
  - It is equivalent to the source's test over exact rationals whenever `maxLen > 0`
    (`SimilarityAboveThreshold`).
  - For two empty names the source divides `0 / 0`, and `NaN > 0.6` is false. The integer form is
    false there too, so two empty names are never grouped.
  - Equality at 0.6 does not qualify.
- A name never compares with its own position. A duplicate of it at another position can, however,
  appear among its own group's members (`DuplicateNameScenario`: `[col_a, col_b, col_a]` yields one
  group `col_a` with members `[col_b, col_a]`).
- A shared prefix does not make two names similar. `flux` and `Flux_Corrected` share a prefix but are
  not grouped: ten edits over fourteen characters give a similarity below 0.6 (`FluxScenario`).

## Model

| member | source | states |
|---|---|---|
| EditDistance.LevenshteinDistance | src/components/ColumnAnalysis.tsx:26-52 | the returned distance is `Lev(a, b)`, the Levenshtein recurrence on the two strings |
| EditDistance.InitTable | src/components/ColumnAnalysis.tsx:27-35 | after the first two loops the table has `|b|+1` rows; row 0 is `0..|a|`, and every other row `i` is `[i]` |
| EditDistance.FillRow | src/components/ColumnAnalysis.tsx:37-49 | one pass of the inner loop completes row `i` with the recurrence's cells and leaves every other row as it was |
| EditDistance.Store | src/components/ColumnAnalysis.tsx:30-46 | assigning index `j` of a growable row sets that element, keeps the others, and grows the row by one exactly when `j` is its length |
| EditDistance.Min3 | src/components/ColumnAnalysis.tsx:42-46 | `Math.min` of three values is no larger than any of them and equals one of them |
| EditDistance.Max | src/components/ColumnAnalysis.tsx:65 | `Math.max` of two lengths is at least both and equals one of them |
| EditDistance.TableIsLev | src/components/ColumnAnalysis.tsx:37-51 | table cell `[i, j]` is the distance between the prefixes `a[..j]` and `b[..i]` |
| EditDistance.TableEdge | src/components/ColumnAnalysis.tsx:29-35 | row 0 and column 0 hold the distance to the empty prefix |
| EditDistance.TableStep | src/components/ColumnAnalysis.tsx:39-46 | an inner cell computed from correct neighbours is correct |
| EditDistance.LevCell | src/components/ColumnAnalysis.tsx:39-46 | the prefix distance follows the table's rule: a match copies the diagonal, otherwise it is one plus the least of the three neighbours |
| EditDistance.LevBounds | src/components/ColumnAnalysis.tsx:29-51 | `distance(a, "") == |a|` and `distance("", b) == |b|`; the length difference `||a|-|b||` is at most the distance, and the distance is at most `max(|a|, |b|)` |
| EditDistance.LevSymmetric | src/components/ColumnAnalysis.tsx:37-51 | `distance(a, b) == distance(b, a)` |
| EditDistance.LevZeroIffEqual | src/components/ColumnAnalysis.tsx:37-51 | the distance is 0 exactly when the two strings are equal |
| EditDistance.LevDropLastOfFirst | src/components/ColumnAnalysis.tsx:37-51 | dropping the last character of the first string changes the distance by at most one |
| EditDistance.LevDropLastOfSecond | src/components/ColumnAnalysis.tsx:37-51 | dropping the last character of the second string changes the distance by at most one |
| EditDistance.LevNoCommonCharacter | src/components/ColumnAnalysis.tsx:37-51 | strings with no character in common are `max(|a|, |b|)` apart |
| EditDistance.LevCommonSuffix | src/components/ColumnAnalysis.tsx:37-51 | appending the same suffix to both strings leaves the distance unchanged |
| EditScripts.Alignment | src/components/ColumnAnalysis.tsx:26-52 | some edit script turns `a` into `b` at a cost of exactly `Lev(a, b)` |
| EditScripts.LevIsOptimal | src/components/ColumnAnalysis.tsx:26-52 | no edit script turning `a` into `b` costs less than `Lev(a, b)`, so the table computes the minimum edit distance |
| ColumnGrouping.Lower | src/components/ColumnAnalysis.tsx:64 | lower-casing keeps the length |
| ColumnGrouping.FindSimilarColumns | src/components/ColumnAnalysis.tsx:54-86 | the greedy pass with its `processed` set returns exactly the groups the pass specification `SimilarColumns` describes |
| ColumnGrouping.CollectSimilar | src/components/ColumnAnalysis.tsx:61-72 | the inner scan returns, in input order, the names at other positions that are not yet placed and pass the similarity test |
| ColumnGrouping.Similar | src/components/ColumnAnalysis.tsx:64-68 | the grouping test `2 * maxLen > 5 * d` on the lower-cased distance and the original lengths; a name that passes it against another name is non-empty, and so is the other |
| GroupingProperties.SimilarityAboveThreshold | src/components/ColumnAnalysis.tsx:64-68 | for `maxLen > 0`, `1 - d/maxLen > 0.6` holds exactly when `2*maxLen > 5*d`, so 0.6 itself does not qualify |
| GroupingProperties.SimilarToItself | src/components/ColumnAnalysis.tsx:64-68 | a name passes the test against itself exactly when it is not empty; the empty name is similar to nothing |
| GroupingProperties.SimilarSymmetric | src/components/ColumnAnalysis.tsx:64-68 | the similarity test does not depend on the order of the two names |
| GroupingProperties.DistanceWithinLongerName | src/components/ColumnAnalysis.tsx:64-65 | the distance of the lower-cased names lies between the length difference and the longer original length |
| GroupingProperties.LengthGapNeverSimilar | src/components/ColumnAnalysis.tsx:64-68 | names whose lengths differ by at least two fifths of the longer one are never similar |
| GroupingProperties.ScanStep | src/components/ColumnAnalysis.tsx:58-83 | one outer iteration emits a group and places its names exactly when the current name is unplaced and found partners, and otherwise changes nothing |
| GroupingProperties.ProcessedGrows | src/components/ColumnAnalysis.tsx:59-81 | the set of placed names only grows |
| GroupingProperties.MatchesGrow | src/components/ColumnAnalysis.tsx:74-79 | groups are only appended: earlier results are a prefix of later ones |
| GroupingProperties.CandidatePositions | src/components/ColumnAnalysis.tsx:62-72 | the collected names are the names at exactly the qualifying positions, listed in increasing position order |
| GroupingProperties.NothingQualifies | src/components/ColumnAnalysis.tsx:62-72 | with no qualifying position the scan collects nothing |
| GroupingProperties.NoneCollected | src/components/ColumnAnalysis.tsx:62-72 | when the scan collects nothing, no position qualifies |
| GroupingProperties.CollectedPosition | src/components/ColumnAnalysis.tsx:62-72 | every collected name sits at some other, unplaced, similar position |
| GroupingProperties.GroupOrigin | src/components/ColumnAnalysis.tsx:58-83 | each group was emitted at the position of its representative, which was unplaced then, and holds that position's non-empty scan result |
| GroupingProperties.GroupShape | src/components/ColumnAnalysis.tsx:62-79 | each group has a representative position, at least one member, members at increasing positions other than the representative's, every member similar to the representative, and score 0.8 |
| GroupingProperties.PlacedWithinAll | src/components/ColumnAnalysis.tsx:80-81 | each group's names are among all placed names |
| GroupingProperties.CandidatesUnplaced | src/components/ColumnAnalysis.tsx:63 | the inner scan never collects a name that is already placed |
| GroupingProperties.ProcessedIsAllPlaced | src/components/ColumnAnalysis.tsx:59-81 | the placed names are exactly the representatives and members of the emitted groups |
| GroupingProperties.GroupsDisjoint | src/components/ColumnAnalysis.tsx:59-81 | no name is placed by two different groups |
| GroupingProperties.NewGroupPositions | src/components/ColumnAnalysis.tsx:74-81 | a new group places at least two positions that were free |
| GroupingProperties.GroupsUseTwoPositions | src/components/ColumnAnalysis.tsx:58-83 | the placed positions are at least twice the number of groups |
| GroupingProperties.AtMostHalf | src/components/ColumnAnalysis.tsx:54-86 | there are at most `|columns| / 2` groups |
| GroupingProperties.UnmatchedColumnStaysUngrouped | src/components/ColumnAnalysis.tsx:58-83 | a name that was unplaced at its own iteration and found no partner is never placed later |
| GroupingProperties.UnplacedFoundNothing | src/components/ColumnAnalysis.tsx:74-82 | a name still unplaced after its own iteration found no partner there |
| GroupingProperties.NoPartnerFound | src/components/ColumnAnalysis.tsx:58-83 | a name that no group places found no qualifying position at its iteration |
| GroupingProperties.UngroupedPair | src/components/ColumnAnalysis.tsx:58-83 | two positions left unplaced hold dissimilar names |
| GroupingProperties.UngroupedPairsDissimilar | src/components/ColumnAnalysis.tsx:58-83 | the pass is maximal: no two names that it leaves ungrouped are similar |
| GroupingProperties.NoSimilarPairNoGroups | src/components/ColumnAnalysis.tsx:58-85 | without two similar names at different positions the pass emits nothing and places nothing |
| GroupingProperties.NoGroupsIffNoSimilarPair | src/components/ColumnAnalysis.tsx:58-85 | the pass emits no group exactly when no two different positions hold similar names |
| GroupingExamples.FluxScenario | src/components/ColumnAnalysis.tsx:64-68 | `flux` and `Flux_Corrected` are not similar, and the pass over them emits no group |
| GroupingExamples.ColANearColB | src/components/ColumnAnalysis.tsx:64-68 | `col_a` and `col_b` are similar (one edit over five characters) |
| GroupingExamples.DuplicateCandidates | src/components/ColumnAnalysis.tsx:62-72 | for `[x, y, x]` with `x` similar to `y`, the first scan collects `y` and then the second `x` |
| GroupingExamples.DuplicateFirstGroup | src/components/ColumnAnalysis.tsx:74-81 | the first iteration over `[x, y, x]` emits group `x` with members `[y, x]` and places `x` and `y` |
| GroupingExamples.DuplicateNameGrouping | src/components/ColumnAnalysis.tsx:58-83 | `[x, y, x]` yields exactly one group, whose members include the duplicate of its representative |
| GroupingExamples.DuplicateNameScenario | src/components/ColumnAnalysis.tsx:58-83 | `[col_a, col_b, col_a]` yields the single group `col_a` with members `[col_b, col_a]` |
| ColumnPanel.AnalyzeColumns | src/components/ColumnAnalysis.tsx:23-88 | an empty column list shows nothing; otherwise the panel shows the pass's groups, at most half as many as columns |
| ColumnPanel.NewName | src/components/ColumnAnalysis.tsx:152 | the merge name is the typed text when it is present and non-empty, else the representative's name, and so non-empty for a non-empty representative (inherited object properties are not modelled; see "## Left out") |
| ColumnPanel.Type | src/components/ColumnAnalysis.tsx:145 | typing sets that group's entry and keeps every other entry |
| ColumnPanel.Merge | src/components/ColumnAnalysis.tsx:151-155 | the hook is called once exactly when it is present, with the representative followed by the members in order, and the merge name |
| ColumnPanel.TypedNameIsUsed | src/components/ColumnAnalysis.tsx:144-152 | after typing, a merge uses the typed text unless it is empty; typing for one group does not change another group's merge name |
| ColumnPanel.MergeOfEmittedGroup | src/components/ColumnAnalysis.tsx:151-155 | for an emitted group the merge call lists at least two names, all from the column list; the first is the representative, every later one is similar to it, and they are exactly the names the group placed |

## Left out

- The JSX rendering, the alert and summary texts and the component's styling are not modelled: they only display the groups.
- The `newNames` React state and its `onChange` handler are modelled as a plain map and the function `Type`; React's re-rendering is not modelled.
- `onRename` is declared but never called, so it has no behaviour to model.
- The merge hook itself is outside this component: `Merge` returns the arguments of the call instead of making it.
- AnalyzeColumns: a `null` or `undefined` column list (also answered with nothing) has no counterpart, because the column list is a Dafny sequence.
- Floating point: the similarity `1 - d / maxLen` is compared over exact rationals; IEEE rounding near 0.6 is not modelled.
- Lower: `toLowerCase` is modelled for ASCII letters only, one character at a time; Unicode case mappings, including those that change the length, are not modelled.
- LevenshteinDistance: the table is a sequence of rows that the method reassigns, not an array mutated in place, so aliasing of the JavaScript arrays is not modelled (none is observable here). The first two loops are the method `InitTable`; one pass of the inner loop is the method `FillRow`.
- CollectSimilar: a name is a sequence of Unicode scalar values, while the source's `.length` and `charAt` count UTF-16 code units. Names with characters outside the Basic Multilingual Plane therefore get different lengths and distances in the model. For example, the source groups `a😀` with `a😁` (3 units, 1 edit) and the model does not (2 characters, 1 edit).
- NewName: `newNames` is a plain JavaScript object, so the source's lookup `newNames[original] || original` also finds inherited properties. For a representative named `constructor`, `toString`, `valueOf`, `hasOwnProperty` or `__proto__` with nothing typed, the source passes the inherited member (a function or object), not the name, to the merge hook. The model's map has no inherited entries and returns the name.
- FindSimilarColumns: the `forEach` callbacks are written as `for` loops, and the inner scan is the method `CollectSimilar`.
- The other components of the front end (upload, training, prediction, metrics, persistence and presentational views) are not part of this model.
