# cenpy place-name matcher, modelled in Dafny

This project models the helpers in `cenpy/utilities.py` and proves properties about them. The main part is the place-name matcher, `_fuzzy_match` with its tie-breaker `_break_ties`. It resolves a query such as `"Los Angeles, CA"` against a list of candidate place names:

- The query is split at commas into a place name and an optional state.
- Every candidate is scored against the name with a partial-ratio scorer.
- With a state, only candidates ending with that state are kept.
- The best-scoring candidate wins.
- A tie at the best score is broken by a full-ratio scorer, then by candidate order (pandas `idxmax`). A warning is raised when the tie-breaker still cannot tell candidates apart.

The data-cleaning helpers are modelled too:

- `_replace_missing` blanks the six American Community Survey missing-value codes of a column, in place.
- `_coerce` converts a column, or leaves it unchanged when the conversion fails.
- `_can_int` tells whether `int()` accepts a text.

Files:

- `optional.dfy`, module `Optional`: the `Option` type. `None` stands for NaN in a column and for a row's absent `score2` cell.
- `text.dfy`, module `Text`: the string methods the matcher calls. These are `lower`, `strip`, `split` and `endswith`, all on ASCII.
- `tables.dfy`, module `Tables`: the pandas operations the matcher performs, as operations on sequences of rows:
  - a boolean mask (`Filter`);
  - `max` (`MaxOf`) and `idxmax` (`IdxMax`);
  - selecting the rows at the maximum (`AtMax`);
  - `sort_values` (`SortBy`).
- `matching.dfy`, module `Matching`: `_fuzzy_match` (`FuzzyMatch`), `_break_ties` (`BreakTies`), the selection step both branches of `_fuzzy_match` share (`Pick`), and the theorems about them.
- `columns.dfy`, module `Columns`: `_coerce` (`Coerce`), `_replace_missing` (`ReplaceMissing`, a method on an array) and `_can_int` (`CanInt`).

The two similarity scorers, `fuzz.partial_ratio` and `fuzz.ratio`, are parameters of type `(string, string) -> Score`, where a `Score` is an integer from 0 to 100. Nothing depends on their definitions, except where `ExactNameWins` states its hypotheses about them.

Conventions:

- A row of the scored table carries its pandas index label. This is the candidate's position in the original list, and it survives the state filter.
- `idxmax` returns the first row at the maximum.
- The two failures the source raises, plus the one that `idxmax` raises on an empty table, are values of a `Result` type. `FuzzyMatch` uses the corrected query check `SplitQuery`: on a query with two or more commas, such as `"a,b,c"`, it returns `MalformedQuery` naming the query, where the source as written raises a name error about `target` (see Findings).
- The ambiguity warning is a field of the result instead of a call to `warn`.

How the model follows the code where the two could be read differently:

- A query with no comma is valid. `str.split` never returns zero parts, so the only malformed query is one with two or more commas.
- `_break_ties` adds its `score2` column to the table it was given (line 104). The table `_fuzzy_match` then returns with `return_table` therefore carries `score2` whenever the tie-break ran. `PickTable` and `ReturnedTable` state this.
- With a query that has no state and an empty candidate list, `idxmax` on an empty column raises. The model returns `Err(NoCandidates)`.
- The warning text calls the pick "the shortest" candidate. The code picks the first tied candidate in list order, and so does the model.
- pandas' default sort is not stable. `SortBy` promises only an ascending order and a permutation, and nothing about the order of rows with equal scores.

## Model

| member | source | states |
|---|---|---|
| Text.Strip | cenpy/utilities.py:40 | `strip()` removes only whitespace, at both ends, and leaves no whitespace at either end |
| Text.Split | cenpy/utilities.py:25 | `split(",")` gives one more part than there are commas, and no part contains a comma |
| Text.SplitJoin | cenpy/utilities.py:25 | joining the parts of a split with the separator gives the query back |
| Text.JoinSplit | cenpy/utilities.py:25 | splitting a join of comma-free parts gives the parts back |
| Tables.Filter | cenpy/utilities.py:59 | a boolean mask keeps exactly the rows that satisfy it, and never adds rows |
| Tables.FilterIncreasing | cenpy/utilities.py:59 | a mask keeps the rows in their original label order |
| Tables.MaxOf | cenpy/utilities.py:43 | `max()` bounds every key and is attained by some row |
| Tables.IdxMax | cenpy/utilities.py:63 | `idxmax()` is a position holding a maximal key, and every earlier position has a strictly smaller key, so it is the first maximum |
| Tables.AtMax | cenpy/utilities.py:107 | selecting the rows equal to the maximum keeps exactly the rows at the maximum, and there is at least one |
| Tables.IdxMaxAtMax | cenpy/utilities.py:110 | among rows that all share the maximum, `idxmax` is the first row |
| Tables.IdxMaxIsMax | cenpy/utilities.py:46-47 | the row `idxmax` points at holds the maximum that `max()` computes |
| Tables.MoreThanOne | cenpy/utilities.py:43 | rows in strictly increasing label order number more than one exactly when two of them have different labels |
| Tables.FirstAtMaxMax | cenpy/utilities.py:107-110 | among the rows at the maximum of one key, the first row at the maximum of a second key has no rival in the second key, and precedes every row that equals it in both |
| Tables.SortBy | cenpy/utilities.py:66 | `sort_values` returns a permutation of the rows, ascending by the key |
| Tables.SortDistinct | cenpy/utilities.py:66 | sorting keeps the row labels distinct |
| Matching.SplitQuery | cenpy/utilities.py:25-36 | the query is accepted exactly when it has at most one comma; it then yields its one or two comma parts; otherwise the failure names the query |
| Matching.SplitQueryAsWritten | cenpy/utilities.py:31-36 | as written, every failure of the query check is a name error about `target` |
| Matching.MalformedQueryAsWritten | cenpy/utilities.py:31-36 | on "a,b,c" the source fails with the name error, while the intended check fails with a message naming the query |
| Matching.WithScore2Increasing | cenpy/utilities.py:104-106 | adding `score2` keeps the rows in label order |
| Matching.WithScore2Members | cenpy/utilities.py:104-106 | the rows of the widened table are exactly the original rows with `score2` filled in |
| Matching.WithScore2Top | cenpy/utilities.py:104-107 | adding `score2` does not change the best primary score |
| Matching.RescoredFrom | cenpy/utilities.py:104-106 | every row of the widened table is a row of the original table, carrying its own secondary score |
| Matching.RescoredOf | cenpy/utilities.py:104-106 | every row of the original table appears in the widened table with its secondary score |
| Matching.TopCountTies | cenpy/utilities.py:43 | more than one row is at the maximum exactly when two rows with different labels share the best primary score |
| Matching.BreakTiesShape | cenpy/utilities.py:107-120 | `_break_ties` returns the widened table and the first double winner with its label, and it warns exactly when there is more than one double winner, naming all of them |
| Matching.DoubleWinnersRows | cenpy/utilities.py:107-108 | the double winners are exactly the rows at the best primary score whose `score2` is the best among those rows |
| Matching.RescoredCell | cenpy/utilities.py:104-106 | every row of the widened table carries `ratio` of the stripped, lower-cased name against its own lower-cased text |
| Matching.DoubleWinnersTie | cenpy/utilities.py:107-108 | there is at least one double winner, and all of them are rows of the widened table sharing the first one's primary and secondary score |
| Matching.DoubleWinnersBest | cenpy/utilities.py:107-110 | on a table in label order, no row at the first double winner's primary score has a higher secondary score, and none with an equal one has a smaller label |
| Matching.BreakTiesRow | cenpy/utilities.py:104-110 | the pick is a row of the widened table at the best primary score, returned with its own label, and it carries its secondary score |
| Matching.BreakTiesBest | cenpy/utilities.py:107-110 | no row at the pick's primary score has a higher secondary score, and none with an equal one has a smaller label |
| Matching.DoubleWinnersMatchPick | cenpy/utilities.py:108-111 | the double winners are exactly the rows that match the pick in both scores |
| Matching.BreakTiesWarns | cenpy/utilities.py:109-118 | `_break_ties` warns exactly when two rows with different labels share both of the pick's scores |
| Matching.BreakTiesWarning | cenpy/utilities.py:112-117 | the warning names the query and the pick, and lists at least two candidates, the pick first; every one of them shares both of the pick's scores |
| Matching.PickTop | cenpy/utilities.py:42-47 | on a table in label order, the selection step succeeds; the winner is a row of the table at the best primary score, and it carries a secondary score exactly when two rows tie at that score |
| Matching.PickBest | cenpy/utilities.py:43-47 | when the winner carries a secondary score, that score is its own `ratio`, the best among the rows at the best primary score, and no row reaching it has a smaller label |
| Matching.BreakTiesTiedRows | cenpy/utilities.py:109-118 | a warning from `_break_ties` means two rows of the original table at the best primary score share the pick's secondary score |
| Matching.TiedRowsBreakTies | cenpy/utilities.py:109-118 | two rows of the original table at the best primary score sharing the pick's secondary score make `_break_ties` warn |
| Matching.PickWarns | cenpy/utilities.py:109-118 | the selection step warns exactly when two rows at the best primary score share the winner's secondary score |
| Matching.TiedInTable | cenpy/utilities.py:112-117 | every name in the warning is a row at the best primary score with the pick's secondary score |
| Matching.ListedInTie | cenpy/utilities.py:107-115 | every row at the best primary score sharing the pick's secondary score is named in `_break_ties`' warning |
| Matching.PickWarning | cenpy/utilities.py:109-118 | the warning names the query and the winner, and lists at least two names, the winner first; a name is listed exactly when it belongs to a row at the best primary score sharing the winner's secondary score |
| Matching.PickTable | cenpy/utilities.py:48-49 | the returned table is sorted ascending by primary score and keeps its labels distinct; its rows are exactly the chosen-from rows, with `score2` filled in exactly when the tie-break ran |
| Matching.CandidatesIn | cenpy/utilities.py:38-59 | the table the selection step sees holds exactly one row per considered candidate: its position as label, its text, its primary score, and no `score2` |
| Matching.CandidatesOrdered | cenpy/utilities.py:38-59 | that table is in label order and has no `score2` column |
| Matching.CandidatesExist | cenpy/utilities.py:52-59 | that table is non-empty exactly when some candidate is considered |
| Matching.SucceedsIff | cenpy/utilities.py:25-67 | a match is returned exactly when the query has at most one comma and some candidate is considered |
| Matching.FailsIff | cenpy/utilities.py:25-58 | the three failures each hold exactly under their own condition: two or more commas; a state no candidate ends with, with the error naming the state and the query; no state and an empty list |
| Matching.TopOfCandidates | cenpy/utilities.py:38-64 | a row of the chosen-from table at its best primary score is a considered candidate, with its own text and position, that no considered candidate outscores |
| Matching.BestIsMaximal | cenpy/utilities.py:42-64 | the winner is a considered candidate, with its own text, position and primary score, and no considered candidate scores higher |
| Matching.UniqueMaximumWins | cenpy/utilities.py:60-64 | a considered candidate that alone reaches the best primary score wins, and no tie-break runs |
| Matching.TwoRowsAtIff | cenpy/utilities.py:43 | two rows of the chosen-from table tie at a score exactly when two considered candidates do |
| Matching.TieBroken | cenpy/utilities.py:60-61 | the winner carries a secondary score exactly when two considered candidates share the best primary score |
| Matching.BestAmongContenders | cenpy/utilities.py:107-110 | a winner that is best among the tied rows is best among the tied candidates |
| Matching.TieBreakPicks | cenpy/utilities.py:104-110 | after a tie-break the winner has the best secondary score among the considered candidates at the best primary score, and the smallest position among those that equal it |
| Matching.TwoRowsTiedIff | cenpy/utilities.py:109 | two rows tie in both scores exactly when two considered candidates do |
| Matching.WarnsIffDoubleTie | cenpy/utilities.py:109-118 | a warning is issued exactly when two considered candidates share both the best primary score and the winner's secondary score |
| Matching.TiedNameIff | cenpy/utilities.py:107-115 | a name belongs to a row of the chosen-from table at its best primary score with a given secondary score exactly when it is a considered candidate with those scores |
| Matching.WarningNames | cenpy/utilities.py:109-118 | the warning names the query and the winner, and lists at least two names, the winner first; a name is listed exactly when it is a considered candidate tied with the winner in both scores |
| Matching.ReturnedTable | cenpy/utilities.py:65-66 | with `return_table` the table is returned sorted ascending by primary score, with one row per considered candidate, and with `score2` exactly when the tie-break ran; without `return_table` no table is returned |
| Matching.ExactNameWins | cenpy/utilities.py:96-105 | a considered candidate spelled like the place name, up to case, wins over candidates that only contain it, given the scorer properties listed under Left out |
| Columns.ConvertAll | cenpy/utilities.py:76 | `astype` succeeds exactly when every cell converts, and then holds each cell's conversion at the same position |
| Columns.Coerce | cenpy/utilities.py:70-78 | `_coerce` returns the column unchanged exactly when some cell fails to convert; otherwise it returns each cell converted, in order |
| Columns.CoerceRoundTrip | cenpy/utilities.py:70-78 | if the conversion can be undone, undoing a successful coercion gives the original column back |
| Columns.BlankedCells | cenpy/utilities.py:87-91 | after blanking, a cell is NaN exactly when it was NaN or held one of the codes; every other cell is kept; no code remains |
| Columns.BlankedStep | cenpy/utilities.py:89-90 | replacing the codes one at a time is the same as replacing them all at once |
| Columns.BlankedIdempotent | cenpy/utilities.py:81-91 | cleaning a cleaned column changes nothing |
| Columns.ReplaceCode | cenpy/utilities.py:90 | `replace(code, nan, inplace=True)` blanks that one code in the column, in place |
| Columns.ReplaceMissing | cenpy/utilities.py:81-91 | `_replace_missing` blanks all six codes in the same column, in place, keeps its length, and returns that column |
| Columns.CanIntChar | cenpy/utilities.py:123-129 | on a single character, `_can_int` holds exactly for the digits 0 to 9 |

## Left out

- `util.py` and its `Connection` class are not part of this model. They issue HTTP requests and depend on a registry that is not shown.
- The scorers `fuzz.partial_ratio` and `fuzz.ratio` are not modelled. They come from an external library, and the model takes them as parameters into 0..100.
- Matching.ExactNameWins: it assumes that every string scores 100 against itself under `partial`, and that `ratio` gives 100 only to identical strings. With `fuzz.ratio`, two long strings that differ slightly can round to 100, and then the exact name is not guaranteed to win.
- Text.Strip, Text.Lower and Columns.CanInt: only ASCII whitespace, ASCII upper-case letters and the ASCII digits are recognised. Python also accepts Unicode whitespace, case mappings and decimal digits.
- Columns.CanInt: only decimal text is modelled, with its sign, surrounding whitespace and underscores between digits. Other inputs that `int()` accepts or rejects in other ways, such as non-string arguments that raise TypeError, are not modelled.
- Columns.Coerce: the pandas dtype machinery is reduced to an element conversion that either succeeds or fails. Only ValueError is caught, and an exception of any other kind is not modelled.
- Columns.ReplaceMissing: a cell is an integer or NaN. Float columns, and the float comparison pandas applies when replacing, are not modelled.
- Tables.SortBy: the order pandas gives to rows with equal scores is not modelled. The model sorts by insertion, and its contract promises only an ascending permutation.
- The `warn` call is not modelled as a side effect. Its message becomes the `Ambiguity` value returned with the match, which holds the query, the chosen candidate and the tied names, not the formatted text.
- The winner is returned as the whole row. The pandas Series `rowmax` it stands for also carries the row's index label as its name.
- The missing imports of `pandas`, `numpy`, `fuzz` and `warn` in `cenpy/utilities.py` are not modelled. The model assumes the behaviour those libraries document.

## Findings

| source | as written | input that shows it | evidently intended | confidence | as-written member | corrected member |
|---|---|---|---|---|---|---|
| cenpy/utilities.py:31-36 | the error message for a malformed query formats `target`, which no branch has bound on that path, so the call raises UnboundLocalError | `"a,b,c"` | an AssertionError that names the malformed query | high, not executed | Matching.SplitQueryAsWritten | Matching.SplitQuery |
