# Smith-Waterman local alignment, modelled in Dafny

This project models the alignment engine of `smith_waterman.py`. The engine has three parts:

- The scoring function `cmatch`.
- The row-major fill of the score matrix and of the direction matrix. The direction matrix holds the list of `d`, `u`, `l`, `n` tags of every cell. The fill also tracks `current_max` and every cell `current_max_pos` that attains it.
- The single-path traceback. It starts from the last cell in `current_max_pos` and follows the first tag of every cell until it reaches a boundary cell or an `n`-first cell. It builds `alignA`, `matches`, `alignB` and the visited cells `color`, then reverses the three rows.

Modules:

- `Scoring` (`scoring.dfy`): the scoring scheme and `CMatch`.
- `ScoreMatrix` (`matrix.dfy`):
  - the recurrence as specification functions: `Score`, `Candidate`, `TiedTags`, `Tags`, `ScoreTable`, `TagTable`;
  - `Recurrence`, the recurrence stated cell by cell over any pair of tables, which the tables of `Score` and `Tags` obey;
  - the imperative sweep `Sweep`, proved against any tables that obey the recurrence, with its loop body `FillCell` / `AppendTies` and the maximum update `TrackMax`;
  - `Fill`, the sweep over the tables of `Score` and `Tags`.
  - The matrices are `seq<seq<…>>` values that the fill reassigns cell by cell, like the nested Python lists it updates.
- `TracebackPath` (`traceback.dfy`):
  - `Move` is one iteration of the traceback loop.
  - `Path` gives the four lists as the loop leaves them.
  - `Reversed` is the final reversal.
  - `Traceback` is the imperative `while` loop, with its body `TraceStep`, proved equal to `Reversed(Path(…))`.
- `SmithWaterman` (`smith_waterman.dfy`): `Align`, the body of `main` without argument parsing or printing.
- `Scenarios` (`scenarios.dfy`): worked inputs.

The model follows the code where it departs from the textbook algorithm. In a textbook traceback, an up move puts a symbol of the first sequence against a gap in the second. The code does the opposite for both gap moves:
- On a `u` step it appends `'-'` to `alignA` and `seq1[x-1]` to `alignB` (lines 167-171).
- On an `l` step it appends `seq2[y-1]` to `alignA` and `'-'` to `alignB` (lines 173-177).

`Move` reproduces this as written, and `Scenarios.GapRowsSwapped` shows it on a concrete input. Other points where the model follows the code:
- The traceback may pass through a cell of value 0 whose first tag is `d` (`Scenarios.TracebackThroughZero`).
- `color` keeps start-first order and is not reversed.
- With an empty sequence, `current_max` stays -1 and nothing is traced.

## Model

| member | source | states |
|---|---|---|
| Scoring.CMatch | smith_waterman.py:25-29 | equal symbols score the match value and different symbols the mismatch value |
| ScoreMatrix.Max4 | smith_waterman.py:117 | `max` of the four candidates is at least each of them and equal to one of them |
| ScoreMatrix.Score | smith_waterman.py:94-117 | every entry of the score matrix is at least 0 |
| ScoreMatrix.CellRecurrence | smith_waterman.py:110-134 | an interior entry is the largest of diag, up, left and 0, and its tags are exactly the ties among them |
| ScoreMatrix.TablesObeyRecurrence | smith_waterman.py:94-134 | at every cell the tables of `Score` and `Tags` obey the recurrence: a boundary cell holds 0 and no tag; an interior cell holds the largest of diag, up, left and 0, and exactly the tags of the candidates that tie it |
| ScoreMatrix.TiedTags | smith_waterman.py:127-134 | `d`, `u`, `l` are recorded iff the matching candidate equals the entry, and `n` iff the entry is 0 |
| ScoreMatrix.TiedTagsOrdered | smith_waterman.py:127-134 | the recorded tags appear in d, u, l, n order without repeats |
| ScoreMatrix.TiedTagsByAppending | smith_waterman.py:127-134 | the tag list is the concatenation of the four conditional appends, in source order |
| ScoreMatrix.Tags | smith_waterman.py:96-134 | boundary lists stay empty; an interior list is non-empty and ordered, and holds each tag iff its candidate ties the entry (`n` iff the entry is 0) |
| ScoreMatrix.AppendTies | smith_waterman.py:127-134 | the four `if ... append` statements on an empty list build exactly the tied tags |
| ScoreMatrix.FilledInitially | smith_waterman.py:93-101 | the zero matrix and the empty lists the program starts from already hold every boundary entry of tables that obey the recurrence |
| ScoreMatrix.FillCell | smith_waterman.py:110-134 | when the three neighbours it reads hold their table entries, one pass of the inner loop stores the recurrence value and the tag list of cell (i, j) and changes no other cell |
| ScoreMatrix.TrackMax | smith_waterman.py:119-124 | after cell (i, j), `current_max` is the largest entry swept so far (-1 before any), and `current_max_pos` lists, in sweep order, exactly the swept cells holding it |
| ScoreMatrix.FillDone | smith_waterman.py:104-124 | after the sweep, the tracked maximum is the maximum over all interior cells and the list holds every interior cell attaining it; it is -1 with an empty list when a sequence is empty |
| ScoreMatrix.Sweep | smith_waterman.py:93-134 | for any tables that obey the recurrence, the matrices end equal to them. The tracked maximum is the largest interior entry and its list holds, in sweep order, every interior cell attaining it; it stays -1 with an empty list when a sequence is empty |
| ScoreMatrix.Fill | smith_waterman.py:94-134 | the filled matrices equal the recurrence tables at every cell, and the maximum and its positions are as in FillDone |
| TracebackPath.Reverse | smith_waterman.py:181-183 | `list.reverse()`: same length, element k is element n-1-k of the input |
| TracebackPath.FilledIsTraceable | smith_waterman.py:127-134 | every interior cell of the filled direction matrix has a first tag, so `direction[x][y][0]` is defined wherever the loop reads it |
| TracebackPath.Move | smith_waterman.py:155-177 | one loop iteration follows the first tag. A `d` step moves diagonally and emits `seq1[x-1]`, the match marker (a bar) or `'X'`, and `seq2[y-1]`. A `u` step moves up and emits `'-'`, `' '`, `seq1[x-1]`. An `l` step moves left and emits `seq2[y-1]`, `' '`, `'-'`. The move strictly decreases x + y |
| TracebackPath.TraceStep | smith_waterman.py:155-177 | one pass of the loop body records the cell, appends exactly the column `Move` names to the three rows, and moves to the cell `Move` names |
| TracebackPath.Path | smith_waterman.py:142-178 | the loop's rows have equal length, `color` is one longer, and `color` starts at the start cell |
| TracebackPath.PathFollowsFirstTags | smith_waterman.py:153-178 | every recorded cell steps to the next by its first tag, emitting that column. The walk ends on a cell no later than the start where `x>0 and y>0 and direction[x][y][0] != 'n'` fails, and that end cell is the last entry of `color` |
| TracebackPath.Reversed | smith_waterman.py:180-183 | the three rows are reversed into reading order and `color` is left as it is |
| TracebackPath.Markers | smith_waterman.py:153-183 | column k of the printed rows is exactly the iteration from the (n-1-k)-th visited cell: by that cell's first tag, a `d` column holds `seq1[x-1]`, the bar marker or `'X'` as the symbols are equal or not, and `seq2[y-1]`; a `u` column `'-'`, `' '`, `seq1[x-1]`; an `l` column `seq2[y-1]`, `' '`, `'-'` |
| TracebackPath.FirstTagScore | smith_waterman.py:110-134 | on tables that obey the recurrence, an interior cell's tag list is non-empty and its first tag names a candidate equal to the cell's value (`n`: the value is 0) |
| TracebackPath.StepScore | smith_waterman.py:156-177 | on tables that obey the recurrence, a step loses exactly the match, mismatch or gap score of the column it emits |
| TracebackPath.PathScore | smith_waterman.py:110-178 | on tables that obey the recurrence, the start cell's value is the sum of the scores of the emitted columns |
| TracebackPath.MarkerScoreCounts | smith_waterman.py:156-177 | a marker row scores (number of bars)·match + (number of 'X')·mismatch + (number of ' ')·gap |
| TracebackPath.PathEndsOnZero | smith_waterman.py:153-178 | on tables that obey the recurrence, the traceback ends on a cell of value 0: a boundary cell, or an `n`-first cell |
| TracebackPath.Traceback | smith_waterman.py:142-183 | the loop and the reversals produce exactly `Reversed(Path(start))` |
| SmithWaterman.LastMaxIsLatest | smith_waterman.py:119-124 | the last entry of `current_max_pos` is an interior cell holding the maximum, and no cell holding it comes later in sweep order |
| SmithWaterman.ScoreOfAlignment | smith_waterman.py:153-183 | the printed marker row accounts for the start value: (number of bars)·match + (number of 'X')·mismatch + (number of ' ')·gap |
| SmithWaterman.Align | smith_waterman.py:94-183 | with an empty sequence, -1 and no alignment. Otherwise the score is the interior maximum, the alignment is traced from the last maximal cell in sweep order, and the markers account for the score |
| Scenarios.ActAgtScores | smith_waterman.py:108-117 | the score matrix of "ACT" against "AGT" under 3/-3/-2 |
| Scenarios.ActAgtMaxCells | smith_waterman.py:108-117 | in "ACT" against "AGT" no interior entry exceeds 3, and exactly (1, 1) and (3, 3) hold 3 |
| Scenarios.ActAgtMaxTracked | smith_waterman.py:119-124 | the sweep over that input tracks the maximum 3 with positions (1, 1) then (3, 3) |
| Scenarios.ActAgtStartsAtLastTie | smith_waterman.py:119-143 | whatever the sweep leaves for that input, the score is 3 and the traced start is (3, 3), the later of the two tied cells |
| Scenarios.ActAgtTags | smith_waterman.py:127-134 | the cell of value 0 at (2, 2) records `[d, n]` |
| Scenarios.ActAgtPath | smith_waterman.py:153-178 | the loop's lists for that input, started from (3, 3) |
| Scenarios.TracebackThroughZero | smith_waterman.py:153-183 | the traceback passes through the 0-valued cell (2, 2) because its first tag is `d`, printing ACT over AGT with markers match, mismatch, match |
| Scenarios.AcaAaScores | smith_waterman.py:108-117 | the entries of "ACA" against "AA" under 5/-5/-1 that the traceback reads |
| Scenarios.GapRowsSwapped | smith_waterman.py:167-171 | the skipped 'C' of the first sequence is printed in the second row and the gap in the first: rows A-A and ACA, markers match, gap, match |

## Left out

- Argument parsing and the default scores (+3, -3, -2) of `main` are not modelled. The two sequences and the three scores are parameters of `Align`.
- `upper()` on the input sequences is not modelled. The model takes the sequences as given, and case folding is outside Dafny's `char` model.
- The printing of the sequences, the score and the alignment is not modelled. Neither are `pprint`, `pprint_color` and the colour codes. They only display values that the model returns.
- The `for pair in current_max_pos[-1:]` loop runs at most once. It is modelled as a conditional on a non-empty `current_max_pos`.
- An exhaustive traceback over all tied paths, and a filter on match streaks, are not modelled. No code for them exists in `smith_waterman.py`.
- `matrix` and `direction` are modelled as `seq<seq<…>>` values that the fill reassigns. Aliasing of the nested Python lists plays no role in the source.
- Python integers are unbounded, and so are Dafny's, so no wrap-around is modelled.
