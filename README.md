# Exact Gaussian elimination with full pivoting

This project models `task01/task01.py` in Dafny. The file is a solver for
linear systems `A x = b` over the rationals. It works in five stages:

1. `check_matrix` checks the shape of the matrix.
2. `to_row_echelon_form` reduces the matrix in place by Gaussian
   elimination with full pivoting. At each step `find_max` brings the entry
   of largest magnitude to the diagonal by a row swap and a column swap.
   The rows below the pivot then get multiples of the pivot row added.
   Every operation is recorded in an action log.
3. `apply_actions_to_column` replays the log on the free column.
4. `solve` back-substitutes from the last row up. Each unknown gets one slot:
   - `Unset`: the Python `None`, a free unknown.
   - `Fixed(v)`: a number.
   - `Param(coefficients)`: a parametric row, the unknown as an affine
     combination of the other unknowns.
5. `solve` undoes the column swaps on the slots, in reverse log order.

Python's `Fraction` is modelled by Dafny's `real`, which is exact. The
matrix is an `array<seq<real>>`, since its rows are reassigned in place.
The free column is an `array<real>`. Each Python function that mutates
state is a method. Its postcondition ties the new state, or its result, to
a specification function on sequences. The properties of the solver are
lemmas about those functions.

The modules follow the stages:

- `Results`: `Option` and `Result`.
- `Matrices`: the matrix type, shape predicates, `Swapped`.
- `RowOps`: `swap_rows`, `swap_columns`, `add_row`.
- `Actions`: the action log and the effect of applying a log.
- `Validation`: `check_matrix`.
- `Pivot`: `find_max`.
- `Elimination`: the elimination loop as functions and as methods.
- `EchelonForm`: what the elimination guarantees — the row echelon form,
  the largest pivot, and the ordered log that replays it.
- `Replay`: `apply_actions_to_column`, both as written and as intended.
- `Linear`: dot products and `Solves`.
- `Equivalence`: every action keeps the solution set, up to the renaming of
  unknowns that a column swap makes.
- `BackSubstitution`: lines 91-124 of `solve`, with their exactness
  theorem.
- `Solver`: `solve` end to end.
- `Examples`: the three systems of `task01/gaussian_method_test.py`, plus
  the solution set of the underdetermined system
  (`Examples.UnderdeterminedFamily`).

The central result is `Solver.SolveCharacterises`. When `solve` succeeds,
`y` solves `m y = b` exactly when `y`, with the log's column swaps redone,
satisfies every slot that the back-substitution produced. When `solve`
reports that there is no solution, there is none (`Solver.SolveNoSolution`).

## Model

| member | source | states |
|---|---|---|
| Matrices.Abs | task01/task01.py:42 | the magnitude `abs(x)` is non-negative and equals `x` or `-x` |
| Matrices.Min | task01/task01.py:51 | `min(a, b)` is at most both arguments and equals one of them |
| Matrices.Swapped | task01/task01.py:25 | the tuple assignment exchanges exactly entries `i` and `j`, keeps every other entry and the length |
| Matrices.SwappedTwice | task01/task01.py:24-25 | the same exchange done twice restores the sequence |
| RowOps.ColumnsSwapped | task01/task01.py:28-30 | every row has its entries `i` and `j` exchanged and the number of rows is kept |
| RowOps.RowAdded | task01/task01.py:33-35 | only row `target` changes, each of its entries becomes `old + coef * m[source][c]`, and the shape is kept |
| RowOps.RowSwapInvolution | task01/task01.py:24-25 | a row swap keeps the shape, and doing it twice restores the matrix |
| RowOps.ColumnSwapInvolution | task01/task01.py:28-30 | a column swap keeps the shape and every entry outside columns `i` and `j`, and doing it twice restores the matrix |
| RowOps.RowAddedInverse | task01/task01.py:33-35 | adding `-coef` times the same source row undoes a row addition between two distinct rows |
| RowOps.SwapRows | task01/task01.py:24-25 | `swap_rows` leaves exactly the matrix with rows `i` and `j` exchanged |
| RowOps.SwapColumns | task01/task01.py:28-30 | `swap_columns`, row by row, leaves exactly the matrix with columns `i` and `j` exchanged |
| RowOps.AddRow | task01/task01.py:33-35 | `add_row`, entry by entry over the full width, leaves exactly the matrix with the multiple of row `source` added to row `target` |
| Actions.OrderedAppend | task01/task01.py:50-73 | two ordered logs, every action of the first recorded before every action of the second, form an ordered log |
| Actions.ApplyAction | task01/task01.py:58-73 | an action the elimination can record keeps the shape of the matrix |
| Actions.ApplyActions | task01/task01.py:50-73 | a log of such actions keeps the shape of the matrix |
| Actions.ApplyActionsSingle | task01/task01.py:58-73 | a log of one action does what that action does |
| Actions.ApplyActionsAppend | task01/task01.py:50-73 | applying a concatenated log means applying the first part, then the second |
| Validation.CheckMatrix | task01/task01.py:9-21 | `check_matrix` raises "empty matrix" exactly for an empty matrix, and the row-length error exactly for a non-empty matrix with a zero-length or ragged row; otherwise it returns, and the matrix is rectangular with non-zero width |
| Pivot.ScanFrom | task01/task01.py:40-44 | the row-major scan of the trailing block that keeps the first entry of strictly larger magnitude; `Pivot.ScanFindsFirstMax` states what it finds |
| Pivot.MaxOf | task01/task01.py:38-45 | the result of `find_max(m, start)`, the scan started at `(start, start)`; `Pivot.MaxOfIsFirstMax` states that it is the first maximum |
| Pivot.ScanFindsFirstMax | task01/task01.py:40-44 | the row-major scan, started in a state that keeps its invariant, ends on the first cell of largest magnitude in the trailing block |
| Pivot.MaxOfIsFirstMax | task01/task01.py:38-45 | `find_max` returns a cell of the trailing block, its magnitude, no smaller than any entry of the block, and the first such cell in row-major order |
| Pivot.FirstMaxIsUnique | task01/task01.py:38-45 | the first maximum is unique, so this property determines the result |
| Pivot.MaxOfTieBreak | task01/task01.py:39-44 | the place is `(start, start)` exactly when the diagonal entry already has the largest magnitude; the scan replaces it only with a strictly larger entry |
| Pivot.MaxOfZero | task01/task01.py:55-56 | the maximum is zero exactly when the whole trailing block is zero |
| Pivot.FindMax | task01/task01.py:38-45 | the nested loop with its running maximum returns the scan's result, which is the first maximum of the block |
| Elimination.RowSwapLog | task01/task01.py:58-60 | the row swap logged at step `i`: one entry exactly when the pivot is not in row `i`; `Elimination.PivotToDiagonal` appends it |
| Elimination.ColumnSwapLog | task01/task01.py:63-65 | the column swap logged at step `i`: one entry exactly when the pivot is not in column `i`; `Elimination.PivotToDiagonal` appends it |
| Elimination.PivotSwaps | task01/task01.py:58-66 | after the row swap and the column swap, the chosen pivot sits at `(i, i)` and the shape is kept |
| Elimination.EliminationCoef | task01/task01.py:71 | the coefficient `-m[row][i] / m[i][i]`; `EchelonForm.CoefClears` states that adding that multiple of the pivot row zeroes the entry below the pivot |
| Elimination.EliminateBelow | task01/task01.py:68-73 | the additions below the pivot keep the shape, and they leave the pivot row itself unchanged |
| Elimination.Step | task01/task01.py:52-73 | one step at a non-zero pivot keeps the shape |
| Elimination.StepsFrom | task01/task01.py:51-75 | the loop keeps the shape and completes at most `min(len(m), len(m[0]))` steps |
| Elimination.StepsFromStops | task01/task01.py:55-56 | when no step is left, or the pivot is zero, the loop returns the log so far and leaves the matrix alone |
| Elimination.StepsFromUnfolds | task01/task01.py:52-66 | at a non-zero pivot the chosen cell is the first maximum, the swapped matrix has a non-zero diagonal entry `(i, i)`, and the step continues from there |
| Elimination.StoppingKeepsGoal | task01/task01.py:55-56 | the loop invariant gives the final result when the loop returns early or finishes |
| Elimination.PivotingKeepsGoal | task01/task01.py:58-66 | the loop invariant survives the swaps of a step |
| Elimination.AfterPivotSkips | task01/task01.py:69-70 | a row whose entry in the pivot column is already zero is skipped without a log entry |
| Elimination.AfterPivotAdds | task01/task01.py:71-73 | any other row gets one logged row addition with the coefficient of line 71 |
| Elimination.AfterPivotEnds | task01/task01.py:68-73 | past the last row, the step is over and the next step begins |
| Elimination.AfterPivot | task01/task01.py:68-75 | what is left of step `i` once the pivot is in place: the additions from `row` on, then the remaining steps; `Elimination.StepsFromUnfolds` and `Elimination.AfterPivotSkips`, `AfterPivotAdds`, `AfterPivotEnds` state how it unfolds |
| Elimination.Eliminate | task01/task01.py:48-75 | `to_row_echelon_form`: the shape error of `check_matrix`, or the elimination from step 0; `Elimination.ToRowEchelonForm` computes it in place |
| Elimination.PivotToDiagonal | task01/task01.py:58-66 | the in-place swaps leave the swapped matrix and append exactly the swaps of the step to the log |
| Elimination.ClearBelow | task01/task01.py:68-73 | the in-place additions leave exactly the matrix of lines 68-73 and append exactly their row additions to the log, so the rest of the elimination gives the same result |
| Elimination.ToRowEchelonForm | task01/task01.py:48-75 | on a bad shape it raises before touching the matrix; otherwise it returns the log of the elimination and leaves the matrix reduced |
| EchelonForm.CoefClears | task01/task01.py:71-73 | the coefficient of line 71 makes the target entry zero |
| EchelonForm.PivotSwapsKeepReduced | task01/task01.py:58-66 | the swaps of step `i` keep the earlier pivot columns reduced |
| EchelonForm.EliminateBelowClears | task01/task01.py:68-73 | the additions make every entry below the pivot zero and keep the earlier columns reduced |
| EchelonForm.StepReduces | task01/task01.py:52-73 | one step at a non-zero pivot reduces one more column: non-zero on the diagonal, zero below |
| EchelonForm.StopReduces | task01/task01.py:55-56 | when the loop stops, the matrix is left in row echelon form for the steps done |
| EchelonForm.StepsFromStep | task01/task01.py:51-73 | a step keeps the matrix rectangular, keeps the number of possible steps, and its log comes first in the final log |
| EchelonForm.StepsFromReduces | task01/task01.py:51-75 | the loop ends with `rank` reduced columns, each with a non-zero diagonal entry and zeros below, and with an all-zero trailing block when it stopped early |
| EchelonForm.PivotIsLargest | task01/task01.py:52-66 | the chosen pivot lies in the trailing block, and after the swaps no entry of that block is larger in magnitude than the entry at `(i, i)` |
| EchelonForm.SwapLogOrdered | task01/task01.py:58-66 | the swaps of step `i` are recorded by step `i`, the row swap before the column swap |
| EchelonForm.PivotSwapsLog | task01/task01.py:58-66 | every logged swap has first `i` and a larger second index, and applying the logged swaps gives the swapped matrix |
| EchelonForm.EliminateBelowLog | task01/task01.py:68-73 | every logged addition has source `i` and a larger target, the targets rise down the matrix, and applying the additions gives the matrix the step leaves |
| EchelonForm.StepLogOrdered | task01/task01.py:58-73 | a step's log is ordered: swaps first, then additions |
| EchelonForm.StepsLogOrdered | task01/task01.py:51-75 | the log of one step followed by the log of the later steps is ordered by step |
| EchelonForm.StepLog | task01/task01.py:52-73 | the log of one step is well formed, ordered, recorded by that step, and replays the step |
| EchelonForm.PrependLog | task01/task01.py:51-73 | a step's log, put before a log recorded by the later steps, is a log recorded from that step on |
| EchelonForm.StepShape | task01/task01.py:52-73 | a step keeps the matrix rectangular and keeps `min(len(m), len(m[0]))` |
| EchelonForm.StepLogFrom | task01/task01.py:51-73 | a step followed by later steps with a valid log gives the loop a valid log from that step on |
| EchelonForm.StopLogFrom | task01/task01.py:55-56 | a loop that stops records nothing more, and its empty log replays nothing |
| EchelonForm.StepsFromLogFrom | task01/task01.py:51-75 | the log recorded from step `i` on is well formed, ordered, recorded by steps `i..rank`, and replays the elimination |
| EchelonForm.StepsLogFrom | task01/task01.py:52-75 | at a non-zero pivot, the log of step `i` and of every later step is well formed, ordered by step, and replays the elimination |
| EchelonForm.EliminationIsEchelon | task01/task01.py:48-75 | `to_row_echelon_form` leaves a row echelon form with `rank` non-zero diagonal pivots and zeros below them, and an all-zero block when `rank < min(len(m), len(m[0]))` |
| EchelonForm.EliminationLog | task01/task01.py:48-75 | the returned log has only well-formed actions (swaps `(i, larger)`, additions from `i` to a row below), is ordered by step, and applied in order replays the elimination |
| Replay.ReplayAction | task01/task01.py:80-84 | one replayed action keeps the length of the column |
| Replay.ReplayOnColumn | task01/task01.py:78-84 | the intended replay keeps the length of the column |
| Replay.ApplyActionsToColumn | task01/task01.py:78-84 | the in-place loop leaves the column with the intended replay of the log |
| Replay.ReplayAsWritten | task01/task01.py:79-84 | the replay as written keeps the column length whenever it does not raise |
| Replay.ReplayAsWrittenCrashes | task01/task01.py:83 | the replay as written succeeds exactly when every action is a row swap, and then it agrees with the intended replay; any column swap or row addition raises `NameError` |
| Replay.Augmented | task01/task01.py:88-89 | appending the free column as the last column keeps each row and adds its entry of the column |
| Replay.ValidLogWidens | task01/task01.py:88-89 | a log valid for the matrix is valid for the augmented matrix and fits the free column |
| Replay.ReplayActionAugmented | task01/task01.py:80-84 | one action on the augmented matrix is that action on the matrix and its replay on the free column |
| Replay.ReplayIsAugmentedElimination | task01/task01.py:88-89 | replaying the log on the free column is carrying the column along as the last column of the augmented matrix during the elimination |
| Equivalence.UndoAction | task01/task01.py:127-129 | undoing one action on the solution keeps its length |
| Equivalence.UndoColumnSwaps | task01/task01.py:126-129 | walking the log in reverse keeps the length of the solution |
| Equivalence.RedoColumnSwaps | task01/task01.py:126-129 | doing the column swaps of the log in order keeps the length of the solution |
| Equivalence.UndoActionTwice | task01/task01.py:127-129 | undoing the same action twice restores the solution |
| Equivalence.UndoRedo | task01/task01.py:126-129 | undoing the column swaps in reverse and redoing them in order are inverse to each other |
| Equivalence.ValidLogFits | task01/task01.py:88-89 | a log valid for the matrix fits the free column and the solution |
| Equivalence.RowSwapPreservesSolutions | task01/task01.py:59-61 | a row swap on the matrix and on the free column keeps exactly the same solutions |
| Equivalence.ColumnSwapPreservesSolutions | task01/task01.py:63-66 | after a column swap, `x` solves the system exactly when `x` with the two unknowns exchanged solves the original one |
| Equivalence.RowAdditionPreservesSolutions | task01/task01.py:71-73 | a row addition on the matrix and on the free column keeps exactly the same solutions |
| Equivalence.ActionPreservesSolutions | task01/task01.py:58-73 | each recorded action, applied to the matrix and replayed on the column, keeps the solutions up to its column swap |
| Equivalence.LogPreservesSolutions | task01/task01.py:88-89 | `x` solves the reduced system exactly when `x` with the column swaps undone in reverse solves the original one |
| BackSubstitution.ScanRow | task01/task01.py:98-104 | the scan of a row can fail only because a non-zero entry meets a parametric slot |
| BackSubstitution.ScanStep | task01/task01.py:99-104 | one column of the scan can fail only in that way |
| BackSubstitution.ScanRowFails | task01/task01.py:104 | the scan fails exactly when some non-zero entry of the row meets a parametric slot |
| BackSubstitution.ScanRowCounts | task01/task01.py:100-101 | `new_vars` is the number of columns with a non-zero entry and an unset slot |
| BackSubstitution.ScanRowSums | task01/task01.py:103-104 | `left_sum` is the row times the values of the fixed slots |
| BackSubstitution.ScanRowFindsFirst | task01/task01.py:102 | `new_var_pos` is the first new unknown, or `len(m[0])` when there is none |
| BackSubstitution.ScanRowMeaning | task01/task01.py:95-104 | the scan's failure case, count, first position and sum together, in both directions |
| BackSubstitution.ScanRowFinds | task01/task01.py:98-104 | after a successful scan with new unknowns, `new_var_pos` is a new unknown and no earlier column is |
| BackSubstitution.ScanZeroRow | task01/task01.py:98-104 | a zero row brings no new unknown, sums to zero, and keeps `new_var_pos = len(m[0])` |
| BackSubstitution.ParamCoef | task01/task01.py:118-120 | the coefficient of column `c` in the parametric row: `-m[row][c] / m[row][p]` for another new unknown `c`, zero otherwise; `BackSubstitution.ParamCoefs` builds the row from it |
| BackSubstitution.ParamCoefs | task01/task01.py:113-122 | one coefficient per column: `-m[row][c] / m[row][p]` for every other new unknown `c`, and zero otherwise |
| BackSubstitution.ParamRow | task01/task01.py:112-124 | the parametric row has `cols + 1` entries: zero at `new_var_pos` and at every column before it, and the constant term `(b - left_sum) / m[row][p]` last |
| BackSubstitution.RowStep | task01/task01.py:106-124 | one row step never changes a slot already set, keeps the number of slots, and fails only with no solution or a parametric slot in the sum |
| BackSubstitution.BackSubFrom | task01/task01.py:94-124 | the pass from the last row up keeps the number of slots and fails only in those two ways |
| BackSubstitution.AllUnset | task01/task01.py:93 | `[None] * col_num`: `n` slots, all unset |
| BackSubstitution.ConsistentUpdate | task01/task01.py:108-112 | setting a slot that was `None` adds exactly what the new slot demands of `x` |
| BackSubstitution.ConsistentExtends | task01/task01.py:106-124 | a state that keeps every set slot asks at least as much of `x` |
| BackSubstitution.NoNewRow | task01/task01.py:106-107 | with no new unknown, the row's left-hand side is `left_sum` for every `x` that agrees with the slots |
| BackSubstitution.NewRow | task01/task01.py:111-124 | with new unknowns, the left-hand side is `left_sum` plus the pivot entry times `x[p]` minus the parametric row applied to `x` |
| BackSubstitution.OneNewStep | task01/task01.py:108-110 | fixing the only new unknown to `(b - left_sum) / m[row][p]` is consistent with `x` exactly when `x` satisfies that row's equation |
| BackSubstitution.ManyNewStep | task01/task01.py:111-124 | making the first new unknown the parametric row is consistent with `x` exactly when `x` satisfies that row's equation |
| BackSubstitution.RowStepIff | task01/task01.py:95-124 | for `x` already consistent, the row step raises no solution only when `x` fails the row; on success `x` stays consistent exactly when it satisfies the row |
| BackSubstitution.BackSubFromIff | task01/task01.py:94-124 | from row `r - 1` up, consistency with the result is the same as satisfying every row, and no solution means no `x` satisfies them |
| BackSubstitution.BackSubstitutionCorrect | task01/task01.py:91-124 | on success, the solutions of the reduced system are exactly the vectors consistent with every slot; the no-solution error means there is no solution |
| BackSubstitution.BackSubstitution | task01/task01.py:91-124 | lines 91-124 over every row from the last one up, starting from `[None] * col_num`; `BackSubstitution.BackSubstitutionCorrect` states its exactness |
| BackSubstitution.BackSubFromWellFormed | task01/task01.py:112-124 | every parametric slot made from row `r - 1` up has `cols + 1` entries and zeros at its own column and before it |
| BackSubstitution.BackSubFromZero | task01/task01.py:94-107 | zero rows with zero free terms never raise and leave every slot as it was |
| BackSubstitution.BackSubstitutionWellFormed | task01/task01.py:111-124 | a successful back-substitution returns one slot per column, each parametric slot well formed |
| BackSubstitution.ScanRowOf | task01/task01.py:95-104 | the loop over the columns with its three accumulators computes the scan |
| BackSubstitution.ParamRowOf | task01/task01.py:112-124 | the loop appending coefficients builds the parametric row |
| BackSubstitution.BackSubstitute | task01/task01.py:91-124 | the nested loops from the last row up compute the back-substitution |
| Solver.ReducesShape | task01/task01.py:88-89 | a reduction keeps the shape, and its log fits the free column and the solution |
| Solver.ReducedSlots | task01/task01.py:88-124 | the slots of the reduced system: one per column, every parametric slot well formed |
| Solver.SolveWith | task01/task01.py:88-130 | after a reduction, `solve` returns one slot per column |
| Solver.FixedAgreeAction | task01/task01.py:127-129 | undoing a swap on the slots and on the unknowns alike keeps agreement with the fixed slots, and keeps the absence of parametric slots |
| Solver.FixedAgreeUndo | task01/task01.py:126-129 | the same for the whole reverse walk of the log |
| Solver.ConsistentAgrees | task01/task01.py:108-124 | consistency with the slots implies agreement with the fixed ones, and without parametric slots it means no more than that |
| Solver.ReducedCharacterises | task01/task01.py:88-124 | after any reduction, `y` solves `m y = b` exactly when `y`, with the column swaps redone, is consistent with the reduced slots; no solution is reported only when there is none |
| Solver.SolveWithAgrees | task01/task01.py:126-130 | every solution has the value of each fixed slot after the undo; without parametric slots this is all a solution must satisfy |
| Solver.SolveSpec | task01/task01.py:87-130 | `solve` as a function of the input system, with the intended replay of the free column; `Solver.SolveCharacterises` states what its result means |
| Solver.SolveShapeError | task01/task01.py:49 | `solve` raises a shape error exactly when `check_matrix` does, and it is the same error |
| Solver.SolveLength | task01/task01.py:93 | a successful `solve` returns exactly `len(m[0])` slots |
| Solver.SolveNoSolution | task01/task01.py:106-107 | "the equation has no solution" is raised only when `m y = b` has no solution |
| Solver.SolveCharacterises | task01/task01.py:87-130 | on success, the result is the reduced slots with the column swaps undone, and `y` solves `m y = b` exactly when `y`, with the swaps redone, is consistent with those slots |
| Solver.SolveFixedForced | task01/task01.py:108-110 | every solution of `m y = b` has the value of each fixed slot `solve` returns, in the original order of the unknowns |
| Solver.SolveExactWithoutParams | task01/task01.py:87-130 | when no slot is parametric, `y` solves `m y = b` exactly when it has the value of every fixed slot; unset slots are free |
| Solver.SolveWitness | task01/task01.py:87-130 | when no slot is parametric, the fixed values, with zero for every free unknown, form a solution |
| Solver.ZeroSystem | task01/task01.py:51-56 | a zero matrix with a zero free column: the elimination stops at step 0 with an empty log, nothing raises, and every unknown is left free |
| Solver.UndoSwaps | task01/task01.py:126-129 | the reverse loop over the log swaps the slots back, the last action first |
| Solver.Solve | task01/task01.py:87-130 | `solve` in place: the result is the specified solution, the matrix ends reduced, and the free column ends with the log replayed; on a shape error both are untouched |
| Examples.IdentityPivots | task01/gaussian_method_test.py:23-29 | every pivot of the identity is its own diagonal one |
| Examples.IdentitySteps | task01/gaussian_method_test.py:23-29 | the identity needs no action: rank 3, empty log |
| Examples.IdentityBackSubstitution | task01/gaussian_method_test.py:23-29 | each row of the identity fixes its own unknown to its free term |
| Examples.IdentitySolve | task01/gaussian_method_test.py:23-29 | `solve` on the 3 by 3 identity returns the free column, for every free column |
| Examples.OverdeterminedPivots | task01/gaussian_method_test.py:40-46 | the pivots of `[[2,3],[3,2],[1,0]]` are `3` at `(0, 1)`, then `5/3` on the diagonal |
| Examples.OverdeterminedSteps | task01/gaussian_method_test.py:40-46 | the elimination records a column swap and two row additions and leaves a zero last row |
| Examples.OverdeterminedReplay | task01/gaussian_method_test.py:40-46 | the intended replay turns `[1, 1, 1]` into `[1, 1/3, 4/5]` |
| Examples.OverdeterminedSolve | task01/gaussian_method_test.py:40-46 | `solve` raises "the equation has no solution" |
| Examples.OverdeterminedReplayAsWritten | task01/gaussian_method_test.py:40-46 | as written, the replay raises `NameError` at the first action, a column swap, so `solve` raises `NameError` at line 83 before line 106 can report no solution |
| Examples.UnderdeterminedPivots | task01/gaussian_method_test.py:31-38 | the pivots are `4.5` at `(2, 1)`, then `1` at `(2, 1)`, then a zero block |
| Examples.UnderdeterminedFirstStep | task01/gaussian_method_test.py:31-38 | step 0 records a row swap, a column swap and one row addition |
| Examples.UnderdeterminedLaterSteps | task01/gaussian_method_test.py:31-38 | step 1 records one row swap, and step 2 stops at a zero block |
| Examples.UnderdeterminedSteps | task01/gaussian_method_test.py:31-38 | the elimination ends with rank 2 and a zero last row |
| Examples.UnderdeterminedReplay | task01/gaussian_method_test.py:31-38 | the intended replay turns `[0, 2, 9]` into `[9, 0, 0]` |
| Examples.UnderdeterminedBackSubstitution | task01/gaussian_method_test.py:31-38 | the reduced system gives a parametric row, a fixed `0` and a free unknown |
| Examples.UnderdeterminedUndo | task01/gaussian_method_test.py:31-38 | undoing the column swap exchanges the first two slots |
| Examples.UnderdeterminedSolve | task01/gaussian_method_test.py:31-38 | `solve` returns `[0, [0, 0, -1, 2], None]`, the first of the two results the test accepts |
| Examples.UnderdeterminedReplayAsWritten | task01/gaussian_method_test.py:31-38 | as written, the replay gets past the row swap and raises `NameError` at the column swap |
| Examples.UnderdeterminedFamily | task01/gaussian_method_test.py:31-38 | the solutions are exactly the `y` with `y[0] = 0` and `y[1] = -y[2] + 2`, which is what the result describes |

## Left out

- The `isinstance` checks of `check_matrix` (lines 10-11, 15-18) and their
  `TypeError`s are left out. Dafny's types already make every input a
  sequence of sequences of rationals.
- The `Fraction` library is not modelled. Dafny's `real` is its exact
  counterpart, with the same field operations.
- Aliasing between rows is not modelled. The matrix is an array of row
  values, so two rows can never be the same Python list.
- `len(free_column) == len(matrix)` is a precondition of `Solve` and of
  `SolveSpec`. The Python code never checks it.
- Line 104: a slot that already holds a parametric row, multiplied by a
  `Fraction`, raises `TypeError`. The model returns the explicit error
  `ParametricSlotInSum`. It does not model the substitution the authors may
  have had in mind.
- Solver.SolveCharacterises: a parametric slot keeps its coefficients in
  the column order of the reduced system, as the code does. Lines 126-129
  move whole slots and never the coefficients inside them. The
  characterisation therefore redoes the column swaps on `y` before
  checking consistency.
- There is no theorem that a square non-singular matrix gives a result
  without parametric slots. `Solver.SolveWitness` and
  `Solver.SolveExactWithoutParams` state what such a result means once
  there are no parametric slots. The non-singular case itself is not
  proved.
- Permutation invariance of the result is not modelled. With ties in
  magnitude, `find_max` keeps the first maximum in row-major order. A
  permuted input can therefore choose a different pivot and return
  different parametric rows for the same set of solutions.
  `Solver.SolveCharacterises` states the invariant part: the set of
  solutions the result describes.
- The test helpers `elem_to_fraction` and `to_fraction` of
  `task01/gaussian_method_test.py` are not modelled. They only convert
  literals to `Fraction`.
- The second expected value of `test_multiple`,
  `[0, None, [0, -1, 0, None]]`, is not modelled. It holds a `None` inside
  a parametric row, which lines 113-124 never produce. The module
  `gaussian_method` that the test imports is not part of this model.
- Line 83 names `RawAddition`, which is not defined, so the replay raises
  `NameError` at every column swap and every row addition. The model
  follows the code (`Replay.ReplayAsWritten`), and the solver uses the
  intended replay.

## Findings

| source | as written | input that shows it | evidently intended | confidence | as-written member | corrected member |
|---|---|---|---|---|---|---|
| task01/task01.py:83 | `elif isinstance(action, RawAddition)` names a class that is defined nowhere, so every action that is not a row swap raises `NameError` | `solve([[2,3],[3,2],[1,0]], [1,1,1])`: the log starts with the column swap `(0, 1)`, which raises `NameError` before the no-solution check is reached | `RowAddition`: row additions are replayed on the free column and column swaps are ignored, so that the reduced system keeps the solutions of the original one | high (not executed) | Replay.ReplayAsWrittenCrashes | Replay.ReplayOnColumn |

The intended property of the corrected replay is proved in two steps.
`Replay.ReplayIsAugmentedElimination` shows that replaying the log on the
free column is carrying the column along during the elimination.
`Equivalence.LogPreservesSolutions` shows that the reduced system has the
solutions of the original one, up to the column swaps. `solve` uses that
corrected replay: `Examples.OverdeterminedSolve` derives the no-solution
error that `test_no_solution` expects.
