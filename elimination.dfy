/**
  `to_row_echelon_form`: Gaussian elimination with full pivoting. At step
  `i` the pivot of largest magnitude of the trailing block is brought to
  `(i, i)` by a row swap and a column swap, then every row below with a
  non-zero entry in column `i` gets a multiple of row `i` added so that the
  entry becomes zero. Every operation is recorded in the action log.
*/
module Elimination {
  import opened Results
  import opened Matrices
  import opened RowOps
  import opened Pivot
  import opened Actions
  import opened Validation

  /** The reduced matrix, the action log, and the number of steps completed (the rank). */
  datatype Echelon = Echelon(matrix: Matrix, log: seq<Action>, rank: nat)

  /** `min(len(m), len(m[0]))`: the number of steps the loop may take. */
  function MaxSteps(m: Matrix): nat
    requires |m| > 0
  {
    Min(|m|, Width(m))
  }

  /** The same result, with `log` recorded before its own log. */
  function Prepend(log: seq<Action>, e: Echelon): Echelon
  {
    Echelon(e.matrix, log + e.log, e.rank)
  }

  /** Line 59: the row swap recorded at step `i`, if the pivot is not in row `i`. */
  function RowSwapLog(i: nat, p: Candidate): seq<Action>
  {
    if p.row != i then [Swap(Row, i, p.row)] else []
  }

  /** Line 64: the column swap recorded at step `i`, if the pivot is not in column `i`. */
  function ColumnSwapLog(i: nat, p: Candidate): seq<Action>
  {
    if p.column != i then [Swap(Column, i, p.column)] else []
  }

  /**
    Lines 58-66: bring the pivot at `p` to `(i, i)`, by a row swap if its
    row is not `i`, then a column swap if its column is not `i`.
  */
  function PivotSwaps(m: Matrix, i: nat, p: Candidate): (r: (Matrix, seq<Action>))
    requires Rectangular(m) && i <= p.row < |m| && i <= p.column < Width(m)
    ensures IsShape(r.0, |m|, Width(m))
    ensures r.0[i][i] == m[p.row][p.column]
  {
    var m1 := if p.row != i then Swapped(m, i, p.row) else m;
    RowSwapInvolution(m, i, p.row, |m|, Width(m));
    (if p.column != i then ColumnsSwapped(m1, i, p.column) else m1, RowSwapLog(i, p) + ColumnSwapLog(i, p))
  }

  /** Line 71: the multiple of the pivot row that clears `entry`. */
  function EliminationCoef(entry: real, pivot: real): real
    requires pivot != 0.0
  {
    -entry / pivot
  }

  /**
    Lines 68-73 from row `row` on: clear column `i` below the pivot, skipping
    rows whose entry is already zero.
  */
  function EliminateBelow(m: Matrix, i: nat, row: nat): (r: (Matrix, seq<Action>))
    requires Rectangular(m) && i < |m| && i < Width(m) && m[i][i] != 0.0 && i < row <= |m|
    ensures IsShape(r.0, |m|, Width(m))
    ensures r.0[i] == m[i]
    decreases |m| - row
  {
    if row == |m| then (m, [])
    else if m[row][i] == 0.0 then EliminateBelow(m, i, row + 1)
    else
      var coef := EliminationCoef(m[row][i], m[i][i]);
      var (m', log) := EliminateBelow(RowAdded(m, i, row, coef), i, row + 1);
      (m', [RowAddition(i, row, coef)] + log)
  }

  /**
    One step of the loop, lines 56-73, at a non-zero pivot: the swaps that
    bring the pivot to `(i, i)`, then the additions that clear column `i`
    below it. The result is the matrix after the step and its log.
  */
  function Step(m: Matrix, i: nat): (r: (Matrix, seq<Action>))
    requires Rectangular(m) && i < MaxSteps(m) && MaxOf(m, i).value != 0.0
    ensures IsShape(r.0, |m|, Width(m))
  {
    MaxOfIsFirstMax(m, i);
    var (m1, swaps) := PivotSwaps(m, i, MaxOf(m, i));
    var (m2, additions) := EliminateBelow(m1, i, i + 1);
    (m2, swaps + additions)
  }

  /** The elimination loop from step `i` on; it stops at a zero pivot. */
  function StepsFrom(m: Matrix, i: nat): (e: Echelon)
    requires Rectangular(m) && i <= MaxSteps(m)
    ensures IsShape(e.matrix, |m|, Width(m))
    ensures i <= e.rank <= MaxSteps(m)
    decreases MaxSteps(m) - i
  {
    if i == MaxSteps(m) then Echelon(m, [], i)
    else
      if MaxOf(m, i).value == 0.0 then Echelon(m, [], i)
      else
        var (m2, log) := Step(m, i);
        Prepend(log, StepsFrom(m2, i + 1))
  }

  /** What is left of step `i` once the pivot is in place and rows up to `row` are done. */
  function AfterPivot(m: Matrix, i: nat, row: nat): Echelon
    requires Rectangular(m) && i < |m| && i < Width(m) && m[i][i] != 0.0 && i < row <= |m|
  {
    var (m2, additions) := EliminateBelow(m, i, row);
    Prepend(additions, StepsFrom(m2, i + 1))
  }

  /** `to_row_echelon_form(m)`: the shape check, then the elimination loop. */
  function Eliminate(m: Matrix): Result<Echelon, ShapeError>
  {
    match CheckMatrix(m)
    case Some(err) => Err(err)
    case None => Ok(StepsFrom(m, 0))
  }

  lemma PrependPrepend(a: seq<Action>, b: seq<Action>, e: Echelon)
    ensures Prepend(a, Prepend(b, e)) == Prepend(a + b, e)
  {
    assert a + (b + e.log) == (a + b) + e.log;
  }

  /** The loop ends with the log recorded so far when no step is left or the pivot is zero. */
  lemma StepsFromStops(m: Matrix, i: nat)
    requires Rectangular(m) && i <= MaxSteps(m)
    requires i == MaxSteps(m) || MaxOf(m, i).value == 0.0
    ensures StepsFrom(m, i) == Echelon(m, [], i)
  {
  }

  /** One step with a non-zero pivot: the swaps, then the rest of the step from row `i + 1`. */
  lemma StepsFromUnfolds(m: Matrix, i: nat)
    requires Rectangular(m) && i < MaxSteps(m) && MaxOf(m, i).value != 0.0
    ensures IsFirstMax(m, i, MaxOf(m, i))
    ensures var (m1, swaps) := PivotSwaps(m, i, MaxOf(m, i));
      m1[i][i] != 0.0 && StepsFrom(m, i) == Prepend(swaps, AfterPivot(m1, i, i + 1))
  {
    MaxOfIsFirstMax(m, i);
    var (m1, swaps) := PivotSwaps(m, i, MaxOf(m, i));
    var (m2, additions) := EliminateBelow(m1, i, i + 1);
    PrependPrepend(swaps, additions, StepsFrom(m2, i + 1));
  }

  /** The elimination loop keeps its goal when it stops. */
  lemma StoppingKeepsGoal(m: Matrix, i: nat, actions: seq<Action>, goal: Echelon)
    requires Rectangular(m) && i <= MaxSteps(m)
    requires i == MaxSteps(m) || MaxOf(m, i).value == 0.0
    requires goal == Prepend(actions, StepsFrom(m, i))
    ensures goal == Echelon(m, actions, i)
  {
    StepsFromStops(m, i);
    assert actions + [] == actions;
  }

  /** The elimination loop keeps its goal across the pivot swaps of step `i`. */
  lemma PivotingKeepsGoal(m: Matrix, i: nat, actions: seq<Action>, goal: Echelon)
    requires Rectangular(m) && i < MaxSteps(m) && MaxOf(m, i).value != 0.0
    requires goal == Prepend(actions, StepsFrom(m, i))
    ensures IsFirstMax(m, i, MaxOf(m, i))
    ensures var (m1, swaps) := PivotSwaps(m, i, MaxOf(m, i));
      m1[i][i] != 0.0 && goal == Prepend(actions + swaps, AfterPivot(m1, i, i + 1))
  {
    StepsFromUnfolds(m, i);
    var (m1, swaps) := PivotSwaps(m, i, MaxOf(m, i));
    PrependPrepend(actions, swaps, AfterPivot(m1, i, i + 1));
  }

  /** A row whose entry in the pivot column is already zero is skipped. */
  lemma AfterPivotSkips(m: Matrix, i: nat, row: nat)
    requires Rectangular(m) && i < |m| && i < Width(m) && m[i][i] != 0.0 && i < row < |m|
    requires m[row][i] == 0.0
    ensures AfterPivot(m, i, row) == AfterPivot(m, i, row + 1)
  {
  }

  /** Any other row gets the row addition that clears its entry. */
  lemma AfterPivotAdds(m: Matrix, i: nat, row: nat, coef: real)
    requires Rectangular(m) && i < |m| && i < Width(m) && m[i][i] != 0.0 && i < row < |m|
    requires m[row][i] != 0.0 && coef == EliminationCoef(m[row][i], m[i][i])
    ensures AfterPivot(m, i, row) == Prepend([RowAddition(i, row, coef)], AfterPivot(RowAdded(m, i, row, coef), i, row + 1))
  {
    var (m2, additions) := EliminateBelow(RowAdded(m, i, row, coef), i, row + 1);
    PrependPrepend([RowAddition(i, row, coef)], additions, StepsFrom(m2, i + 1));
  }

  /** Past the last row, the next step begins. */
  lemma AfterPivotEnds(m: Matrix, i: nat)
    requires Rectangular(m) && i < |m| && i < Width(m) && m[i][i] != 0.0
    ensures AfterPivot(m, i, |m|) == StepsFrom(m, i + 1)
  {
    assert [] + StepsFrom(m, i + 1).log == StepsFrom(m, i + 1).log;
  }

  /**
    Lines 58-66 of `to_row_echelon_form`: bring the pivot `p` to `(i, i)`,
    recording each swap after `log`.
  */
  method PivotToDiagonal(m: array<seq<real>>, i: nat, p: Candidate, log: seq<Action>)
      returns (actions: seq<Action>)
    requires Rectangular(m[..]) && i <= p.row < m.Length && i <= p.column < |m[0]|
    modifies m
    ensures m[..] == PivotSwaps(old(m[..]), i, p).0
    ensures actions == log + PivotSwaps(old(m[..]), i, p).1
  {
    ghost var m0 := m[..];
    ghost var rowSwap, columnSwap := RowSwapLog(i, p), ColumnSwapLog(i, p);
    actions := log;
    if p.row != i {
      actions := actions + [Swap(Row, i, p.row)];
      RowSwapInvolution(m[..], i, p.row, |m0|, Width(m0));
      SwapRows(m, i, p.row);
    }
    assert actions == log + rowSwap;
    assert IsShape(m[..], |m0|, Width(m0));
    if p.column != i {
      actions := actions + [Swap(Column, i, p.column)];
      SwapColumns(m, i, p.column);
    }
    assert actions == (log + rowSwap) + columnSwap;
    assert (log + rowSwap) + columnSwap == log + (rowSwap + columnSwap);
  }

  /**
    Lines 68-73 of `to_row_echelon_form`: with the pivot at `(i, i)`, add a
    multiple of row `i` to every row below whose entry in column `i` is not
    zero, recording each addition after `log`.
  */
  method ClearBelow(m: array<seq<real>>, i: nat, log: seq<Action>) returns (actions: seq<Action>)
    requires Rectangular(m[..]) && i < m.Length && i < |m[0]| && m[i][i] != 0.0
    modifies m
    ensures m[..] == EliminateBelow(old(m[..]), i, i + 1).0
    ensures actions == log + EliminateBelow(old(m[..]), i, i + 1).1
    ensures Prepend(actions, StepsFrom(m[..], i + 1)) == Prepend(log, AfterPivot(old(m[..]), i, i + 1))
  {
    actions := log;
    ghost var m0 := m[..];
    ghost var done: seq<Action> := [];
    assert [] + EliminateBelow(m0, i, i + 1).1 == EliminateBelow(m0, i, i + 1).1;
    for row := i + 1 to m.Length
      invariant IsShape(m[..], |m0|, Width(m0)) && m[i][i] != 0.0
      invariant actions == log + done
      invariant EliminateBelow(m0, i, i + 1) == (EliminateBelow(m[..], i, row).0, done + EliminateBelow(m[..], i, row).1)
    {
      ghost var cur := m[..];
      if m[row][i] == 0.0 {
        continue;
      }
      var coef := EliminationCoef(m[row][i], m[i][i]);
      var add := RowAddition(i, row, coef);
      ghost var rest := EliminateBelow(RowAdded(cur, i, row, coef), i, row + 1).1;
      assert done + ([add] + rest) == (done + [add]) + rest;
      assert (log + done) + [add] == log + (done + [add]);
      actions := actions + [add];
      done := done + [add];
      AddRow(m, i, row, coef);
    }
    PrependPrepend(log, EliminateBelow(m0, i, i + 1).1, StepsFrom(m[..], i + 1));
  }

  /** `to_row_echelon_form(m)`, in place. */
  method ToRowEchelonForm(m: array<seq<real>>) returns (r: Result<seq<Action>, ShapeError>)
    modifies m
    ensures Eliminate(old(m[..])).Err? ==>
      r == Err(Eliminate(old(m[..])).error) && m[..] == old(m[..])
    ensures Eliminate(old(m[..])).Ok? ==>
      r == Ok(Eliminate(old(m[..])).value.log) && m[..] == Eliminate(old(m[..])).value.matrix
  {
    var check := CheckMatrix(m[..]);
    if check.Some? {
      return Err(check.value);
    }
    ghost var m0 := m[..];
    ghost var goal := StepsFrom(m0, 0);
    var actions: seq<Action> := [];
    var n := Min(m.Length, |m[0]|);
    for i := 0 to n
      invariant IsShape(m[..], |m0|, Width(m0))
      invariant goal == Prepend(actions, StepsFrom(m[..], i))
    {
      var maxElem := FindMax(m, i);
      if maxElem.value == 0.0 {
        StoppingKeepsGoal(m[..], i, actions, goal);
        return Ok(actions);
      }
      PivotingKeepsGoal(m[..], i, actions, goal);
      actions := PivotToDiagonal(m, i, maxElem, actions);
      actions := ClearBelow(m, i, actions);
    }
    StoppingKeepsGoal(m[..], n, actions, goal);
    return Ok(actions);
  }
}
