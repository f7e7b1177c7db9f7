/**
  What `to_row_echelon_form` promises about its result: the reduced matrix
  is in row echelon form with non-zero pivots on the diagonal, the pivot
  chosen at each step is of largest magnitude, and the action log is well
  formed, ordered by step, and turns the input into the reduced matrix when
  it is applied in order.
*/
module EchelonForm {
  import opened Results
  import opened Matrices
  import opened RowOps
  import opened Pivot
  import opened Actions
  import opened Validation
  import opened Elimination

  /**
    The first `k` steps are done: the diagonal entries `0..k` are not zero
    and everything below them in their columns is zero.
  */
  ghost predicate Reduced(m: Matrix, k: nat)
    requires Rectangular(m) && k <= MaxSteps(m)
  {
    && (forall j :: 0 <= j < k ==> m[j][j] != 0.0)
    && (forall r, j :: 0 <= j < k && j < r < |m| ==> m[r][j] == 0.0)
  }

  /** Every action of `log` is recorded by one of the steps `lo..hi`. */
  predicate StepsWithin(log: seq<Action>, lo: nat, hi: nat)
  {
    forall k :: 0 <= k < |log| ==> lo <= StepOf(log[k]) < hi
  }

  /** The row addition of line 73 clears the entry it was computed for. */
  lemma CoefClears(entry: real, pivot: real)
    requires pivot != 0.0
    ensures entry + EliminationCoef(entry, pivot) * pivot == 0.0
  {
  }

  /** Bringing the pivot to `(i, i)` keeps the columns of the earlier steps reduced. */
  lemma PivotSwapsKeepReduced(m: Matrix, i: nat, p: Candidate)
    requires Rectangular(m) && i < MaxSteps(m) && i <= p.row < |m| && i <= p.column < Width(m)
    requires Reduced(m, i)
    ensures Reduced(PivotSwaps(m, i, p).0, i)
  {
    var m1 := if p.row != i then Swapped(m, i, p.row) else m;
    RowSwapInvolution(m, i, p.row, |m|, Width(m));
    assert Reduced(m1, i) by {
      forall j | 0 <= j < i
        ensures m1[j][j] != 0.0
      {
        assert m1[j] == m[j];
      }
      forall r, j | 0 <= j < i && j < r < |m|
        ensures m1[r][j] == 0.0
      {
        var s := if r == i then p.row else if r == p.row then i else r;
        assert m1[r] == m[s];
      }
    }
    if p.column != i {
      ColumnSwapInvolution(m1, i, p.column, |m|, Width(m));
    }
  }

  /** The additions of one step clear column `i` below the pivot and keep the earlier columns. */
  lemma {:induction false} EliminateBelowClears(m: Matrix, i: nat, row: nat)
    requires Rectangular(m) && i < MaxSteps(m) && m[i][i] != 0.0 && i < row <= |m|
    requires Reduced(m, i)
    requires forall r :: i < r < row ==> m[r][i] == 0.0
    ensures Reduced(EliminateBelow(m, i, row).0, i + 1)
    decreases |m| - row
  {
    if row == |m| {
    } else if m[row][i] == 0.0 {
      EliminateBelowClears(m, i, row + 1);
    } else {
      var coef := EliminationCoef(m[row][i], m[i][i]);
      var m' := RowAdded(m, i, row, coef);
      CoefClears(m[row][i], m[i][i]);
      assert Reduced(m', i) by {
        forall j | 0 <= j < i
          ensures m'[j][j] != 0.0
        {
          assert m'[j] == m[j];
        }
        forall r, j | 0 <= j < i && j < r < |m|
          ensures m'[r][j] == 0.0
        {
          if r != row {
            assert m'[r] == m[r];
          }
        }
      }
      assert forall r :: i < r < row + 1 ==> m'[r][i] == 0.0;
      EliminateBelowClears(m', i, row + 1);
    }
  }

  /** One step with a non-zero pivot completes one more column. */
  lemma StepReduces(m: Matrix, i: nat)
    requires Rectangular(m) && i < MaxSteps(m) && MaxOf(m, i).value != 0.0 && Reduced(m, i)
    ensures Rectangular(Step(m, i).0) && Reduced(Step(m, i).0, i + 1)
  {
    var p := MaxOf(m, i);
    MaxOfIsFirstMax(m, i);
    var (m1, swaps) := PivotSwaps(m, i, p);
    PivotSwapsKeepReduced(m, i, p);
    EliminateBelowClears(m1, i, i + 1);
  }

  /**
    `e` is a row echelon form for a matrix of the shape of `m`: `rank`
    columns are reduced, and when fewer than `min(len(m), len(m[0]))` are,
    the trailing block left is all zero.
  */
  ghost predicate IsEchelonFor(m: Matrix, e: Echelon)
    requires Rectangular(m)
  {
    && IsShape(e.matrix, |m|, Width(m)) && e.rank <= MaxSteps(m)
    && Reduced(e.matrix, e.rank)
    && (e.rank < MaxSteps(m) ==> BlockIsZero(e.matrix, e.rank))
  }

  /** The loop stopped at step `i` leaves `m` itself, which is reduced up to `i`. */
  lemma StopReduces(m: Matrix, i: nat)
    requires Rectangular(m) && i <= MaxSteps(m) && Reduced(m, i)
    requires i == MaxSteps(m) || MaxOf(m, i).value == 0.0
    ensures IsEchelonFor(m, StepsFrom(m, i))
  {
    StepsFromStops(m, i);
    if i < MaxSteps(m) {
      MaxOfZero(m, i);
    }
  }

  /** The loop from step `i` on, with a non-zero pivot: one step, then the rest. */
  lemma StepsFromStep(m: Matrix, i: nat)
    requires Rectangular(m) && i < MaxSteps(m) && MaxOf(m, i).value != 0.0
    ensures var (m2, log) := Step(m, i);
      Rectangular(m2) && MaxSteps(m2) == MaxSteps(m) && StepsFrom(m, i) == Prepend(log, StepsFrom(m2, i + 1))
  {
  }

  /** The loop from step `i` on ends with a row echelon form. */
  lemma {:induction false} StepsFromReduces(m: Matrix, i: nat)
    requires Rectangular(m) && i <= MaxSteps(m) && Reduced(m, i)
    ensures IsEchelonFor(m, StepsFrom(m, i))
    decreases MaxSteps(m) - i
  {
    if i == MaxSteps(m) || MaxOf(m, i).value == 0.0 {
      StopReduces(m, i);
    } else {
      StepReduces(m, i);
      StepsFromStep(m, i);
      var (m2, log) := Step(m, i);
      StepsFromReduces(m2, i + 1);
    }
  }

  /**
    Line 56: after the swaps of step `i`, no entry of the trailing block is
    larger in magnitude than the pivot at `(i, i)`.
  */
  lemma PivotIsLargest(m: Matrix, i: nat)
    requires Rectangular(m) && i < MaxSteps(m)
    ensures InBlock(m, i, MaxOf(m, i).row, MaxOf(m, i).column)
    ensures var m1 := PivotSwaps(m, i, MaxOf(m, i)).0;
      forall r, c :: i <= r < |m| && i <= c < Width(m) ==> Abs(m1[r][c]) <= Abs(m1[i][i])
  {
    var p := MaxOf(m, i);
    MaxOfIsFirstMax(m, i);
    var ma := if p.row != i then Swapped(m, i, p.row) else m;
    RowSwapInvolution(m, i, p.row, |m|, Width(m));
    var m1 := PivotSwaps(m, i, p).0;
    forall r, c | i <= r < |m| && i <= c < Width(m)
      ensures Abs(m1[r][c]) <= Abs(m1[i][i])
    {
      var s := if r == i then p.row else if r == p.row then i else r;
      var t := if c == i then p.column else if c == p.column then i else c;
      assert ma[r] == m[s];
      assert m1[r][c] == ma[r][t];
      assert InBlock(m, i, s, t);
    }
  }

  /** The swaps of a step are recorded by that step, a row swap before a column swap. */
  lemma SwapLogOrdered(i: nat, p: Candidate)
    ensures var swaps := RowSwapLog(i, p) + ColumnSwapLog(i, p);
      && (forall k :: 0 <= k < |swaps| ==> swaps[k].Swap? && StepOf(swaps[k]) == i)
      && Ordered(swaps)
  {
  }

  /** The swaps of one step: well formed, recorded by step `i`, and doing what `PivotSwaps` does. */
  lemma PivotSwapsLog(m: Matrix, i: nat, p: Candidate)
    requires Rectangular(m) && i < MaxSteps(m) && i <= p.row < |m| && i <= p.column < Width(m)
    ensures var (m1, swaps) := PivotSwaps(m, i, p);
      && ValidLog(swaps, |m|, Width(m))
      && (forall k :: 0 <= k < |swaps| ==> swaps[k].Swap? && StepOf(swaps[k]) == i)
      && Ordered(swaps)
      && m1 == ApplyActions(m, swaps, |m|, Width(m))
  {
    var h, w := |m|, Width(m);
    var rowSwap, columnSwap := RowSwapLog(i, p), ColumnSwapLog(i, p);
    var ma := if p.row != i then Swapped(m, i, p.row) else m;
    RowSwapInvolution(m, i, p.row, h, w);
    if p.row != i {
      ApplyActionsSingle(m, Swap(Row, i, p.row), h, w);
    }
    if p.column != i {
      ApplyActionsSingle(ma, Swap(Column, i, p.column), h, w);
    }
    ApplyActionsAppend(m, rowSwap, columnSwap, h, w);
    SwapLogOrdered(i, p);
  }

  /** The additions of one step: well formed, to rows from `row` on in order, and doing what `EliminateBelow` does. */
  lemma {:induction false} EliminateBelowLog(m: Matrix, i: nat, row: nat)
    requires Rectangular(m) && i < MaxSteps(m) && m[i][i] != 0.0 && i < row <= |m|
    ensures var (m2, additions) := EliminateBelow(m, i, row);
      && ValidLog(additions, |m|, Width(m))
      && (forall k :: 0 <= k < |additions| ==>
            additions[k].RowAddition? && additions[k].source == i && row <= additions[k].target)
      && Ordered(additions)
      && m2 == ApplyActions(m, additions, |m|, Width(m))
    decreases |m| - row
  {
    var h, w := |m|, Width(m);
    if row == |m| {
    } else if m[row][i] == 0.0 {
      EliminateBelowLog(m, i, row + 1);
    } else {
      var coef := EliminationCoef(m[row][i], m[i][i]);
      var a := RowAddition(i, row, coef);
      var m' := RowAdded(m, i, row, coef);
      EliminateBelowLog(m', i, row + 1);
      var (m2, rest) := EliminateBelow(m', i, row + 1);
      ApplyActionsSingle(m, a, h, w);
      ApplyActionsAppend(m, [a], rest, h, w);
      OrderedAppend([a], rest);
      forall k | 0 <= k < |[a] + rest|
        ensures ([a] + rest)[k].RowAddition? && ([a] + rest)[k].source == i && row <= ([a] + rest)[k].target
      {
        if k > 0 {
          assert ([a] + rest)[k] == rest[k - 1];
        }
      }
    }
  }

  /** The whole log of one step is ordered: the swaps come before the additions. */
  lemma StepLogOrdered(i: nat, swaps: seq<Action>, additions: seq<Action>)
    requires forall k :: 0 <= k < |swaps| ==> swaps[k].Swap? && StepOf(swaps[k]) == i
    requires forall k :: 0 <= k < |additions| ==> additions[k].RowAddition? && additions[k].source == i
    requires Ordered(swaps) && Ordered(additions)
    ensures Ordered(swaps + additions)
    ensures StepsWithin(swaps + additions, i, i + 1)
  {
    OrderedAppend(swaps, additions);
    forall k | 0 <= k < |swaps + additions|
      ensures i <= StepOf((swaps + additions)[k]) < i + 1
    {
      if k < |swaps| {
        assert (swaps + additions)[k] == swaps[k];
      } else {
        assert (swaps + additions)[k] == additions[k - |swaps|];
      }
    }
  }

  /** The log of step `i`, followed by the log of the later steps, is ordered and within range. */
  lemma StepsLogOrdered(i: nat, rank: nat, step: seq<Action>, rest: seq<Action>)
    requires Ordered(step) && StepsWithin(step, i, i + 1)
    requires Ordered(rest) && StepsWithin(rest, i + 1, rank) && i < rank
    ensures Ordered(step + rest) && StepsWithin(step + rest, i, rank)
  {
    OrderedAppend(step, rest);
    forall k | 0 <= k < |step + rest|
      ensures i <= StepOf((step + rest)[k]) < rank
    {
      if k < |step| {
        assert (step + rest)[k] == step[k];
      } else {
        assert (step + rest)[k] == rest[k - |step|];
      }
    }
  }

  /** The log of one step: well formed, ordered, recorded by step `i`, and doing what the step does. */
  lemma StepLog(m: Matrix, i: nat)
    requires Rectangular(m) && i < MaxSteps(m) && MaxOf(m, i).value != 0.0
    ensures var (m2, log) := Step(m, i);
      && ValidLog(log, |m|, Width(m))
      && StepsWithin(log, i, i + 1)
      && Ordered(log)
      && m2 == ApplyActions(m, log, |m|, Width(m))
  {
    var p := MaxOf(m, i);
    MaxOfIsFirstMax(m, i);
    var (m1, swaps) := PivotSwaps(m, i, p);
    PivotSwapsLog(m, i, p);
    var (m2, additions) := EliminateBelow(m1, i, i + 1);
    EliminateBelowLog(m1, i, i + 1);
    ApplyActionsAppend(m, swaps, additions, |m|, Width(m));
    StepLogOrdered(i, swaps, additions);
  }

  /**
    `e.log` is a log the elimination can record from step `lo` on: well
    formed for `m`, ordered, recorded by the steps `lo..rank`, and applying
    it to `m` gives `e.matrix`.
  */
  predicate LogFrom(m: Matrix, e: Echelon, lo: nat)
    requires Rectangular(m)
  {
    && ValidLog(e.log, |m|, Width(m))
    && StepsWithin(e.log, lo, e.rank)
    && Ordered(e.log)
    && e.matrix == ApplyActions(m, e.log, |m|, Width(m))
  }

  /** The log of step `i` followed by the log of the steps after it is a log from step `i`. */
  lemma PrependLog(m: Matrix, m2: Matrix, log: seq<Action>, e: Echelon, i: nat)
    requires Rectangular(m) && IsShape(m2, |m|, Width(m)) && i < e.rank
    requires ValidLog(log, |m|, Width(m)) && StepsWithin(log, i, i + 1) && Ordered(log)
    requires m2 == ApplyActions(m, log, |m|, Width(m))
    requires LogFrom(m2, e, i + 1)
    ensures LogFrom(m, Prepend(log, e), i)
  {
    ApplyActionsAppend(m, log, e.log, |m|, Width(m));
    StepsLogOrdered(i, e.rank, log, e.log);
  }

  /** A step keeps the matrix rectangular and so keeps the number of steps the loop may take. */
  lemma StepShape(m: Matrix, i: nat)
    requires Rectangular(m) && i < MaxSteps(m) && MaxOf(m, i).value != 0.0
    ensures Rectangular(Step(m, i).0) && MaxSteps(Step(m, i).0) == MaxSteps(m)
  {
  }

  /** The steps after step `i` record a log from step `i + 1` for the matrix step `i` leaves. */
  predicate LaterStepsLog(m: Matrix, i: nat)
    requires Rectangular(m) && i < MaxSteps(m) && MaxOf(m, i).value != 0.0
  {
    var m2 := Step(m, i).0;
    Rectangular(m2) && i + 1 <= MaxSteps(m2) && LogFrom(m2, StepsFrom(m2, i + 1), i + 1)
  }

  /** A step followed by steps that record a log from step `i + 1` records a log from step `i`. */
  lemma StepLogFrom(m: Matrix, i: nat)
    requires Rectangular(m) && i < MaxSteps(m) && MaxOf(m, i).value != 0.0
    requires LaterStepsLog(m, i)
    ensures LogFrom(m, StepsFrom(m, i), i)
  {
    StepsFromStep(m, i);
    StepLog(m, i);
    var r := Step(m, i);
    PrependLog(m, r.0, r.1, StepsFrom(r.0, i + 1), i);
  }

  /** When the loop stops at step `i` it records nothing more. */
  lemma StopLogFrom(m: Matrix, i: nat)
    requires Rectangular(m) && i <= MaxSteps(m)
    requires i == MaxSteps(m) || MaxOf(m, i).value == 0.0
    ensures LogFrom(m, StepsFrom(m, i), i)
  {
    StepsFromStops(m, i);
    assert ApplyActions(m, [], |m|, Width(m)) == m;
  }

  /** The log recorded from step `i` on is a log from step `i` for `m`. */
  lemma {:induction false} StepsFromLogFrom(m: Matrix, i: nat)
    requires Rectangular(m) && i <= MaxSteps(m)
    ensures LogFrom(m, StepsFrom(m, i), i)
    decreases MaxSteps(m) - i, 1
  {
    if i == MaxSteps(m) || MaxOf(m, i).value == 0.0 {
      StopLogFrom(m, i);
    } else {
      StepsLogFrom(m, i);
    }
  }

  /** The same, at a non-zero pivot: step `i`, then the log of the steps after it. */
  lemma {:induction false} StepsLogFrom(m: Matrix, i: nat)
    requires Rectangular(m) && i < MaxSteps(m) && MaxOf(m, i).value != 0.0
    ensures LogFrom(m, StepsFrom(m, i), i)
    decreases MaxSteps(m) - i, 0
  {
    StepShape(m, i);
    StepsFromLogFrom(Step(m, i).0, i + 1);
    StepLogFrom(m, i);
  }

  /**
    `to_row_echelon_form` on a well-shaped matrix: the result is in row
    echelon form with `rank` non-zero pivots on the diagonal, and when the
    loop stops early the trailing block is all zero.
  */
  lemma EliminationIsEchelon(m: Matrix)
    requires Eliminate(m).Ok?
    ensures Rectangular(m)
    ensures IsEchelonFor(m, Eliminate(m).value)
  {
    StepsFromReduces(m, 0);
  }

  /**
    The log `to_row_echelon_form` returns: every action is well formed for
    the matrix, the log is ordered by step, and it replays the elimination.
  */
  lemma EliminationLog(m: Matrix)
    requires Eliminate(m).Ok?
    ensures Rectangular(m)
    ensures var e := Eliminate(m).value;
      && ValidLog(e.log, |m|, Width(m))
      && StepsWithin(e.log, 0, e.rank)
      && Ordered(e.log)
      && e.matrix == ApplyActions(m, e.log, |m|, Width(m))
  {
    StepsFromLogFrom(m, 0);
  }
}
