/**
  `apply_actions_to_column`: the action log of the elimination replayed on
  the free column, so that the reduced matrix and the column describe an
  equivalent system. Row swaps exchange two entries, row additions update
  one entry, column swaps leave the column alone.

  The function as written names `RawAddition` at line 83, a name defined
  nowhere, so every action that is not a row swap raises `NameError`;
  `ReplayAsWritten` models that, and `ReplayOnColumn` models the evident
  intent, which the solver uses.
*/
module Replay {
  import opened Results
  import opened Matrices
  import opened Actions

  /** The indices `a` uses on a column of `n` entries are in range. */
  predicate FitsColumn(a: Action, n: nat)
  {
    match a
    case Swap(Row, first, second) => first < n && second < n
    case Swap(Column, _, _) => true
    case RowAddition(source, target, _) => source < n && target < n
  }

  predicate ColumnLog(log: seq<Action>, n: nat)
  {
    forall k :: 0 <= k < |log| ==> FitsColumn(log[k], n)
  }

  /** Lines 80-84 as intended: one action on the column. */
  function ReplayAction(b: seq<real>, a: Action): (r: seq<real>)
    requires FitsColumn(a, |b|)
    ensures |r| == |b|
  {
    match a
    case Swap(Row, first, second) => Swapped(b, first, second)
    case Swap(Column, _, _) => b
    case RowAddition(source, target, coef) => b[target := b[target] + coef * b[source]]
  }

  /** The whole log on the column, first action first. */
  function ReplayOnColumn(b: seq<real>, log: seq<Action>): (r: seq<real>)
    requires ColumnLog(log, |b|)
    ensures |r| == |b|
    decreases |log|
  {
    if log == [] then b
    else ReplayAction(ReplayOnColumn(b, log[..|log| - 1]), log[|log| - 1])
  }

  /** `apply_actions_to_column(column, actions)`, in place, as intended. */
  method ApplyActionsToColumn(column: array<real>, actions: seq<Action>)
    requires ColumnLog(actions, column.Length)
    modifies column
    ensures column[..] == ReplayOnColumn(old(column[..]), actions)
  {
    ghost var b := column[..];
    for k := 0 to |actions|
      invariant column[..] == ReplayOnColumn(b, actions[..k])
    {
      assert actions[..k + 1][..k] == actions[..k];
      match actions[k]
      case Swap(Row, first, second) =>
        column[first], column[second] := column[second], column[first];
      case Swap(Column, _, _) =>
      case RowAddition(source, target, coef) =>
        column[target] := column[target] + coef * column[source];
    }
    assert actions[..|actions|] == actions;
  }

  /** The failure of line 83: the name `RawAddition` is not defined. */
  datatype Crash = NameError

  /**
    Lines 79-84 as written: a row swap is replayed; any other action reaches
    the test at line 83 and raises `NameError`.
  */
  function ReplayAsWritten(b: seq<real>, log: seq<Action>): (r: Result<seq<real>, Crash>)
    requires ColumnLog(log, |b|)
    ensures r.Ok? ==> |r.value| == |b|
    decreases |log|
  {
    if log == [] then Ok(b)
    else
      match ReplayAsWritten(b, log[..|log| - 1])
      case Err(e) => Err(e)
      case Ok(c) =>
        var a := log[|log| - 1];
        if a.Swap? && a.kind == Row then Ok(ReplayAction(c, a)) else Err(NameError)
  }

  /**
    As written, the replay succeeds exactly when the log holds row swaps
    only, and then it agrees with the intended replay.
  */
  lemma {:induction false} ReplayAsWrittenCrashes(b: seq<real>, log: seq<Action>)
    requires ColumnLog(log, |b|)
    ensures ReplayAsWritten(b, log).Ok? <==> forall k :: 0 <= k < |log| ==> log[k].Swap? && log[k].kind == Row
    ensures ReplayAsWritten(b, log).Ok? ==> ReplayAsWritten(b, log).value == ReplayOnColumn(b, log)
    decreases |log|
  {
    if log != [] {
      var init := log[..|log| - 1];
      ReplayAsWrittenCrashes(b, init);
      assert forall k :: 0 <= k < |init| ==> init[k] == log[k];
    }
  }

  /** The matrix with the free column appended as one more column: the augmented matrix. */
  function Augmented(m: Matrix, b: seq<real>): (r: Matrix)
    requires |b| == |m|
    ensures |r| == |m|
    ensures forall k :: 0 <= k < |m| ==> r[k] == m[k] + [b[k]]
  {
    seq(|m|, k requires 0 <= k < |m| => m[k] + [b[k]])
  }

  /** A log valid for an `h` by `w` matrix is valid for the augmented matrix and fits the column. */
  lemma ValidLogWidens(log: seq<Action>, h: nat, w: nat)
    requires ValidLog(log, h, w)
    ensures ValidLog(log, h, w + 1) && ColumnLog(log, h)
  {
    assert forall k :: 0 <= k < |log| ==> WellFormedAction(log[k], h, w + 1) && FitsColumn(log[k], h);
  }

  /** One action on the augmented matrix is that action on the matrix, and its replay on the column. */
  lemma ReplayActionAugmented(m: Matrix, b: seq<real>, a: Action, h: nat, w: nat)
    requires IsShape(m, h, w) && |b| == h && WellFormedAction(a, h, w)
    ensures IsShape(Augmented(m, b), h, w + 1) && WellFormedAction(a, h, w + 1) && FitsColumn(a, h)
    ensures ApplyAction(Augmented(m, b), a, h, w + 1) == Augmented(ApplyAction(m, a, h, w), ReplayAction(b, a))
  {
    var am := Augmented(m, b);
    var left := ApplyAction(am, a, h, w + 1);
    var right := Augmented(ApplyAction(m, a, h, w), ReplayAction(b, a));
    match a
    case Swap(Row, first, second) =>
      assert forall k :: 0 <= k < h ==> left[k] == right[k];
    case Swap(Column, first, second) =>
      forall k | 0 <= k < h
        ensures left[k] == right[k]
      {
        assert left[k] == Swapped(m[k] + [b[k]], first, second);
        assert Swapped(m[k] + [b[k]], first, second) == Swapped(m[k], first, second) + [b[k]];
      }
    case RowAddition(source, target, coef) =>
      assert left[target] == right[target] by {
        forall c | 0 <= c < w + 1
          ensures left[target][c] == right[target][c]
        {
          if c == w {
            assert am[target][c] == b[target] && am[source][c] == b[source];
          } else {
            assert am[target][c] == m[target][c] && am[source][c] == m[source][c];
          }
        }
      }
      assert forall k :: 0 <= k < h ==> left[k] == right[k];
  }

  /**
    Replaying the log on the free column is carrying the column along as the
    last column of the augmented matrix while the elimination runs.
  */
  lemma {:induction false} ReplayIsAugmentedElimination(m: Matrix, b: seq<real>, log: seq<Action>, h: nat, w: nat)
    requires IsShape(m, h, w) && |b| == h && ValidLog(log, h, w)
    ensures IsShape(Augmented(m, b), h, w + 1) && ValidLog(log, h, w + 1) && ColumnLog(log, h)
    ensures ApplyActions(Augmented(m, b), log, h, w + 1) == Augmented(ApplyActions(m, log, h, w), ReplayOnColumn(b, log))
    decreases |log|
  {
    ValidLogWidens(log, h, w);
    if log != [] {
      var init := log[..|log| - 1];
      assert ValidLog(init, h, w) by {
        assert forall k :: 0 <= k < |init| ==> init[k] == log[k];
      }
      ReplayIsAugmentedElimination(m, b, init, h, w);
      ReplayActionAugmented(ApplyActions(m, init, h, w), ReplayOnColumn(b, init), log[|log| - 1], h, w);
    }
  }
}
