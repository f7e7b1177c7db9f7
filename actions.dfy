/**
  The action log of the elimination (`Swap` and `RowAddition` of
  task01.py), and what a log does to a matrix when it is applied in order.
*/
module Actions {
  import opened Matrices
  import opened RowOps

  datatype SwapKind = Row | Column

  /**
    `Swap(kind, first, second)` exchanges two rows or two columns;
    `RowAddition(source, target, coef)` adds `coef` times row `source` to row `target`.
  */
  datatype Action =
    | Swap(kind: SwapKind, first: nat, second: nat)
    | RowAddition(source: nat, target: nat, coef: real)

  /** The elimination step that records the action: the index of its pivot. */
  function StepOf(a: Action): nat
  {
    match a
    case Swap(_, first, _) => first
    case RowAddition(source, _, _) => source
  }

  /**
    An action the elimination can record on an `h` by `w` matrix: the
    pivot index comes first and is smaller than the other index.
  */
  predicate WellFormedAction(a: Action, h: nat, w: nat)
  {
    match a
    case Swap(Row, first, second) => first < second < h
    case Swap(Column, first, second) => first < second < w
    case RowAddition(source, target, _) => source < target < h
  }

  /** Within one step: the row swap, then the column swap, then the row additions. */
  function KindRank(a: Action): nat
  {
    match a
    case Swap(Row, _, _) => 0
    case Swap(Column, _, _) => 1
    case RowAddition(_, _, _) => 2
  }

  /**
    `a` is recorded before `b` by the elimination: an earlier step, or the
    same step and an earlier kind, or two row additions to rows in order.
  */
  predicate Precedes(a: Action, b: Action)
  {
    || StepOf(a) < StepOf(b)
    || (StepOf(a) == StepOf(b) && KindRank(a) < KindRank(b))
    || (StepOf(a) == StepOf(b) && a.RowAddition? && b.RowAddition? && a.target < b.target)
  }

  /** The log is strictly ordered by `Precedes`. */
  predicate Ordered(log: seq<Action>)
  {
    forall k, l :: 0 <= k < l < |log| ==> Precedes(log[k], log[l])
  }

  /** Two ordered logs, one wholly before the other, make an ordered log. */
  lemma OrderedAppend(a: seq<Action>, b: seq<Action>)
    requires Ordered(a) && Ordered(b)
    requires forall k, l :: 0 <= k < |a| && 0 <= l < |b| ==> Precedes(a[k], b[l])
    ensures Ordered(a + b)
  {
    forall k, l | 0 <= k < l < |a + b|
      ensures Precedes((a + b)[k], (a + b)[l])
    {
      if l < |a| {
        assert (a + b)[k] == a[k] && (a + b)[l] == a[l];
      } else if k < |a| {
        assert (a + b)[k] == a[k] && (a + b)[l] == b[l - |a|];
      } else {
        assert (a + b)[k] == b[k - |a|] && (a + b)[l] == b[l - |a|];
      }
    }
  }

  predicate ValidLog(log: seq<Action>, h: nat, w: nat)
  {
    forall k :: 0 <= k < |log| ==> WellFormedAction(log[k], h, w)
  }

  /** The effect of one action on the matrix. */
  function ApplyAction(m: Matrix, a: Action, h: nat, w: nat): (r: Matrix)
    requires IsShape(m, h, w) && WellFormedAction(a, h, w)
    ensures IsShape(r, h, w)
  {
    match a
    case Swap(Row, first, second) => Swapped(m, first, second)
    case Swap(Column, first, second) =>
      ColumnSwapInvolution(m, first, second, h, w);
      ColumnsSwapped(m, first, second)
    case RowAddition(source, target, coef) => RowAdded(m, source, target, coef)
  }

  /** The effect of a whole log on the matrix, first action first. */
  function ApplyActions(m: Matrix, log: seq<Action>, h: nat, w: nat): (r: Matrix)
    requires IsShape(m, h, w) && ValidLog(log, h, w)
    ensures IsShape(r, h, w)
    decreases |log|
  {
    if log == [] then m
    else ApplyAction(ApplyActions(m, log[..|log| - 1], h, w), log[|log| - 1], h, w)
  }

  /** A log of one action does what the action does. */
  lemma ApplyActionsSingle(m: Matrix, a: Action, h: nat, w: nat)
    requires IsShape(m, h, w) && WellFormedAction(a, h, w)
    ensures ValidLog([a], h, w)
    ensures ApplyActions(m, [a], h, w) == ApplyAction(m, a, h, w)
  {
    assert [a][..0] == [];
  }

  /** Applying `a + b` is applying `a`, then `b`. */
  lemma {:induction false} ApplyActionsAppend(m: Matrix, a: seq<Action>, b: seq<Action>, h: nat, w: nat)
    requires IsShape(m, h, w) && ValidLog(a, h, w) && ValidLog(b, h, w)
    ensures ValidLog(a + b, h, w)
    ensures ApplyActions(m, a + b, h, w) == ApplyActions(ApplyActions(m, a, h, w), b, h, w)
    decreases |b|
  {
    assert ValidLog(a + b, h, w) by {
      forall k | 0 <= k < |a + b|
        ensures WellFormedAction((a + b)[k], h, w)
      {
        if k < |a| { assert (a + b)[k] == a[k]; } else { assert (a + b)[k] == b[k - |a|]; }
      }
    }
    if b == [] {
      assert a + b == a;
    } else {
      var init := b[..|b| - 1];
      assert (a + b)[..|a + b| - 1] == a + init;
      assert (a + b)[|a + b| - 1] == b[|b| - 1];
      ApplyActionsAppend(m, a, init, h, w);
    }
  }
}
