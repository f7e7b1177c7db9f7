/**
  Why `solve` may work on the reduced system: every action of the log,
  applied to the matrix and replayed on the free column, keeps the set of
  solutions, up to the exchange of unknowns a column swap makes. Walking
  the log backwards and undoing the column swaps on the solution (lines
  126-129) maps solutions of the reduced system to solutions of the
  original one, and back.
*/
module Equivalence {
  import opened Matrices
  import opened RowOps
  import opened Actions
  import opened Replay
  import opened Linear

  /** The indices of every column swap of `log` are in range for `n` unknowns. */
  predicate FitsSolution(log: seq<Action>, n: nat)
  {
    forall k :: 0 <= k < |log| && log[k].Swap? && log[k].kind == Column ==>
      log[k].first < n && log[k].second < n
  }

  /** Lines 127-129 for one action: a column swap exchanges two entries of the solution. */
  function UndoAction<T>(x: seq<T>, a: Action): (r: seq<T>)
    requires a.Swap? && a.kind == Column ==> a.first < |x| && a.second < |x|
    ensures |r| == |x|
  {
    if a.Swap? && a.kind == Column then Swapped(x, a.first, a.second) else x
  }

  /** Lines 126-129: the column swaps of the log undone on the solution, last action first. */
  function UndoColumnSwaps<T>(x: seq<T>, log: seq<Action>): (r: seq<T>)
    requires FitsSolution(log, |x|)
    ensures |r| == |x|
    decreases |log|
  {
    if log == [] then x
    else UndoColumnSwaps(UndoAction(x, log[|log| - 1]), log[..|log| - 1])
  }

  /** The column swaps of the log done on a solution, first action first. */
  function RedoColumnSwaps<T>(x: seq<T>, log: seq<Action>): (r: seq<T>)
    requires FitsSolution(log, |x|)
    ensures |r| == |x|
    decreases |log|
  {
    if log == [] then x
    else UndoAction(RedoColumnSwaps(x, log[..|log| - 1]), log[|log| - 1])
  }

  lemma UndoActionTwice<T>(x: seq<T>, a: Action)
    requires a.Swap? && a.kind == Column ==> a.first < |x| && a.second < |x|
    ensures UndoAction(UndoAction(x, a), a) == x
  {
    if a.Swap? && a.kind == Column {
      SwappedTwice(x, a.first, a.second);
    }
  }

  /** Undoing the column swaps and doing them again are inverse to each other. */
  lemma {:induction false} UndoRedo<T>(x: seq<T>, log: seq<Action>)
    requires FitsSolution(log, |x|)
    ensures UndoColumnSwaps(RedoColumnSwaps(x, log), log) == x
    ensures RedoColumnSwaps(UndoColumnSwaps(x, log), log) == x
    decreases |log|
  {
    if log != [] {
      var init, a := log[..|log| - 1], log[|log| - 1];
      UndoRedo(x, init);
      UndoActionTwice(RedoColumnSwaps(x, init), a);
      UndoRedo(UndoAction(x, a), init);
      UndoActionTwice(x, a);
    }
  }

  /** A log valid for an `h` by `w` matrix fits a free column of `h` entries and a solution of `w`. */
  lemma ValidLogFits(log: seq<Action>, h: nat, w: nat)
    requires ValidLog(log, h, w)
    ensures ColumnLog(log, h) && FitsSolution(log, w)
  {
    assert forall k :: 0 <= k < |log| ==> WellFormedAction(log[k], h, w) && FitsColumn(log[k], h);
  }

  /** A row swap permutes the equations. */
  lemma RowSwapPreservesSolutions(m: Matrix, x: seq<real>, b: seq<real>, i: nat, j: nat, h: nat, w: nat)
    requires IsShape(m, h, w) && |b| == h && |x| == w && i < h && j < h
    ensures Solves(Swapped(m, i, j), x, Swapped(b, i, j)) <==> Solves(m, x, b)
  {
    var m', b' := Swapped(m, i, j), Swapped(b, i, j);
    RowSwapInvolution(m, i, j, h, w);
    if Solves(m, x, b) {
      forall r | 0 <= r < h
        ensures Dot(m'[r], x) == b'[r]
      {
        var s := if r == i then j else if r == j then i else r;
        assert m'[r] == m[s] && b'[r] == b[s];
      }
    }
    if Solves(m', x, b') {
      forall s | 0 <= s < h
        ensures Dot(m[s], x) == b[s]
      {
        var r := if s == i then j else if s == j then i else s;
        assert m'[r] == m[s] && b'[r] == b[s];
      }
    }
  }

  /** A column swap exchanges two unknowns. */
  lemma ColumnSwapPreservesSolutions(m: Matrix, x: seq<real>, b: seq<real>, i: nat, j: nat, h: nat, w: nat)
    requires IsShape(m, h, w) && |b| == h && |x| == w && i < w && j < w
    ensures Solves(ColumnsSwapped(m, i, j), x, b) <==> Solves(m, Swapped(x, i, j), b)
  {
    ColumnSwapInvolution(m, i, j, h, w);
    forall r | 0 <= r < h
      ensures Dot(ColumnsSwapped(m, i, j)[r], x) == Dot(m[r], Swapped(x, i, j))
    {
      DotSwapped(m[r], x, i, j);
    }
  }

  /** Adding a multiple of one equation to another keeps the solutions. */
  lemma RowAdditionPreservesSolutions(m: Matrix, x: seq<real>, b: seq<real>, s: nat, t: nat, coef: real, h: nat, w: nat)
    requires IsShape(m, h, w) && |b| == h && |x| == w && s < t < h
    ensures Solves(RowAdded(m, s, t, coef), x, b[t := b[t] + coef * b[s]]) <==> Solves(m, x, b)
  {
    var m', b' := RowAdded(m, s, t, coef), b[t := b[t] + coef * b[s]];
    PartialDotCombination(m'[t], m[t], m[s], coef, x, w);
    assert Dot(m'[t], x) == Dot(m[t], x) + coef * Dot(m[s], x);
    assert forall r :: 0 <= r < h && r != t ==> m'[r] == m[r] && b'[r] == b[r];
  }

  /** One action, on the matrix and on the free column, keeps the solutions up to its column swap. */
  lemma ActionPreservesSolutions(m: Matrix, x: seq<real>, b: seq<real>, a: Action, h: nat, w: nat)
    requires IsShape(m, h, w) && |b| == h && |x| == w && WellFormedAction(a, h, w)
    ensures FitsColumn(a, h)
    ensures Solves(ApplyAction(m, a, h, w), x, ReplayAction(b, a)) <==> Solves(m, UndoAction(x, a), b)
  {
    match a
    case Swap(Row, i, j) => RowSwapPreservesSolutions(m, x, b, i, j, h, w);
    case Swap(Column, i, j) => ColumnSwapPreservesSolutions(m, x, b, i, j, h, w);
    case RowAddition(s, t, coef) => RowAdditionPreservesSolutions(m, x, b, s, t, coef, h, w);
  }

  /**
    `x` solves the reduced system (the log applied to `m`, replayed on `b`)
    exactly when `x` with the column swaps undone solves `m x = b`.
  */
  lemma {:induction false} LogPreservesSolutions(m: Matrix, x: seq<real>, b: seq<real>, log: seq<Action>, h: nat, w: nat)
    requires IsShape(m, h, w) && |b| == h && |x| == w && ValidLog(log, h, w)
    ensures ColumnLog(log, h) && FitsSolution(log, w)
    ensures Solves(ApplyActions(m, log, h, w), x, ReplayOnColumn(b, log)) <==> Solves(m, UndoColumnSwaps(x, log), b)
    decreases |log|
  {
    ValidLogFits(log, h, w);
    if log != [] {
      var init, a := log[..|log| - 1], log[|log| - 1];
      assert ValidLog(init, h, w) by {
        assert forall k :: 0 <= k < |init| ==> init[k] == log[k];
      }
      ValidLogFits(init, h, w);
      ActionPreservesSolutions(ApplyActions(m, init, h, w), x, ReplayOnColumn(b, init), a, h, w);
      LogPreservesSolutions(m, UndoAction(x, a), b, init, h, w);
    }
  }
}
