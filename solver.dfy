/**
  `solve(matrix, free_column)` (lines 87-130): reduce the matrix to row
  echelon form, replay the action log on the free column, back-substitute
  from the last row up, and undo the column swaps on the solution.

  The solution lists one slot per unknown of the original system. A
  `Fixed` slot is a value every solution has; an `Unset` slot is a free
  unknown; a `Param` slot keeps the coefficients of the reduced system,
  whose columns are in the order the elimination left them.
*/
module Solver {
  import opened Results
  import opened Matrices
  import opened Actions
  import opened Validation
  import opened Pivot
  import opened Elimination
  import opened EchelonForm
  import opened Replay
  import opened Equivalence
  import opened Linear
  import opened BackSubstitution

  /**
    `e` is a reduction of `m`: a log of actions valid for `m` that, applied
    to `m`, gives `e.matrix`.
  */
  predicate Reduces(m: Matrix, e: Echelon)
  {
    Rectangular(m) && ValidLog(e.log, |m|, Width(m)) && e.matrix == ApplyActions(m, e.log, |m|, Width(m))
  }

  lemma ReducesShape(m: Matrix, e: Echelon)
    requires Reduces(m, e)
    ensures Rectangular(e.matrix) && |e.matrix| == |m| && Width(e.matrix) == Width(m)
    ensures ColumnLog(e.log, |m|) && FitsSolution(e.log, Width(m))
  {
    ValidLogFits(e.log, |m|, Width(m));
  }

  /** Lines 87-124 after a reduction `e`: the slots of the reduced system, before the column swaps are undone. */
  function ReducedSlots(m: Matrix, e: Echelon, b: seq<real>): (r: Result<seq<Slot>, SolveError>)
    requires Reduces(m, e) && |b| == |m|
    ensures r.Ok? ==> |r.value| == Width(m) && WellFormedSlots(r.value)
  {
    ReducesShape(m, e);
    BackSubstitutionWellFormed(e.matrix, ReplayOnColumn(b, e.log));
    BackSubstitution.BackSubstitution(e.matrix, ReplayOnColumn(b, e.log))
  }

  /** Lines 87-130 after a reduction `e`: the back-substitution, then the column swaps undone. */
  function SolveWith(m: Matrix, e: Echelon, b: seq<real>): (r: Result<seq<Slot>, SolveError>)
    requires Reduces(m, e) && |b| == |m|
    ensures r.Ok? ==> |r.value| == Width(m)
  {
    match ReducedSlots(m, e, b)
    case Err(err) => Err(err)
    case Ok(sol) =>
      ReducesShape(m, e);
      Ok(UndoColumnSwaps(sol, e.log))
  }

  /** `solve(matrix, free_column)`, lines 87-130, with the replay of the free column as intended. */
  function SolveSpec(m: Matrix, b: seq<real>): (r: Result<seq<Slot>, SolveError>)
    requires |b| == |m|
  {
    match Eliminate(m)
    case Err(e) => Err(InvalidShape(e))
    case Ok(e) =>
      EliminationLog(m);
      SolveWith(m, e, b)
  }

  /** `x` has the value of every fixed slot of `sol`. */
  predicate FixedAgree(sol: seq<Slot>, x: seq<real>)
    requires |sol| == |x|
  {
    forall c :: 0 <= c < |sol| && sol[c].Fixed? ==> x[c] == sol[c].value
  }

  /** No slot of `sol` is parametric. */
  predicate NoParams(sol: seq<Slot>)
  {
    forall c :: 0 <= c < |sol| ==> !sol[c].Param?
  }

  lemma FixedAgreeAction(sol: seq<Slot>, x: seq<real>, a: Action)
    requires |sol| == |x| && (a.Swap? && a.kind == Column ==> a.first < |x| && a.second < |x|)
    ensures FixedAgree(UndoAction(sol, a), UndoAction(x, a)) <==> FixedAgree(sol, x)
    ensures NoParams(UndoAction(sol, a)) <==> NoParams(sol)
  {
    if a.Swap? && a.kind == Column {
      var i, j := a.first, a.second;
      var sol', x' := UndoAction(sol, a), UndoAction(x, a);
      assert forall c :: 0 <= c < |x| ==>
        var d := if c == i then j else if c == j then i else c;
        sol'[c] == sol[d] && x'[c] == x[d];
      assert forall d :: 0 <= d < |x| ==>
        var c := if d == i then j else if d == j then i else d;
        sol'[c] == sol[d] && x'[c] == x[d];
    }
  }

  /**
    Undoing the column swaps moves the slots and the unknowns alike, so it
    keeps agreement with the fixed slots and the absence of parametric ones.
  */
  lemma {:induction false} FixedAgreeUndo(sol: seq<Slot>, x: seq<real>, log: seq<Action>)
    requires |sol| == |x| && FitsSolution(log, |x|)
    ensures FixedAgree(UndoColumnSwaps(sol, log), UndoColumnSwaps(x, log)) <==> FixedAgree(sol, x)
    ensures NoParams(UndoColumnSwaps(sol, log)) <==> NoParams(sol)
    decreases |log|
  {
    if log != [] {
      var init, a := log[..|log| - 1], log[|log| - 1];
      FixedAgreeAction(sol, x, a);
      FixedAgreeUndo(UndoAction(sol, a), UndoAction(x, a), init);
    }
  }

  /** Consistency with the slots asks at least agreement with the fixed ones, and no more when none is parametric. */
  lemma ConsistentAgrees(sol: seq<Slot>, x: seq<real>)
    requires |sol| == |x|
    ensures Consistent(sol, x) ==> FixedAgree(sol, x)
    ensures NoParams(sol) ==> (Consistent(sol, x) <==> FixedAgree(sol, x))
  {
    if Consistent(sol, x) {
      ConsistentFixed(sol, x);
    }
    if NoParams(sol) && FixedAgree(sol, x) {
      forall c | 0 <= c < |x|
        ensures Satisfies(x, sol[c], c)
      {
        assert !sol[c].Param?;
      }
    }
  }

  /**
    After a reduction, `y` solves `m y = b` exactly when `y`, with the
    column swaps of the log done, is consistent with every slot of the
    reduced system; no solution is reported only when there is none.
  */
  lemma ReducedCharacterises(m: Matrix, e: Echelon, b: seq<real>, y: seq<real>)
    requires Reduces(m, e) && |b| == |m| && |y| == Width(m)
    ensures FitsSolution(e.log, |y|)
    ensures ReducedSlots(m, e, b).Ok? ==>
      (Solves(m, y, b) <==> Consistent(ReducedSlots(m, e, b).value, RedoColumnSwaps(y, e.log)))
    ensures ReducedSlots(m, e, b) == Err(NoSolution) ==> !Solves(m, y, b)
  {
    ReducesShape(m, e);
    var x := RedoColumnSwaps(y, e.log);
    UndoRedo(y, e.log);
    LogPreservesSolutions(m, x, b, e.log, |m|, Width(m));
    BackSubstitutionCorrect(e.matrix, ReplayOnColumn(b, e.log), x);
  }

  /** Every solution has the value of each fixed slot; without parametric slots these values are all it must have. */
  lemma SolveWithAgrees(m: Matrix, e: Echelon, b: seq<real>, y: seq<real>)
    requires Reduces(m, e) && |b| == |m| && |y| == Width(m) && SolveWith(m, e, b).Ok?
    ensures Solves(m, y, b) ==> FixedAgree(SolveWith(m, e, b).value, y)
    ensures NoParams(SolveWith(m, e, b).value) ==> (Solves(m, y, b) <==> FixedAgree(SolveWith(m, e, b).value, y))
  {
    ReducesShape(m, e);
    var sol := ReducedSlots(m, e, b).value;
    var x := RedoColumnSwaps(y, e.log);
    assert SolveWith(m, e, b).value == UndoColumnSwaps(sol, e.log);
    ReducedCharacterises(m, e, b, y);
    ConsistentAgrees(sol, x);
    FixedAgreeUndo(sol, x, e.log);
    UndoRedo(y, e.log);
  }

  /** The shape check of lines 9-21 is the only source of `InvalidShape`. */
  lemma SolveShapeError(m: Matrix, b: seq<real>)
    requires |b| == |m|
    ensures SolveSpec(m, b).Err? && SolveSpec(m, b).error.InvalidShape? <==> CheckMatrix(m).Some?
    ensures CheckMatrix(m).Some? ==> SolveSpec(m, b) == Err(InvalidShape(CheckMatrix(m).value))
  {
    if CheckMatrix(m).None? {
      EliminationLog(m);
    }
  }

  /** A successful `solve` has one slot per unknown of `m`. */
  lemma SolveLength(m: Matrix, b: seq<real>)
    requires |b| == |m| && SolveSpec(m, b).Ok?
    ensures Rectangular(m) && |SolveSpec(m, b).value| == Width(m)
  {
    EliminationLog(m);
  }

  /** Line 107: no solution is reported only when `m y = b` has none. */
  lemma SolveNoSolution(m: Matrix, b: seq<real>, y: seq<real>)
    requires |b| == |m|
    ensures SolveSpec(m, b) == Err(NoSolution) ==> !Solves(m, y, b)
  {
    if SolveSpec(m, b) == Err(NoSolution) && Solves(m, y, b) {
      EliminationLog(m);
      ReducedCharacterises(m, Eliminate(m).value, b, y);
    }
  }

  /**
    On success, `y` solves `m y = b` exactly when `y`, with the column swaps
    of the log done, is consistent with every slot of the reduced system.
  */
  lemma SolveCharacterises(m: Matrix, b: seq<real>, y: seq<real>)
    requires |b| == |m| && SolveSpec(m, b).Ok? && |y| == |SolveSpec(m, b).value|
    ensures Eliminate(m).Ok? && Reduces(m, Eliminate(m).value)
    ensures var e := Eliminate(m).value;
      && ReducedSlots(m, e, b).Ok? && FitsSolution(e.log, |y|)
      && SolveSpec(m, b).value == UndoColumnSwaps(ReducedSlots(m, e, b).value, e.log)
      && (Solves(m, y, b) <==> Consistent(ReducedSlots(m, e, b).value, RedoColumnSwaps(y, e.log)))
  {
    EliminationLog(m);
    ReducedCharacterises(m, Eliminate(m).value, b, y);
  }

  /** Every solution of `m y = b` has the value of each fixed slot `solve` returns. */
  lemma SolveFixedForced(m: Matrix, b: seq<real>, y: seq<real>)
    requires |b| == |m| && SolveSpec(m, b).Ok? && Solves(m, y, b)
    ensures |y| == |SolveSpec(m, b).value| && FixedAgree(SolveSpec(m, b).value, y)
  {
    EliminationLog(m);
    SolveWithAgrees(m, Eliminate(m).value, b, y);
  }

  /**
    When `solve` returns no parametric slot, its result describes every
    solution: `y` solves `m y = b` exactly when it has the value of every
    fixed slot; the unset slots are free.
  */
  lemma SolveExactWithoutParams(m: Matrix, b: seq<real>, y: seq<real>)
    requires |b| == |m| && SolveSpec(m, b).Ok? && NoParams(SolveSpec(m, b).value)
    requires |y| == |SolveSpec(m, b).value|
    ensures Solves(m, y, b) <==> FixedAgree(SolveSpec(m, b).value, y)
  {
    EliminationLog(m);
    SolveWithAgrees(m, Eliminate(m).value, b, y);
  }

  /**
    Without parametric slots the result names a solution: the fixed values,
    and zero for every free unknown, solve `m x = b`.
  */
  lemma SolveWitness(m: Matrix, b: seq<real>)
    requires |b| == |m| && SolveSpec(m, b).Ok? && NoParams(SolveSpec(m, b).value)
    ensures Solves(m, Values(SolveSpec(m, b).value), b)
  {
    SolveExactWithoutParams(m, b, Values(SolveSpec(m, b).value));
  }

  /**
    A zero matrix with a zero free column: the elimination stops at step 0
    with an empty log, no row raises, and every unknown is left free.
  */
  lemma ZeroSystem(m: Matrix, b: seq<real>)
    requires |m| > 0 && Rectangular(m) && Width(m) > 0 && |b| == |m|
    requires forall r, c :: 0 <= r < |m| && 0 <= c < Width(m) ==> m[r][c] == 0.0
    requires forall r :: 0 <= r < |b| ==> b[r] == 0.0
    ensures Eliminate(m) == Ok(Echelon(m, [], 0))
    ensures SolveSpec(m, b) == Ok(AllUnset(Width(m)))
  {
    assert CheckMatrix(m) == None;
    MaxOfZero(m, 0);
    assert StepsFrom(m, 0) == Echelon(m, [], 0);
    var e := Echelon(m, [], 0);
    EliminationLog(m);
    assert ReplayOnColumn(b, []) == b;
    BackSubFromZero(m, b, AllUnset(Width(m)), |m|);
    assert ReducedSlots(m, e, b) == Ok(AllUnset(Width(m)));
  }

  /** Lines 126-129: the column swaps of the log undone on the solution, last action first. */
  method UndoSwaps(solution: seq<Slot>, actions: seq<Action>) returns (r: seq<Slot>)
    requires FitsSolution(actions, |solution|)
    ensures r == UndoColumnSwaps(solution, actions)
  {
    r := solution;
    assert actions[..|actions|] == actions;
    for k := |actions| downto 0
      invariant |r| == |solution|
      invariant FitsSolution(actions[..k], |r|)
      invariant UndoColumnSwaps(solution, actions) == UndoColumnSwaps(r, actions[..k])
    {
      assert actions[..k + 1][..k] == actions[..k];
      if actions[k].Swap? && actions[k].kind == Column {
        var first, second := actions[k].first, actions[k].second;
        r := r[first := r[second]][second := r[first]];
      }
    }
  }

  /**
    `solve(matrix, free_column)`, in place: the matrix ends reduced, the
    free column ends with the log replayed on it, and the result is the
    solution of lines 91-130.
  */
  method Solve(matrix: array<seq<real>>, freeColumn: array<real>) returns (r: Result<seq<Slot>, SolveError>)
    requires freeColumn.Length == matrix.Length
    modifies matrix, freeColumn
    ensures r == SolveSpec(old(matrix[..]), old(freeColumn[..]))
    ensures Eliminate(old(matrix[..])).Err? ==> matrix[..] == old(matrix[..]) && freeColumn[..] == old(freeColumn[..])
    ensures Eliminate(old(matrix[..])).Ok? ==>
      var e := Eliminate(old(matrix[..])).value;
      && matrix[..] == e.matrix
      && ColumnLog(e.log, freeColumn.Length)
      && freeColumn[..] == ReplayOnColumn(old(freeColumn[..]), e.log)
  {
    ghost var m0, b0 := matrix[..], freeColumn[..];
    var elimination := ToRowEchelonForm(matrix);
    if elimination.Err? {
      return Err(InvalidShape(elimination.error));
    }
    ghost var e := Eliminate(m0).value;
    EliminationLog(m0);
    ReducesShape(m0, e);
    var actions := elimination.value;
    ApplyActionsToColumn(freeColumn, actions);
    var back := BackSubstitute(matrix, freeColumn);
    assert back == ReducedSlots(m0, e, b0);
    if back.Err? {
      return Err(back.error);
    }
    var solution := UndoSwaps(back.value, actions);
    return Ok(solution);
  }
}
