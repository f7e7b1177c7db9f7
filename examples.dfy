module Examples {
  import opened Results
  import opened Matrices
  import opened RowOps
  import opened Actions
  import opened Validation
  import opened Pivot
  import opened Elimination
  import opened EchelonForm
  import opened Replay
  import opened Equivalence
  import opened Linear
  import opened BackSubstitution
  import opened Solver

  const Identity: Matrix := [[1.0, 0.0, 0.0], [0.0, 1.0, 0.0], [0.0, 0.0, 1.0]]

  lemma IdentityPivots()
    ensures MaxOf(Identity, 0) == Candidate(0, 0, 1.0)
    ensures MaxOf(Identity, 1) == Candidate(1, 1, 1.0)
    ensures MaxOf(Identity, 2) == Candidate(2, 2, 1.0)
  {
  }

  lemma IdentitySteps()
    ensures Eliminate(Identity) == Ok(Echelon(Identity, [], 3))
  {
    IdentityPivots();
    assert CheckMatrix(Identity) == None;
    assert RowSwapLog(0, Candidate(0, 0, 1.0)) == [];
    assert ColumnSwapLog(0, Candidate(0, 0, 1.0)) == [];
    assert PivotSwaps(Identity, 0, Candidate(0, 0, 1.0)).1 == [];
    assert PivotSwaps(Identity, 0, Candidate(0, 0, 1.0)).0 == Identity;
    assert PivotSwaps(Identity, 0, Candidate(0, 0, 1.0)) == (Identity, []);
    assert PivotSwaps(Identity, 1, Candidate(1, 1, 1.0)) == (Identity, []);
    assert PivotSwaps(Identity, 2, Candidate(2, 2, 1.0)) == (Identity, []);
    assert EliminateBelow(Identity, 0, 1) == (Identity, []);
    assert EliminateBelow(Identity, 1, 2) == (Identity, []);
    assert EliminateBelow(Identity, 2, 3) == (Identity, []);
    assert StepsFrom(Identity, 3) == Echelon(Identity, [], 3);
    assert StepsFrom(Identity, 2) == Echelon(Identity, [], 3);
    assert StepsFrom(Identity, 1) == Echelon(Identity, [], 3);
  }

  /** Row 2, then row 1, then row 0 of the identity each fix their own unknown. */
  lemma IdentityBackSubstitution(b: seq<real>)
    requires |b| == 3
    ensures BackSubstitution.BackSubstitution(Identity, b) == Ok([Fixed(b[0]), Fixed(b[1]), Fixed(b[2])])
  {
    var s0 := [Unset, Unset, Unset];
    var s1 := [Unset, Unset, Fixed(b[2])];
    var s2 := [Unset, Fixed(b[1]), Fixed(b[2])];
    var s3 := [Fixed(b[0]), Fixed(b[1]), Fixed(b[2])];
    assert AllUnset(3) == s0;
    assert ScanRow(Identity[2], s0, 1) == Ok(RowScan(0, 0.0, 3));
    assert ScanRow(Identity[2], s0, 2) == Ok(RowScan(0, 0.0, 3));
    assert ScanRow(Identity[2], s0, 3) == Ok(RowScan(1, 0.0, 2));
    assert s0[2 := Fixed((b[2] - 0.0) / Identity[2][2])] == s1;
    assert RowStep(Identity[2], b[2], s0) == Ok(s1);
    assert ScanRow(Identity[1], s1, 1) == Ok(RowScan(0, 0.0, 3));
    assert ScanRow(Identity[1], s1, 2) == Ok(RowScan(1, 0.0, 1));
    assert ScanRow(Identity[1], s1, 3) == Ok(RowScan(1, 0.0, 1));
    assert s1[1 := Fixed((b[1] - 0.0) / Identity[1][1])] == s2;
    assert RowStep(Identity[1], b[1], s1) == Ok(s2);
    assert ScanRow(Identity[0], s2, 1) == Ok(RowScan(1, 0.0, 0));
    assert ScanRow(Identity[0], s2, 2) == Ok(RowScan(1, 0.0, 0));
    assert ScanRow(Identity[0], s2, 3) == Ok(RowScan(1, 0.0, 0));
    assert s2[0 := Fixed((b[0] - 0.0) / Identity[0][0])] == s3;
    assert RowStep(Identity[0], b[0], s2) == Ok(s3);
    assert BackSubFrom(Identity, b, s3, 0) == Ok(s3);
    assert BackSubFrom(Identity, b, s2, 1) == Ok(s3);
    assert BackSubFrom(Identity, b, s1, 2) == Ok(s3);
    assert BackSubFrom(Identity, b, s0, 3) == Ok(s3);
  }

  /** `solve` on the identity matrix: every unknown is fixed to its entry of the free column. */
  lemma IdentitySolve(b: seq<real>)
    requires |b| == 3
    ensures SolveSpec(Identity, b) == Ok([Fixed(b[0]), Fixed(b[1]), Fixed(b[2])])
  {
    IdentitySteps();
    IdentityBackSubstitution(b);
    var e := Echelon(Identity, [], 3);
    EliminationLog(Identity);
    assert ReplayOnColumn(b, []) == b;
    assert ReducedSlots(Identity, e, b) == Ok([Fixed(b[0]), Fixed(b[1]), Fixed(b[2])]);
    assert UndoColumnSwaps([Fixed(b[0]), Fixed(b[1]), Fixed(b[2])], []) == [Fixed(b[0]), Fixed(b[1]), Fixed(b[2])];
  }

  /** Three equations in two unknowns that no `x` satisfies. */
  const Overdetermined: Matrix := [[2.0, 3.0], [3.0, 2.0], [1.0, 0.0]]

  /** After the column swap of step 0. */
  const OverdeterminedSwapped: Matrix := [[3.0, 2.0], [2.0, 3.0], [0.0, 1.0]]

  /** After step 0. */
  const OverdeterminedStep0: Matrix := [[3.0, 2.0], [0.0, 5.0 / 3.0], [0.0, 1.0]]

  /** After step 1: the reduced matrix, whose last row is zero. */
  const OverdeterminedReduced: Matrix := [[3.0, 2.0], [0.0, 5.0 / 3.0], [0.0, 0.0]]

  const OverdeterminedLog: seq<Action> :=
    [Swap(Column, 0, 1), RowAddition(0, 1, -2.0 / 3.0), RowAddition(1, 2, -3.0 / 5.0)]

  lemma OverdeterminedPivots()
    ensures MaxOf(Overdetermined, 0) == Candidate(0, 1, 3.0)
    ensures MaxOf(OverdeterminedStep0, 1) == Candidate(1, 1, 5.0 / 3.0)
  {
  }

  lemma OverdeterminedSteps()
    ensures Eliminate(Overdetermined) == Ok(Echelon(OverdeterminedReduced, OverdeterminedLog, 2))
  {
    OverdeterminedPivots();
    var m := Overdetermined;
    assert CheckMatrix(m) == None;
    var p0 := Candidate(0, 1, 3.0);
    assert RowSwapLog(0, p0) == [];
    assert ColumnSwapLog(0, p0) == [Swap(Column, 0, 1)];
    assert PivotSwaps(m, 0, p0).1 == [Swap(Column, 0, 1)];
    assert Swapped(m[0], 0, 1) == [3.0, 2.0];
    assert Swapped(m[1], 0, 1) == [2.0, 3.0];
    assert Swapped(m[2], 0, 1) == [0.0, 1.0];
    assert ColumnsSwapped(m, 0, 1) == OverdeterminedSwapped;
    assert PivotSwaps(m, 0, p0).0 == OverdeterminedSwapped;
    var a0 := RowAdded(OverdeterminedSwapped, 0, 1, -2.0 / 3.0);
    assert a0[1][0] == 0.0 && a0[1][1] == 5.0 / 3.0;
    assert a0[1] == [0.0, 5.0 / 3.0];
    assert a0 == OverdeterminedStep0;
    assert EliminateBelow(OverdeterminedStep0, 0, 3) == (OverdeterminedStep0, []);
    assert EliminateBelow(OverdeterminedStep0, 0, 2) == (OverdeterminedStep0, []);
    assert EliminationCoef(OverdeterminedSwapped[1][0], OverdeterminedSwapped[0][0]) == -2.0 / 3.0;
    assert OverdeterminedSwapped[1][0] != 0.0;
    assert EliminateBelow(RowAdded(OverdeterminedSwapped, 0, 1, -2.0 / 3.0), 0, 2) == (OverdeterminedStep0, []);
    assert [RowAddition(0, 1, -2.0 / 3.0)] + [] == [RowAddition(0, 1, -2.0 / 3.0)];
    assert EliminateBelow(OverdeterminedSwapped, 0, 1) == (OverdeterminedStep0, [RowAddition(0, 1, -2.0 / 3.0)]);
    var p1 := Candidate(1, 1, 5.0 / 3.0);
    assert RowSwapLog(1, p1) == [];
    assert ColumnSwapLog(1, p1) == [];
    assert PivotSwaps(OverdeterminedStep0, 1, p1).1 == [];
    assert PivotSwaps(OverdeterminedStep0, 1, p1).0 == OverdeterminedStep0;
    var a1 := RowAdded(OverdeterminedStep0, 1, 2, -3.0 / 5.0);
    assert a1[2][0] == 0.0 && a1[2][1] == 0.0;
    assert a1[2] == [0.0, 0.0];
    assert a1 == OverdeterminedReduced;
    assert EliminateBelow(OverdeterminedReduced, 1, 3) == (OverdeterminedReduced, []);
    assert EliminationCoef(OverdeterminedStep0[2][1], OverdeterminedStep0[1][1]) == -3.0 / 5.0;
    assert OverdeterminedStep0[2][1] != 0.0;
    assert EliminateBelow(RowAdded(OverdeterminedStep0, 1, 2, -3.0 / 5.0), 1, 3) == (OverdeterminedReduced, []);
    assert [RowAddition(1, 2, -3.0 / 5.0)] + [] == [RowAddition(1, 2, -3.0 / 5.0)];
    assert EliminateBelow(OverdeterminedStep0, 1, 2) == (OverdeterminedReduced, [RowAddition(1, 2, -3.0 / 5.0)]);
    assert StepsFrom(OverdeterminedReduced, 2) == Echelon(OverdeterminedReduced, [], 2);
    assert StepsFrom(OverdeterminedStep0, 1) == Echelon(OverdeterminedReduced, [RowAddition(1, 2, -3.0 / 5.0)], 2);
    assert StepsFrom(m, 0) == Echelon(OverdeterminedReduced, OverdeterminedLog, 2);
  }

  /** The free column `[1, 1, 1]` replayed on the log: `[1, 1/3, 4/5]`. */
  lemma OverdeterminedReplay()
    ensures ColumnLog(OverdeterminedLog, 3)
    ensures ReplayOnColumn([1.0, 1.0, 1.0], OverdeterminedLog) == [1.0, 1.0 / 3.0, 4.0 / 5.0]
  {
    var log := OverdeterminedLog;
    assert ColumnLog(log, 3) by {
      assert FitsColumn(log[0], 3) && FitsColumn(log[1], 3) && FitsColumn(log[2], 3);
    }
    assert log[..0] == [];
    assert log[..1][..0] == [];
    assert log[..2][..1] == log[..1];
    assert log[..3][..2] == log[..2];
    assert log[..3] == log;
    assert ReplayOnColumn([1.0, 1.0, 1.0], log[..1]) == [1.0, 1.0, 1.0];
    assert ReplayOnColumn([1.0, 1.0, 1.0], log[..2]) == [1.0, 1.0 / 3.0, 1.0];
    assert ReplayOnColumn([1.0, 1.0, 1.0], log[..3]) == [1.0, 1.0 / 3.0, 4.0 / 5.0];
  }

  /**
    `solve` on the overdetermined system reports that there is no solution:
    the zero last row of the reduced matrix meets the non-zero entry `4/5`.
  */
  lemma OverdeterminedSolve()
    ensures SolveSpec(Overdetermined, [1.0, 1.0, 1.0]) == Err(NoSolution)
  {
    OverdeterminedSteps();
    OverdeterminedReplay();
    var b' := [1.0, 1.0 / 3.0, 4.0 / 5.0];
    var s0 := AllUnset(2);
    assert s0 == [Unset, Unset];
    var zero := OverdeterminedReduced[2];
    assert zero == [0.0, 0.0];
    assert ScanRow(zero, s0, 1) == Ok(RowScan(0, 0.0, 2));
    assert ScanRow(zero, s0, 2) == Ok(RowScan(0, 0.0, 2));
    assert RowStep(zero, 4.0 / 5.0, s0) == Err(NoSolution);
    assert BackSubFrom(OverdeterminedReduced, b', s0, 3) == Err(NoSolution);
    var e := Echelon(OverdeterminedReduced, OverdeterminedLog, 2);
    EliminationLog(Overdetermined);
    assert ReducedSlots(Overdetermined, e, [1.0, 1.0, 1.0]) == Err(NoSolution);
  }

  /**
    The replay of lines 79-84 as written stops at the first action of the
    log, a column swap, with `NameError`: `solve` never reaches the
    back-substitution on this input.
  */
  lemma OverdeterminedReplayAsWritten()
    ensures ColumnLog(OverdeterminedLog, 3)
    ensures ReplayAsWritten([1.0, 1.0, 1.0], OverdeterminedLog) == Err(NameError)
  {
    OverdeterminedReplay();
    ReplayAsWrittenCrashes([1.0, 1.0, 1.0], OverdeterminedLog);
    assert 0 < |OverdeterminedLog| && OverdeterminedLog[0] == Swap(Column, 0, 1);
    var r := ReplayAsWritten([1.0, 1.0, 1.0], OverdeterminedLog);
    assert r.Err? && r.error.NameError?;
  }

  /** Three equations in three unknowns whose solutions form a line. */
  const Underdetermined: Matrix := [[1.0, 0.0, 0.0], [0.0, 1.0, 1.0], [0.0, 4.5, 4.5]]

  /** After the row swap and the column swap of step 0. */
  const UnderdeterminedSwapped: Matrix := [[4.5, 0.0, 4.5], [1.0, 0.0, 1.0], [0.0, 1.0, 0.0]]

  /** After step 0. */
  const UnderdeterminedStep0: Matrix := [[4.5, 0.0, 4.5], [0.0, 0.0, 0.0], [0.0, 1.0, 0.0]]

  /** After step 1: the reduced matrix, of rank 2. */
  const UnderdeterminedReduced: Matrix := [[4.5, 0.0, 4.5], [0.0, 1.0, 0.0], [0.0, 0.0, 0.0]]

  const UnderdeterminedLog: seq<Action> :=
    [Swap(Row, 0, 2), Swap(Column, 0, 1), RowAddition(0, 1, -2.0 / 9.0), Swap(Row, 1, 2)]

  lemma UnderdeterminedPivots()
    ensures MaxOf(Underdetermined, 0) == Candidate(2, 1, 4.5)
    ensures MaxOf(UnderdeterminedStep0, 1) == Candidate(2, 1, 1.0)
    ensures MaxOf(UnderdeterminedReduced, 2) == Candidate(2, 2, 0.0)
  {
  }

  /** Step 0 brings the pivot `4.5` from `(2, 1)` to `(0, 0)` and clears row 1. */
  lemma UnderdeterminedFirstStep()
    ensures MaxOf(Underdetermined, 0).value != 0.0
    ensures Step(Underdetermined, 0) ==
      (UnderdeterminedStep0, [Swap(Row, 0, 2), Swap(Column, 0, 1), RowAddition(0, 1, -2.0 / 9.0)])
  {
    UnderdeterminedPivots();
    var m := Underdetermined;
    var p0 := Candidate(2, 1, 4.5);
    assert RowSwapLog(0, p0) == [Swap(Row, 0, 2)];
    assert ColumnSwapLog(0, p0) == [Swap(Column, 0, 1)];
    assert PivotSwaps(m, 0, p0).1 == [Swap(Row, 0, 2), Swap(Column, 0, 1)];
    var m1 := Swapped(m, 0, 2);
    assert m1 == [[0.0, 4.5, 4.5], [0.0, 1.0, 1.0], [1.0, 0.0, 0.0]];
    assert Swapped(m1[0], 0, 1) == [4.5, 0.0, 4.5];
    assert Swapped(m1[1], 0, 1) == [1.0, 0.0, 1.0];
    assert Swapped(m1[2], 0, 1) == [0.0, 1.0, 0.0];
    assert ColumnsSwapped(m1, 0, 1) == UnderdeterminedSwapped;
    assert PivotSwaps(m, 0, p0).0 == UnderdeterminedSwapped;
    var a0 := RowAdded(UnderdeterminedSwapped, 0, 1, -2.0 / 9.0);
    assert a0[1][0] == 0.0 && a0[1][1] == 0.0 && a0[1][2] == 0.0;
    assert a0[1] == [0.0, 0.0, 0.0];
    assert a0 == UnderdeterminedStep0;
    assert EliminateBelow(UnderdeterminedStep0, 0, 3) == (UnderdeterminedStep0, []);
    assert EliminateBelow(UnderdeterminedStep0, 0, 2) == (UnderdeterminedStep0, []);
    assert UnderdeterminedSwapped[1][0] != 0.0;
    assert EliminationCoef(UnderdeterminedSwapped[1][0], UnderdeterminedSwapped[0][0]) == -2.0 / 9.0;
    assert EliminateBelow(RowAdded(UnderdeterminedSwapped, 0, 1, -2.0 / 9.0), 0, 2) == (UnderdeterminedStep0, []);
    assert [RowAddition(0, 1, -2.0 / 9.0)] + [] == [RowAddition(0, 1, -2.0 / 9.0)];
    assert EliminateBelow(UnderdeterminedSwapped, 0, 1) == (UnderdeterminedStep0, [RowAddition(0, 1, -2.0 / 9.0)]);
    assert PivotSwaps(m, 0, p0) == (UnderdeterminedSwapped, [Swap(Row, 0, 2), Swap(Column, 0, 1)]);
    assert [Swap(Row, 0, 2), Swap(Column, 0, 1)] + [RowAddition(0, 1, -2.0 / 9.0)] ==
      [Swap(Row, 0, 2), Swap(Column, 0, 1), RowAddition(0, 1, -2.0 / 9.0)];
  }

  /** Step 1 brings the pivot `1` up from row 2; step 2 meets a zero block and stops. */
  lemma UnderdeterminedLaterSteps()
    ensures StepsFrom(UnderdeterminedStep0, 1) == Echelon(UnderdeterminedReduced, [Swap(Row, 1, 2)], 2)
  {
    UnderdeterminedPivots();
    var p1 := Candidate(2, 1, 1.0);
    assert RowSwapLog(1, p1) == [Swap(Row, 1, 2)];
    assert ColumnSwapLog(1, p1) == [];
    assert PivotSwaps(UnderdeterminedStep0, 1, p1).1 == [Swap(Row, 1, 2)];
    assert Swapped(UnderdeterminedStep0, 1, 2) == UnderdeterminedReduced;
    assert PivotSwaps(UnderdeterminedStep0, 1, p1).0 == UnderdeterminedReduced;
    assert EliminateBelow(UnderdeterminedReduced, 1, 3) == (UnderdeterminedReduced, []);
    assert EliminateBelow(UnderdeterminedReduced, 1, 2) == (UnderdeterminedReduced, []);
    assert StepsFrom(UnderdeterminedReduced, 2) == Echelon(UnderdeterminedReduced, [], 2);
    assert [Swap(Row, 1, 2)] + [] == [Swap(Row, 1, 2)];
  }

  lemma UnderdeterminedSteps()
    ensures Eliminate(Underdetermined) == Ok(Echelon(UnderdeterminedReduced, UnderdeterminedLog, 2))
  {
    assert CheckMatrix(Underdetermined) == None;
    UnderdeterminedFirstStep();
    UnderdeterminedLaterSteps();
    assert [Swap(Row, 0, 2), Swap(Column, 0, 1), RowAddition(0, 1, -2.0 / 9.0)] + [Swap(Row, 1, 2)] == UnderdeterminedLog;
  }

  /** The free column `[0, 2, 9]` replayed on the log: `[9, 0, 0]`. */
  lemma UnderdeterminedReplay()
    ensures ColumnLog(UnderdeterminedLog, 3)
    ensures ReplayOnColumn([0.0, 2.0, 9.0], UnderdeterminedLog) == [9.0, 0.0, 0.0]
  {
    var log := UnderdeterminedLog;
    assert ColumnLog(log, 3) by {
      assert FitsColumn(log[0], 3) && FitsColumn(log[1], 3) && FitsColumn(log[2], 3) && FitsColumn(log[3], 3);
    }
    assert log[..1][..0] == [];
    assert log[..2][..1] == log[..1];
    assert log[..3][..2] == log[..2];
    assert log[..4][..3] == log[..3];
    assert log[..4] == log;
    assert ReplayOnColumn([0.0, 2.0, 9.0], log[..1]) == [9.0, 2.0, 0.0];
    assert ReplayOnColumn([0.0, 2.0, 9.0], log[..2]) == [9.0, 2.0, 0.0];
    assert ReplayOnColumn([0.0, 2.0, 9.0], log[..3]) == [9.0, 0.0, 0.0];
    assert ReplayOnColumn([0.0, 2.0, 9.0], log[..4]) == [9.0, 0.0, 0.0];
  }

  /**
    The zero row 2 asks nothing, row 1 fixes unknown 1 to `0`, and row 0
    has two new unknowns: the first, unknown 0, becomes `-x[2] + 2`.
  */
  lemma UnderdeterminedBackSubstitution()
    ensures BackSubstitution.BackSubstitution(UnderdeterminedReduced, [9.0, 0.0, 0.0]) ==
      Ok([Param([0.0, 0.0, -1.0, 2.0]), Fixed(0.0), Unset])
  {
    var m := UnderdeterminedReduced;
    var b := [9.0, 0.0, 0.0];
    var s0 := [Unset, Unset, Unset];
    var s2 := [Unset, Fixed(0.0), Unset];
    var s3 := [Param([0.0, 0.0, -1.0, 2.0]), Fixed(0.0), Unset];
    assert AllUnset(3) == s0;
    assert m[2] == [0.0, 0.0, 0.0];
    assert ScanRow(m[2], s0, 1) == Ok(RowScan(0, 0.0, 3));
    assert ScanRow(m[2], s0, 2) == Ok(RowScan(0, 0.0, 3));
    assert ScanRow(m[2], s0, 3) == Ok(RowScan(0, 0.0, 3));
    assert RowStep(m[2], 0.0, s0) == Ok(s0);
    assert ScanRow(m[1], s0, 1) == Ok(RowScan(0, 0.0, 3));
    assert ScanRow(m[1], s0, 2) == Ok(RowScan(1, 0.0, 1));
    assert ScanRow(m[1], s0, 3) == Ok(RowScan(1, 0.0, 1));
    assert s0[1 := Fixed((0.0 - 0.0) / m[1][1])] == s2;
    assert RowStep(m[1], 0.0, s0) == Ok(s2);
    assert ScanRow(m[0], s2, 1) == Ok(RowScan(1, 0.0, 0));
    assert ScanRow(m[0], s2, 2) == Ok(RowScan(1, 0.0, 0));
    assert ScanRow(m[0], s2, 3) == Ok(RowScan(2, 0.0, 0));
    var coefs := ParamCoefs(m[0], s2, 0, 3);
    assert IsNew(m[0], s2, 2) && !IsNew(m[0], s2, 1);
    assert coefs[0] == 0.0 && coefs[1] == 0.0 && coefs[2] == -1.0;
    assert coefs == [0.0, 0.0, -1.0];
    assert ParamRow(m[0], s2, 0, 9.0 - 0.0) == [0.0, 0.0, -1.0, 2.0];
    assert s2[0 := Param([0.0, 0.0, -1.0, 2.0])] == s3;
    assert RowStep(m[0], 9.0, s2) == Ok(s3);
    assert BackSubFrom(m, b, s3, 0) == Ok(s3);
    assert BackSubFrom(m, b, s2, 1) == Ok(s3);
    assert BackSubFrom(m, b, s0, 2) == Ok(s3);
    assert BackSubFrom(m, b, s0, 3) == Ok(s3);
  }

  /** Undoing the log's one column swap exchanges the slots of unknowns 0 and 1. */
  lemma UnderdeterminedUndo()
    ensures FitsSolution(UnderdeterminedLog, 3)
    ensures UndoColumnSwaps([Param([0.0, 0.0, -1.0, 2.0]), Fixed(0.0), Unset], UnderdeterminedLog) ==
      [Fixed(0.0), Param([0.0, 0.0, -1.0, 2.0]), Unset]
  {
    var log := UnderdeterminedLog;
    var slots := [Param([0.0, 0.0, -1.0, 2.0]), Fixed(0.0), Unset];
    var swapped := [Fixed(0.0), Param([0.0, 0.0, -1.0, 2.0]), Unset];
    assert FitsSolution(log, 3);
    assert log[..4] == log;
    assert log[..4][..3] == log[..3];
    assert log[..3][..2] == log[..2];
    assert log[..2][..1] == log[..1];
    assert log[..1][..0] == [];
    assert UndoColumnSwaps(swapped, log[..1]) == swapped;
    assert Swapped(slots, 0, 1) == swapped;
    assert UndoColumnSwaps(slots, log[..2]) == swapped;
    assert UndoColumnSwaps(slots, log[..3]) == swapped;
    assert UndoColumnSwaps(slots, log[..4]) == swapped;
  }

  /**
    `solve` on the underdetermined system: unknown 1 is `-x[2] + 2`, unknown
    0 is `0` and unknown 2 stays free, once the column swap of step 0 is
    undone on the slots.
  */
  lemma UnderdeterminedSolve()
    ensures SolveSpec(Underdetermined, [0.0, 2.0, 9.0]) == Ok([Fixed(0.0), Param([0.0, 0.0, -1.0, 2.0]), Unset])
  {
    UnderdeterminedSteps();
    UnderdeterminedReplay();
    UnderdeterminedBackSubstitution();
    EliminationLog(Underdetermined);
    var e := Echelon(UnderdeterminedReduced, UnderdeterminedLog, 2);
    var slots := [Param([0.0, 0.0, -1.0, 2.0]), Fixed(0.0), Unset];
    assert ReducedSlots(Underdetermined, e, [0.0, 2.0, 9.0]) == Ok(slots);
    UnderdeterminedUndo();
  }

  /**
    As written, the replay gets past the row swap at the head of the log and
    raises `NameError` at the column swap after it.
  */
  lemma UnderdeterminedReplayAsWritten()
    ensures ColumnLog(UnderdeterminedLog, 3)
    ensures ReplayAsWritten([0.0, 2.0, 9.0], UnderdeterminedLog) == Err(NameError)
  {
    UnderdeterminedReplay();
    ReplayAsWrittenCrashes([0.0, 2.0, 9.0], UnderdeterminedLog);
    assert UnderdeterminedLog[1] == Swap(Column, 0, 1);
    var r := ReplayAsWritten([0.0, 2.0, 9.0], UnderdeterminedLog);
    assert r.Err? && r.error.NameError?;
  }

  /**
    The solutions of the underdetermined system are exactly what the result
    describes: unknown 0 is `0`, unknown 2 is free, and unknown 1 is
    `-x[2] + 2`.
  */
  lemma UnderdeterminedFamily(y: seq<real>)
    requires |y| == 3
    ensures Solves(Underdetermined, y, [0.0, 2.0, 9.0]) <==> y[0] == 0.0 && y[1] == -y[2] + 2.0
  {
    var m := Underdetermined;
    forall r | 0 <= r < 3
      ensures Dot(m[r], y) == m[r][0] * y[0] + m[r][1] * y[1] + m[r][2] * y[2]
    {
      assert PartialDot(m[r], y, 1) == m[r][0] * y[0];
      assert PartialDot(m[r], y, 2) == m[r][0] * y[0] + m[r][1] * y[1];
    }
    assert Dot(m[0], y) == y[0];
    assert Dot(m[1], y) == y[1] + y[2];
    assert Dot(m[2], y) == 4.5 * (y[1] + y[2]);
    assert IsShape(m, 3, 3);
  }
}
