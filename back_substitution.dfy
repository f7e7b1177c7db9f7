/**
  The back-substitution of `solve` (lines 91-124): the rows of the reduced
  system from the last to the first, each giving one slot of the solution a
  value, a parametric row, or nothing.

  A slot is `Unset` (`None`, a free unknown), `Fixed(v)` (a number), or
  `Param(coefficients)`: the unknown is `coefficients[c]` times unknown `c`,
  summed over the columns, plus the last coefficient.
*/
module BackSubstitution {
  import opened Results
  import opened Matrices
  import opened Validation
  import opened Linear

  datatype Slot = Unset | Fixed(value: real) | Param(coefficients: seq<real>)

  /**
    Why `solve` gives no solution: a bad shape (the `ValueError` of
    `check_matrix`), an inconsistent equation (line 107), or a row that
    needs a parametric slot as a number (line 104, a `TypeError`).
  */
  datatype SolveError = InvalidShape(shape: ShapeError) | NoSolution | ParametricSlotInSum

  /** The accumulators `new_vars`, `left_sum` and `new_var_pos` of lines 95-97. */
  datatype RowScan = RowScan(newVars: nat, leftSum: real, newVarPos: nat)

  /** What a slot adds to `left_sum`: its number when fixed, nothing otherwise. */
  function ValueOf(s: Slot): real
  {
    if s.Fixed? then s.value else 0.0
  }

  function Values(sol: seq<Slot>): (r: seq<real>)
    ensures |r| == |sol|
    ensures forall c :: 0 <= c < |sol| ==> r[c] == ValueOf(sol[c])
  {
    seq(|sol|, c requires 0 <= c < |sol| => ValueOf(sol[c]))
  }

  /** Column `c` brings a new unknown into the row: its entry is not zero and its slot is `None`. */
  predicate IsNew(row: seq<real>, sol: seq<Slot>, c: nat)
    requires c < |row| && c < |sol|
  {
    row[c] != 0.0 && sol[c].Unset?
  }

  /** Column `c` makes line 104 multiply a parametric row by a number. */
  predicate HitsParam(row: seq<real>, sol: seq<Slot>, c: nat)
    requires c < |row| && c < |sol|
  {
    row[c] != 0.0 && sol[c].Param?
  }

  ghost function NewColumns(row: seq<real>, sol: seq<Slot>, k: nat): set<nat>
    requires k <= |row| && |row| == |sol|
  {
    set c: nat | c < k && IsNew(row, sol, c)
  }

  /** No new unknown among the columns `0..k` when there are none to count. */
  lemma NoNewColumns(row: seq<real>, sol: seq<Slot>, k: nat)
    requires k <= |row| && |row| == |sol| && |NewColumns(row, sol, k)| == 0
    ensures forall c :: 0 <= c < k ==> !IsNew(row, sol, c)
  {
    forall c | 0 <= c < k
      ensures !IsNew(row, sol, c)
    {
      assert c !in NewColumns(row, sol, k);
    }
  }

  /** A new unknown at column `k` adds one to the count. */
  lemma NewColumnsGrow(row: seq<real>, sol: seq<Slot>, k: nat)
    requires k < |row| && |row| == |sol| && IsNew(row, sol, k)
    ensures NewColumns(row, sol, k + 1) == NewColumns(row, sol, k) + {k}
    ensures |NewColumns(row, sol, k + 1)| == |NewColumns(row, sol, k)| + 1
    ensures |NewColumns(row, sol, k)| == 0 ==> forall c :: 0 <= c < k ==> !IsNew(row, sol, c)
  {
    assert NewColumns(row, sol, k + 1) == NewColumns(row, sol, k) + {k};
    assert k !in NewColumns(row, sol, k);
    if |NewColumns(row, sol, k)| == 0 {
      NoNewColumns(row, sol, k);
    }
  }

  /**
    Lines 98-104 over the columns `0..k`: count the new unknowns, keep the
    first of them (`len(m[0])` until there is one), and sum the row's fixed
    terms; stop with an error when a non-zero entry meets a parametric slot.
  */
  function ScanRow(row: seq<real>, sol: seq<Slot>, k: nat): (r: Result<RowScan, SolveError>)
    requires |row| == |sol| && k <= |row|
    ensures r.Err? ==> r.error == ParametricSlotInSum
    decreases k
  {
    if k == 0 then Ok(RowScan(0, 0.0, |row|))
    else
      match ScanRow(row, sol, k - 1)
      case Err(e) => Err(e)
      case Ok(s) => ScanStep(row, sol, k - 1, s)
  }

  /** Column `c` of the scan of lines 98-104, after the columns before it gave `s`. */
  function ScanStep(row: seq<real>, sol: seq<Slot>, c: nat, s: RowScan): (r: Result<RowScan, SolveError>)
    requires |row| == |sol| && c < |row|
    ensures r.Err? ==> r.error == ParametricSlotInSum
  {
    if row[c] == 0.0 then Ok(s)
    else
      match sol[c]
      case Unset => Ok(RowScan(s.newVars + 1, s.leftSum, Min(c, s.newVarPos)))
      case Fixed(v) => Ok(RowScan(s.newVars, s.leftSum + v * row[c], s.newVarPos))
      case Param(_) => Err(ParametricSlotInSum)
  }

  /** The scan fails exactly when a non-zero entry meets a parametric slot. */
  lemma {:induction false} ScanRowFails(row: seq<real>, sol: seq<Slot>, k: nat)
    requires |row| == |sol| && k <= |row|
    ensures ScanRow(row, sol, k).Err? <==> exists c :: 0 <= c < k && HitsParam(row, sol, c)
    decreases k
  {
    if k > 0 {
      var c := k - 1;
      ScanRowFails(row, sol, c);
      if ScanRow(row, sol, c).Ok? && HitsParam(row, sol, c) {
        assert ScanRow(row, sol, k).Err?;
      }
    }
  }

  /** `new_vars` counts the new unknowns of the row. */
  lemma {:induction false} ScanRowCounts(row: seq<real>, sol: seq<Slot>, k: nat)
    requires |row| == |sol| && k <= |row| && ScanRow(row, sol, k).Ok?
    ensures ScanRow(row, sol, k).value.newVars == |NewColumns(row, sol, k)|
    decreases k
  {
    if k == 0 {
      assert NewColumns(row, sol, k) == {};
    } else {
      var c := k - 1;
      ScanRowCounts(row, sol, c);
      if IsNew(row, sol, c) {
        NewColumnsGrow(row, sol, c);
      } else {
        assert NewColumns(row, sol, k) == NewColumns(row, sol, c);
      }
    }
  }

  /** `left_sum` is the row times the values of the fixed slots. */
  lemma {:induction false} ScanRowSums(row: seq<real>, sol: seq<Slot>, k: nat)
    requires |row| == |sol| && k <= |row| && ScanRow(row, sol, k).Ok?
    ensures ScanRow(row, sol, k).value.leftSum == PartialDot(row, Values(sol), k)
    decreases k
  {
    if k > 0 {
      var c := k - 1;
      ScanRowSums(row, sol, c);
      var before := ScanRow(row, sol, c).value.leftSum;
      var after := ScanRow(row, sol, k).value.leftSum;
      if row[c] != 0.0 && sol[c].Fixed? {
        assert after == before + sol[c].value * row[c];
      } else {
        assert after == before;
        assert row[c] * Values(sol)[c] == 0.0;
      }
    }
  }

  /** `new_var_pos` is the first new unknown, or the row's length when there is none. */
  lemma {:induction false} ScanRowFindsFirst(row: seq<real>, sol: seq<Slot>, k: nat)
    requires |row| == |sol| && k <= |row| && ScanRow(row, sol, k).Ok?
    ensures ScanRow(row, sol, k).value.newVars == 0 ==> ScanRow(row, sol, k).value.newVarPos == |row|
    ensures ScanRow(row, sol, k).value.newVars > 0 ==>
      var p := ScanRow(row, sol, k).value.newVarPos;
      p < k && IsNew(row, sol, p) && forall c :: 0 <= c < p ==> !IsNew(row, sol, c)
    ensures ScanRow(row, sol, k).value.newVars == 0 ==> forall c :: 0 <= c < k ==> !IsNew(row, sol, c)
    decreases k
  {
    if k > 0 {
      ScanRowFindsFirst(row, sol, k - 1);
    }
  }

  /**
    What the scan of lines 98-104 computes: it fails exactly when a non-zero
    entry meets a parametric slot; otherwise `new_vars` is the number of new
    unknowns, `new_var_pos` the first of them (or `len(m[0])`), and
    `left_sum` the row times the fixed values.
  */
  lemma ScanRowMeaning(row: seq<real>, sol: seq<Slot>, k: nat)
    requires |row| == |sol| && k <= |row|
    ensures ScanRow(row, sol, k).Err? <==> exists c :: 0 <= c < k && HitsParam(row, sol, c)
    ensures ScanRow(row, sol, k).Ok? ==> ScanRow(row, sol, k).value.newVars == |NewColumns(row, sol, k)|
    ensures ScanRow(row, sol, k).Ok? ==> ScanRow(row, sol, k).value.leftSum == PartialDot(row, Values(sol), k)
    ensures ScanRow(row, sol, k).Ok? && ScanRow(row, sol, k).value.newVars == 0 ==>
      ScanRow(row, sol, k).value.newVarPos == |row|
    ensures ScanRow(row, sol, k).Ok? && ScanRow(row, sol, k).value.newVars > 0 ==>
      var p := ScanRow(row, sol, k).value.newVarPos;
      && p < k && IsNew(row, sol, p)
      && forall c :: 0 <= c < p ==> !IsNew(row, sol, c)
  {
    ScanRowFails(row, sol, k);
    if ScanRow(row, sol, k).Ok? {
      ScanRowCounts(row, sol, k);
      ScanRowSums(row, sol, k);
      ScanRowFindsFirst(row, sol, k);
    }
  }

  /** The facts about a successful scan of a whole row that its callers use. */
  lemma ScanRowFinds(row: seq<real>, sol: seq<Slot>)
    requires |row| == |sol| && ScanRow(row, sol, |row|).Ok?
    ensures var s := ScanRow(row, sol, |row|).value;
      && (s.newVars > 0 ==> s.newVarPos < |row| && IsNew(row, sol, s.newVarPos))
      && (s.newVars > 0 ==> forall c :: 0 <= c < s.newVarPos ==> !IsNew(row, sol, c))
  {
    ScanRowMeaning(row, sol, |row|);
  }

  /** Line 118-120: the coefficient of column `c` in the parametric row for unknown `p`. */
  function ParamCoef(row: seq<real>, sol: seq<Slot>, p: nat, c: nat): real
    requires |row| == |sol| && p < |row| && row[p] != 0.0 && c < |row|
  {
    if c == p then 0.0
    else if IsNew(row, sol, c) then -row[c] / row[p]
    else 0.0
  }

  /** The first `k` coefficients of the parametric row, lines 113-122. */
  function ParamCoefs(row: seq<real>, sol: seq<Slot>, p: nat, k: nat): (r: seq<real>)
    requires |row| == |sol| && p < |row| && row[p] != 0.0 && k <= |row|
    ensures |r| == k
    ensures forall c :: 0 <= c < k ==> r[c] == ParamCoef(row, sol, p, c)
  {
    seq(k, c requires 0 <= c < k => ParamCoef(row, sol, p, c))
  }

  /**
    Lines 112-124: the parametric row for unknown `p`, the first new unknown
    of the row: one coefficient per column, zero at `p` itself and at every
    column before it, then the constant term.
  */
  function ParamRow(row: seq<real>, sol: seq<Slot>, p: nat, rest: real): (r: seq<real>)
    requires |row| == |sol| && p < |row| && row[p] != 0.0
    requires forall c :: 0 <= c < p ==> !IsNew(row, sol, c)
    ensures |r| == |row| + 1
    ensures forall c :: 0 <= c <= p ==> r[c] == 0.0
    ensures r[|row|] == rest / row[p]
  {
    ParamCoefs(row, sol, p, |row|) + [rest / row[p]]
  }

  /**
    Lines 95-124 for one row: scan it, then raise the no-solution error, fix
    its only new unknown, or make its first new unknown parametric. Slots
    already set are never changed.
  */
  function RowStep(row: seq<real>, bRow: real, sol: seq<Slot>): (r: Result<seq<Slot>, SolveError>)
    requires |row| == |sol|
    ensures r.Ok? ==> |r.value| == |sol|
    ensures r.Ok? ==> forall c :: 0 <= c < |sol| && !sol[c].Unset? ==> r.value[c] == sol[c]
    ensures r.Err? ==> r.error == NoSolution || r.error == ParametricSlotInSum
  {
    match ScanRow(row, sol, |row|)
    case Err(e) => Err(e)
    case Ok(s) =>
      ScanRowFinds(row, sol);
      if s.newVars == 0 && s.leftSum != bRow then Err(NoSolution)
      else if s.newVars == 1 then
        Ok(sol[s.newVarPos := Fixed((bRow - s.leftSum) / row[s.newVarPos])])
      else if s.newVars > 1 then
        Ok(sol[s.newVarPos := Param(ParamRow(row, sol, s.newVarPos, bRow - s.leftSum))])
      else Ok(sol)
  }

  /** Lines 94-124 from row `r - 1` up to row 0. */
  function BackSubFrom(m: Matrix, b: seq<real>, sol: seq<Slot>, r: nat): (res: Result<seq<Slot>, SolveError>)
    requires IsShape(m, |b|, |sol|) && r <= |m|
    ensures res.Ok? ==> |res.value| == |sol|
    ensures res.Err? ==> res.error == NoSolution || res.error == ParametricSlotInSum
    decreases r
  {
    if r == 0 then Ok(sol)
    else
      match RowStep(m[r - 1], b[r - 1], sol)
      case Err(e) => Err(e)
      case Ok(sol') => BackSubFrom(m, b, sol', r - 1)
  }

  /** `[None] * col_num`. */
  function AllUnset(n: nat): (r: seq<Slot>)
    ensures |r| == n && forall c :: 0 <= c < n ==> r[c] == Unset
  {
    seq(n, _ => Unset)
  }

  /** Lines 91-124: the back-substitution over every row of the reduced system. */
  function BackSubstitution(m: Matrix, b: seq<real>): Result<seq<Slot>, SolveError>
    requires Rectangular(m) && |b| == |m|
  {
    BackSubFrom(m, b, AllUnset(Width(m)), |m|)
  }

  /** `x` satisfies what slot `s` says about unknown `c`. */
  ghost predicate Satisfies(x: seq<real>, s: Slot, c: nat)
    requires c < |x|
  {
    match s
    case Unset => true
    case Fixed(v) => x[c] == v
    case Param(coefficients) =>
      |coefficients| == |x| + 1 && x[c] == PartialDot(coefficients, x, |x|) + coefficients[|x|]
  }

  /** `x` satisfies every slot of `sol`. */
  ghost predicate Consistent(sol: seq<Slot>, x: seq<real>)
  {
    |sol| == |x| && forall c :: 0 <= c < |x| ==> Satisfies(x, sol[c], c)
  }

  /** The equations of rows `lo..hi` hold for `x`. */
  ghost predicate RowsHold(m: Matrix, x: seq<real>, b: seq<real>, lo: nat, hi: nat)
    requires IsShape(m, |b|, |x|) && lo <= hi <= |m|
  {
    forall q :: lo <= q < hi ==> Dot(m[q], x) == b[q]
  }

  /**
    A parametric slot as the back-substitution builds it: one coefficient
    per column and the constant, and zero coefficients at its own column and
    every column before it, so it depends on later unknowns only.
  */
  predicate WellFormedSlots(sol: seq<Slot>)
  {
    forall c :: 0 <= c < |sol| && sol[c].Param? ==>
      && |sol[c].coefficients| == |sol| + 1
      && forall d :: 0 <= d <= c ==> sol[c].coefficients[d] == 0.0
  }

  lemma CancelPivot(a: real, p: real)
    requires p != 0.0
    ensures a == 0.0 - p * (-a / p)
  {
    assert (-a / p) * p == -a;
  }

  lemma SolveFor(a: real, p: real, x: real, t: real)
    requires p != 0.0
    ensures a + p * x == t <==> x == (t - a) / p
  {
    if x == (t - a) / p {
      assert p * x == t - a;
    }
    if a + p * x == t {
      assert x == (p * x) / p;
    }
  }

  lemma {:induction false} ZeroDot(u: seq<real>, x: seq<real>, k: nat)
    requires k <= |u| && k <= |x|
    requires forall c :: 0 <= c < k ==> u[c] == 0.0
    ensures PartialDot(u, x, k) == 0.0
    decreases k
  {
    if k > 0 {
      ZeroDot(u, x, k - 1);
    }
  }

  /** The row with its fixed and its non-new entries zeroed: the part of the row on new unknowns. */
  function NewPart(row: seq<real>, sol: seq<Slot>): (r: seq<real>)
    requires |row| == |sol|
    ensures |r| == |row|
    ensures forall c :: 0 <= c < |row| ==> r[c] == if IsNew(row, sol, c) then row[c] else 0.0
  {
    seq(|row|, c requires 0 <= c < |row| => if IsNew(row, sol, c) then row[c] else 0.0)
  }

  /**
    For an `x` that agrees with the fixed slots, the left-hand side of the
    row is `left_sum` plus the part of the row on the new unknowns.
  */
  lemma {:induction false} RowSplits(row: seq<real>, sol: seq<Slot>, x: seq<real>, k: nat)
    requires |row| == |sol| == |x| && k <= |row|
    requires forall c :: 0 <= c < k ==> !HitsParam(row, sol, c)
    requires forall c :: 0 <= c < k && sol[c].Fixed? ==> x[c] == sol[c].value
    ensures PartialDot(row, x, k) == PartialDot(row, Values(sol), k) + PartialDot(NewPart(row, sol), x, k)
    decreases k
  {
    if k > 0 {
      RowSplits(row, sol, x, k - 1);
      var c, np := k - 1, NewPart(row, sol);
      assert !HitsParam(row, sol, c);
      if row[c] == 0.0 {
        assert np[c] == 0.0;
      } else if sol[c].Fixed? {
        assert np[c] == 0.0 && Values(sol)[c] == x[c];
      } else {
        assert np[c] == row[c] && Values(sol)[c] == 0.0;
      }
      assert row[c] * x[c] == row[c] * Values(sol)[c] + np[c] * x[c];
    }
  }

  /**
    The part of the row on the new unknowns is `row[p] * x[p]` minus
    `row[p]` times the coefficients of the parametric row applied to `x`.
  */
  lemma NewPartIsParam(row: seq<real>, sol: seq<Slot>, p: nat, coefs: seq<real>, x: seq<real>, w: nat)
    requires |row| == |sol| == |x| == w && p < |row| && IsNew(row, sol, p) && |row| <= |coefs|
    requires forall c :: 0 <= c < |row| ==> coefs[c] == ParamCoef(row, sol, p, c)
    ensures Dot(NewPart(row, sol), x) == row[p] * x[p] - row[p] * PartialDot(coefs, x, w)
  {
    NewPartAffine(row, sol, p, coefs, w);
    DotAffine(NewPart(row, sol), coefs, row[p], p, row[p], x, w);
  }

  /** The first `k` entries of `NewPart` are the pivot's own entry, or minus the pivot times the parametric coefficient. */
  lemma {:induction false} NewPartAffine(row: seq<real>, sol: seq<Slot>, p: nat, coefs: seq<real>, k: nat)
    requires |row| == |sol| && p < |row| && IsNew(row, sol, p) && |row| <= |coefs| && k <= |row|
    requires forall c :: 0 <= c < |row| ==> coefs[c] == ParamCoef(row, sol, p, c)
    ensures IsAffine(NewPart(row, sol), coefs, row[p], p, row[p], k)
    decreases k
  {
    if k > 0 {
      NewPartAffine(row, sol, p, coefs, k - 1);
      NewPartEntry(row, sol, p, k - 1, coefs[k - 1]);
    }
  }

  /** One entry of `NewPart`: the pivot's own entry, or minus the pivot times the parametric coefficient. */
  lemma NewPartEntry(row: seq<real>, sol: seq<Slot>, p: nat, c: nat, coef: real)
    requires |row| == |sol| && p < |row| && IsNew(row, sol, p) && c < |row|
    requires coef == ParamCoef(row, sol, p, c)
    ensures NewPart(row, sol)[c] == (if c == p then row[p] else 0.0) - row[p] * coef
  {
    if c == p {
      assert row[p] * 0.0 == 0.0;
    } else if IsNew(row, sol, c) {
      CancelPivot(row[c], row[p]);
    } else {
      assert row[p] * 0.0 == 0.0;
    }
  }

  /** Setting a slot that was `None` adds what the new slot says and keeps the rest. */
  lemma ConsistentUpdate(sol: seq<Slot>, x: seq<real>, p: nat, s: Slot)
    requires |sol| == |x| && p < |sol| && sol[p].Unset?
    ensures Consistent(sol[p := s], x) <==> Consistent(sol, x) && Satisfies(x, s, p)
  {
    var sol' := sol[p := s];
    if Consistent(sol', x) {
      assert Satisfies(x, sol'[p], p);
      forall c | 0 <= c < |x|
        ensures Satisfies(x, sol[c], c)
      {
        if c != p {
          assert Satisfies(x, sol'[c], c);
        }
      }
    }
    if Consistent(sol, x) && Satisfies(x, s, p) {
      forall c | 0 <= c < |x|
        ensures Satisfies(x, sol'[c], c)
      {
        if c != p {
          assert Satisfies(x, sol[c], c);
        }
      }
    }
  }

  /** A solution state that keeps every set slot of `sol` asks at least as much of `x`. */
  lemma ConsistentExtends(sol: seq<Slot>, sol': seq<Slot>, x: seq<real>)
    requires |sol| == |sol'| == |x|
    requires forall c :: 0 <= c < |sol| && !sol[c].Unset? ==> sol'[c] == sol[c]
    ensures Consistent(sol', x) ==> Consistent(sol, x)
  {
    if Consistent(sol', x) {
      assert forall c :: 0 <= c < |x| ==> Satisfies(x, sol[c], c) by {
        forall c | 0 <= c < |x|
          ensures Satisfies(x, sol[c], c)
        {
          assert Satisfies(x, sol'[c], c);
        }
      }
    }
  }

  /** With exactly one new unknown, no other column of the row is new. */
  lemma OnlyNewColumn(row: seq<real>, sol: seq<Slot>, p: nat)
    requires |row| == |sol| && p < |row| && IsNew(row, sol, p)
    requires |NewColumns(row, sol, |row|)| == 1
    ensures forall c :: 0 <= c < |row| && c != p ==> !IsNew(row, sol, c)
  {
    var s := NewColumns(row, sol, |row|);
    forall c | 0 <= c < |row| && c != p
      ensures !IsNew(row, sol, c)
    {
      assert s == {p} + (s - {p});
      assert |s - {p}| == 0;
      assert c !in s - {p};
    }
  }

  /** `x` agrees with every fixed slot of a state it is consistent with. */
  lemma ConsistentFixed(sol: seq<Slot>, x: seq<real>)
    requires Consistent(sol, x)
    ensures forall c :: 0 <= c < |sol| && sol[c].Fixed? ==> x[c] == sol[c].value
  {
    forall c | 0 <= c < |sol| && sol[c].Fixed?
      ensures x[c] == sol[c].value
    {
      assert Satisfies(x, sol[c], c);
    }
  }

  /** No entry of the row meets a parametric slot: the scan of the row succeeds. */
  predicate MissesParams(row: seq<real>, sol: seq<Slot>)
    requires |row| == |sol|
  {
    forall c :: 0 <= c < |row| ==> !HitsParam(row, sol, c)
  }

  /** With no new unknown the row's left-hand side is the sum of its fixed terms. */
  lemma NoNewRow(row: seq<real>, sol: seq<Slot>, x: seq<real>, w: nat)
    requires |row| == |sol| == |x| == w && Consistent(sol, x) && MissesParams(row, sol)
    requires forall c :: 0 <= c < |row| ==> !IsNew(row, sol, c)
    ensures Dot(row, x) == PartialDot(row, Values(sol), w)
  {
    ConsistentFixed(sol, x);
    RowSplits(row, sol, x, w);
    ZeroDot(NewPart(row, sol), x, w);
  }

  /**
    With new unknowns, of which `p` is the first, the row's left-hand side
    is its fixed terms plus `row[p] * (x[p] - D)`, where `D` is the
    parametric row of `p` applied to `x`.
  */
  lemma NewRow(row: seq<real>, sol: seq<Slot>, x: seq<real>, p: nat, coefs: seq<real>, w: nat)
    requires |row| == |sol| == |x| == w && Consistent(sol, x) && MissesParams(row, sol)
    requires p < |row| && IsNew(row, sol, p) && |row| <= |coefs|
    requires forall c :: 0 <= c < |row| ==> coefs[c] == ParamCoef(row, sol, p, c)
    ensures Dot(row, x) == PartialDot(row, Values(sol), w) + row[p] * (x[p] - PartialDot(coefs, x, w))
  {
    var d := PartialDot(coefs, x, w);
    ConsistentFixed(sol, x);
    RowSplits(row, sol, x, w);
    NewPartIsParam(row, sol, p, coefs, x, w);
    assert row[p] * (x[p] - d) == row[p] * x[p] - row[p] * d;
  }

  /** Lines 108-110: the only new unknown is fixed, exactly as the row's equation demands. */
  lemma OneNewStep(row: seq<real>, bRow: real, sol: seq<Slot>, x: seq<real>, p: nat, left: real, w: nat)
    requires |row| == |sol| == |x| == w && Consistent(sol, x) && MissesParams(row, sol)
    requires p < |row| && IsNew(row, sol, p)
    requires forall c :: 0 <= c < |row| && c != p ==> !IsNew(row, sol, c)
    requires left == PartialDot(row, Values(sol), w)
    ensures Consistent(sol[p := Fixed((bRow - left) / row[p])], x) <==> Dot(row, x) == bRow
  {
    var coefs := ParamCoefs(row, sol, p, w);
    assert forall c :: 0 <= c < w ==> coefs[c] == 0.0;
    ZeroDot(coefs, x, w);
    NewRow(row, sol, x, p, coefs, w);
    ConsistentUpdate(sol, x, p, Fixed((bRow - left) / row[p]));
    SolveFor(left, row[p], x[p], bRow);
  }

  /** Lines 111-124: the first new unknown becomes the parametric row the equation demands. */
  lemma ManyNewStep(row: seq<real>, bRow: real, sol: seq<Slot>, x: seq<real>, p: nat, left: real, w: nat)
    requires |row| == |sol| == |x| == w && Consistent(sol, x) && MissesParams(row, sol)
    requires p < |row| && IsNew(row, sol, p)
    requires forall c :: 0 <= c < p ==> !IsNew(row, sol, c)
    requires left == PartialDot(row, Values(sol), w)
    ensures Consistent(sol[p := Param(ParamRow(row, sol, p, bRow - left))], x) <==> Dot(row, x) == bRow
  {
    var coefs := ParamRow(row, sol, p, bRow - left);
    var d := PartialDot(coefs, x, w);
    NewRow(row, sol, x, p, coefs, w);
    ConsistentUpdate(sol, x, p, Param(coefs));
    SolveFor(left, row[p], x[p] - d, bRow);
  }

  /**
    For an `x` consistent with the slots so far, one row step keeps `x`
    consistent exactly when `x` satisfies that row's equation, and it raises
    the no-solution error only when `x` cannot satisfy it.
  */
  lemma RowStepIff(row: seq<real>, bRow: real, sol: seq<Slot>, x: seq<real>)
    requires |row| == |sol| == |x| && Consistent(sol, x)
    ensures RowStep(row, bRow, sol) == Err(NoSolution) ==> Dot(row, x) != bRow
    ensures RowStep(row, bRow, sol).Ok? ==> (Consistent(RowStep(row, bRow, sol).value, x) <==> Dot(row, x) == bRow)
  {
    var scan := ScanRow(row, sol, |row|);
    ScanRowMeaning(row, sol, |row|);
    if scan.Ok? {
      var s := scan.value;
      assert MissesParams(row, sol);
      if s.newVars == 0 {
        NoNewColumns(row, sol, |row|);
        NoNewRow(row, sol, x, |row|);
      } else if s.newVars == 1 {
        OnlyNewColumn(row, sol, s.newVarPos);
        OneNewStep(row, bRow, sol, x, s.newVarPos, s.leftSum, |row|);
      } else {
        ManyNewStep(row, bRow, sol, x, s.newVarPos, s.leftSum, |row|);
      }
    }
  }

  /**
    From row `r - 1` up: if being consistent with `sol` is the same as
    satisfying the rows below `r`, the outcome characterises the solutions of
    the whole system.
  */
  lemma {:induction false} BackSubFromIff(m: Matrix, b: seq<real>, sol: seq<Slot>, r: nat, x: seq<real>)
    requires IsShape(m, |b|, |sol|) && |x| == |sol| && r <= |m|
    requires Consistent(sol, x) <==> RowsHold(m, x, b, r, |m|)
    ensures BackSubFrom(m, b, sol, r).Ok? ==>
      (Consistent(BackSubFrom(m, b, sol, r).value, x) <==> RowsHold(m, x, b, 0, |m|))
    ensures BackSubFrom(m, b, sol, r) == Err(NoSolution) ==> !RowsHold(m, x, b, 0, |m|)
    decreases r
  {
    if r > 0 {
      var q := r - 1;
      var step := RowStep(m[q], b[q], sol);
      if Consistent(sol, x) {
        RowStepIff(m[q], b[q], sol, x);
      }
      if step.Ok? {
        ConsistentExtends(sol, step.value, x);
        assert Consistent(step.value, x) <==> RowsHold(m, x, b, q, |m|);
        BackSubFromIff(m, b, step.value, q, x);
      }
    }
  }

  /**
    The back-substitution is exact: on success, the solutions of `m x = b`
    are precisely the vectors consistent with every slot it returns; the
    no-solution error means `m x = b` has no solution at all.
  */
  lemma BackSubstitutionCorrect(m: Matrix, b: seq<real>, x: seq<real>)
    requires Rectangular(m) && |b| == |m| && |x| == Width(m)
    ensures BackSubstitution(m, b).Ok? ==> (Solves(m, x, b) <==> Consistent(BackSubstitution(m, b).value, x))
    ensures BackSubstitution(m, b) == Err(NoSolution) ==> !Solves(m, x, b)
  {
    BackSubFromIff(m, b, AllUnset(Width(m)), |m|, x);
  }

  /** Every parametric slot the back-substitution makes is well formed. */
  lemma {:induction false} BackSubFromWellFormed(m: Matrix, b: seq<real>, sol: seq<Slot>, r: nat)
    requires IsShape(m, |b|, |sol|) && r <= |m| && WellFormedSlots(sol)
    ensures BackSubFrom(m, b, sol, r).Ok? ==> WellFormedSlots(BackSubFrom(m, b, sol, r).value)
    decreases r
  {
    if r > 0 {
      var step := RowStep(m[r - 1], b[r - 1], sol);
      if step.Ok? {
        assert WellFormedSlots(step.value);
        BackSubFromWellFormed(m, b, step.value, r - 1);
      }
    }
  }

  /** A zero row brings no new unknown and adds nothing to `left_sum`, whatever the slots. */
  lemma {:induction false} ScanZeroRow(row: seq<real>, sol: seq<Slot>, k: nat)
    requires |row| == |sol| && k <= |row|
    requires forall c :: 0 <= c < |row| ==> row[c] == 0.0
    ensures ScanRow(row, sol, k) == Ok(RowScan(0, 0.0, |row|))
    decreases k
  {
    if k > 0 {
      ScanZeroRow(row, sol, k - 1);
    }
  }

  /**
    The rows `0..r` of `m` are zero with a zero free term: each of them
    holds for every `x`, and the back-substitution leaves the slots as they are.
  */
  lemma {:induction false} BackSubFromZero(m: Matrix, b: seq<real>, sol: seq<Slot>, r: nat)
    requires IsShape(m, |b|, |sol|) && r <= |m|
    requires forall q, c :: 0 <= q < r && 0 <= c < |sol| ==> m[q][c] == 0.0
    requires forall q :: 0 <= q < r ==> b[q] == 0.0
    ensures BackSubFrom(m, b, sol, r) == Ok(sol)
    decreases r
  {
    if r > 0 {
      ScanZeroRow(m[r - 1], sol, |sol|);
      BackSubFromZero(m, b, sol, r - 1);
    }
  }

  lemma BackSubstitutionWellFormed(m: Matrix, b: seq<real>)
    requires Rectangular(m) && |b| == |m|
    ensures BackSubstitution(m, b).Ok? ==>
      |BackSubstitution(m, b).value| == Width(m) && WellFormedSlots(BackSubstitution(m, b).value)
  {
    BackSubFromWellFormed(m, b, AllUnset(Width(m)), |m|);
  }

  /** Lines 95-104 for one row: the scan, stopping at the first parametric slot it meets. */
  method ScanRowOf(row: seq<real>, sol: seq<Slot>) returns (r: Result<RowScan, SolveError>)
    requires |row| == |sol|
    ensures r == ScanRow(row, sol, |row|)
  {
    var newVars: nat, leftSum: real, newVarPos: nat := 0, 0.0, |row|;
    for column := 0 to |row|
      invariant ScanRow(row, sol, column) == Ok(RowScan(newVars, leftSum, newVarPos))
    {
      assert ScanRow(row, sol, column + 1) == ScanStep(row, sol, column, RowScan(newVars, leftSum, newVarPos));
      if row[column] != 0.0 {
        match sol[column]
        case Unset =>
          newVars := newVars + 1;
          newVarPos := Min(column, newVarPos);
        case Fixed(v) =>
          ghost var before := RowScan(newVars, leftSum, newVarPos);
          leftSum := leftSum + v * row[column];
          assert ScanStep(row, sol, column, before).value.leftSum == leftSum;
        case Param(_) =>
          assert HitsParam(row, sol, column);
          ScanRowFails(row, sol, |row|);
          return Err(ParametricSlotInSum);
      }
    }
    return Ok(RowScan(newVars, leftSum, newVarPos));
  }

  /** Lines 112-124: the parametric row for unknown `p`, with constant term `rest / row[p]`. */
  method ParamRowOf(row: seq<real>, sol: seq<Slot>, p: nat, rest: real) returns (coefs: seq<real>)
    requires |row| == |sol| && p < |row| && row[p] != 0.0
    requires forall c :: 0 <= c < p ==> !IsNew(row, sol, c)
    ensures coefs == ParamRow(row, sol, p, rest)
  {
    coefs := [];
    for column := 0 to |row|
      invariant coefs == ParamCoefs(row, sol, p, column)
    {
      if column == p {
        coefs := coefs + [0.0];
      } else if row[column] != 0.0 && sol[column].Unset? {
        coefs := coefs + [-row[column] / row[p]];
      } else {
        coefs := coefs + [0.0];
      }
    }
    coefs := coefs + [rest / row[p]];
  }

  /**
    Lines 91-124 of `solve`: the back-substitution over the reduced matrix
    `m` and the replayed free column `b`, from the last row up.
  */
  method BackSubstitute(m: array<seq<real>>, b: array<real>) returns (r: Result<seq<Slot>, SolveError>)
    requires Rectangular(m[..]) && b.Length == m.Length
    ensures r == BackSubstitution(m[..], b[..])
  {
    ghost var goal := BackSubstitution(m[..], b[..]);
    var colNum := |m[0]|;
    var solution := AllUnset(colNum);
    for row := m.Length downto 0
      invariant |solution| == colNum
      invariant goal == BackSubFrom(m[..], b[..], solution, row)
    {
      var scan := ScanRowOf(m[row], solution);
      if scan.Err? {
        return Err(scan.error);
      }
      var s := scan.value;
      ScanRowFinds(m[row], solution);
      if s.newVars == 0 && s.leftSum != b[row] {
        return Err(NoSolution);
      } else if s.newVars == 1 {
        solution := solution[s.newVarPos := Fixed((b[row] - s.leftSum) / m[row][s.newVarPos])];
      } else if s.newVars > 1 {
        var coefs := ParamRowOf(m[row], solution, s.newVarPos, b[row] - s.leftSum);
        solution := solution[s.newVarPos := Param(coefs)];
      }
    }
    return Ok(solution);
  }
}
