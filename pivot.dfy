/**
  Full pivoting: `find_max(m, start)` scans the trailing block
  `m[start..][start..]` in row-major order and keeps the first entry of
  largest magnitude, starting from the diagonal entry `(start, start)`.
*/
module Pivot {
  import opened Matrices

  /** `MaxValueWithPlace`: a place `(row, column)` and the magnitude found there. */
  datatype Candidate = Candidate(row: nat, column: nat, value: real)

  /** The cell `(i, j)` lies in the trailing block that starts at `(start, start)`. */
  predicate InBlock(m: Matrix, start: nat, i: int, j: int)
    requires |m| > 0
  {
    start <= i < |m| && start <= j < Width(m)
  }

  /** Cell `(i, j)` comes strictly before cell `(k, l)` in row-major order. */
  predicate RowMajorBefore(i: int, j: int, k: int, l: int)
  {
    i < k || (i == k && j < l)
  }

  /**
    `p` is the first cell of maximal magnitude of the trailing block, in
    row-major order, and `p.value` is that magnitude.
  */
  ghost predicate IsFirstMax(m: Matrix, start: nat, p: Candidate)
    requires Rectangular(m)
  {
    && InBlock(m, start, p.row, p.column)
    && p.value == Abs(m[p.row][p.column])
    && (forall i, j :: InBlock(m, start, i, j) ==> Abs(m[i][j]) <= p.value)
    && (forall i, j :: InBlock(m, start, i, j) && RowMajorBefore(i, j, p.row, p.column) ==>
          Abs(m[i][j]) < p.value)
  }

  /** The trailing block holds a zero in every cell. */
  ghost predicate BlockIsZero(m: Matrix, start: nat)
    requires Rectangular(m)
  {
    forall i, j :: InBlock(m, start, i, j) ==> m[i][j] == 0.0
  }

  /**
    The scan of `find_max` from cell `(i, j)` on, with `best` the candidate
    kept so far: a cell replaces `best` only when it is strictly larger.
  */
  function ScanFrom(m: Matrix, start: nat, i: nat, j: nat, best: Candidate): Candidate
    requires Rectangular(m) && start < |m| && start < Width(m)
    requires start <= i <= |m| && start <= j <= Width(m)
    decreases |m| - i, Width(m) - j
  {
    if i == |m| then best
    else if j == Width(m) then ScanFrom(m, start, i + 1, start, best)
    else
      var v := Abs(m[i][j]);
      ScanFrom(m, start, i, j + 1, if v > best.value then Candidate(i, j, v) else best)
  }

  /** The result of `find_max(m, start)`. */
  function MaxOf(m: Matrix, start: nat): Candidate
    requires Rectangular(m) && start < |m| && start < Width(m)
  {
    ScanFrom(m, start, start, start, Candidate(start, start, Abs(m[start][start])))
  }

  /** What the scan has established when it stands at cell `(i, j)`. */
  ghost predicate ScanInvariant(m: Matrix, start: nat, i: nat, j: nat, best: Candidate)
    requires Rectangular(m)
  {
    && InBlock(m, start, best.row, best.column)
    && best.value == Abs(m[best.row][best.column])
    && (RowMajorBefore(best.row, best.column, i, j) || (best.row == start && best.column == start))
    && (forall k, l :: InBlock(m, start, k, l) && RowMajorBefore(k, l, i, j) ==> Abs(m[k][l]) <= best.value)
    && (forall k, l :: InBlock(m, start, k, l) && RowMajorBefore(k, l, best.row, best.column) ==>
          Abs(m[k][l]) < best.value)
  }

  lemma {:induction false} ScanFindsFirstMax(m: Matrix, start: nat, i: nat, j: nat, best: Candidate)
    requires Rectangular(m) && start < |m| && start < Width(m)
    requires start <= i <= |m| && start <= j <= Width(m)
    requires ScanInvariant(m, start, i, j, best)
    ensures IsFirstMax(m, start, ScanFrom(m, start, i, j, best))
    decreases |m| - i, Width(m) - j
  {
    if i == |m| {
    } else if j == Width(m) {
      ScanFindsFirstMax(m, start, i + 1, start, best);
    } else {
      var v := Abs(m[i][j]);
      var next := if v > best.value then Candidate(i, j, v) else best;
      assert ScanInvariant(m, start, i, j + 1, next);
      ScanFindsFirstMax(m, start, i, j + 1, next);
    }
  }

  /** `find_max` returns the first cell of largest magnitude of the trailing block. */
  lemma MaxOfIsFirstMax(m: Matrix, start: nat)
    requires Rectangular(m) && start < |m| && start < Width(m)
    ensures IsFirstMax(m, start, MaxOf(m, start))
  {
    ScanFindsFirstMax(m, start, start, start, Candidate(start, start, Abs(m[start][start])));
  }

  /** At most one candidate is the first maximum, so `IsFirstMax` pins the result down. */
  lemma FirstMaxIsUnique(m: Matrix, start: nat, p: Candidate, q: Candidate)
    requires Rectangular(m)
    requires IsFirstMax(m, start, p) && IsFirstMax(m, start, q)
    ensures p == q
  {
    assert !RowMajorBefore(p.row, p.column, q.row, q.column);
    assert !RowMajorBefore(q.row, q.column, p.row, p.column);
  }

  /**
    The place is `(start, start)` unless some entry of the block is strictly
    larger than the diagonal one; in that case it is the first such maximum.
  */
  lemma MaxOfTieBreak(m: Matrix, start: nat)
    requires Rectangular(m) && start < |m| && start < Width(m)
    ensures var p := MaxOf(m, start);
      (p.row == start && p.column == start) <==> p.value == Abs(m[start][start])
  {
    MaxOfIsFirstMax(m, start);
  }

  /** A zero maximum means that the whole trailing block is zero, and conversely. */
  lemma MaxOfZero(m: Matrix, start: nat)
    requires Rectangular(m) && start < |m| && start < Width(m)
    ensures MaxOf(m, start).value == 0.0 <==> BlockIsZero(m, start)
  {
    var p := MaxOf(m, start);
    MaxOfIsFirstMax(m, start);
    if p.value == 0.0 {
      forall i, j | InBlock(m, start, i, j)
        ensures m[i][j] == 0.0
      {
        assert Abs(m[i][j]) <= 0.0;
      }
    }
  }

  /** `find_max(m, start)`: a nested loop over the trailing block with a running maximum. */
  method FindMax(m: array<seq<real>>, start: nat) returns (res: Candidate)
    requires Rectangular(m[..]) && start < m.Length && start < |m[0]|
    ensures res == MaxOf(m[..], start)
    ensures IsFirstMax(m[..], start, res)
  {
    ghost var mm := m[..];
    res := Candidate(start, start, Abs(m[start][start]));
    for i := start to m.Length
      invariant MaxOf(mm, start) == ScanFrom(mm, start, i, start, res)
    {
      for j := start to |m[i]|
        invariant MaxOf(mm, start) == ScanFrom(mm, start, i, j, res)
      {
        var currentValue := Abs(m[i][j]);
        if currentValue > res.value {
          res := Candidate(i, j, currentValue);
        }
      }
    }
    MaxOfIsFirstMax(mm, start);
  }
}
