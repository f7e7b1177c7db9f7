/**
  The three in-place row operations of the elimination: `swap_rows`,
  `swap_columns` and `add_row`. Each is a method on the matrix array, proved
  to leave exactly the matrix that a specification function describes.
*/
module RowOps {
  import opened Matrices

  /** Every row of `m` has entries at `i` and `j`. */
  predicate HasColumns(m: Matrix, i: nat, j: nat)
  {
    forall r :: 0 <= r < |m| ==> i < |m[r]| && j < |m[r]|
  }

  /** `m` with entries `i` and `j` exchanged in every row. */
  function ColumnsSwapped(m: Matrix, i: nat, j: nat): (r: Matrix)
    requires HasColumns(m, i, j)
    ensures |r| == |m|
    ensures forall k :: 0 <= k < |m| ==> r[k] == Swapped(m[k], i, j)
  {
    seq(|m|, k requires 0 <= k < |m| => Swapped(m[k], i, j))
  }

  /** `m` after "row `target` += `coef` times row `source`", across the full width. */
  function RowAdded(m: Matrix, source: nat, target: nat, coef: real): (r: Matrix)
    requires Rectangular(m) && source < |m| && target < |m|
    ensures IsShape(r, |m|, Width(m))
    ensures forall k :: 0 <= k < |m| && k != target ==> r[k] == m[k]
    ensures forall c :: 0 <= c < Width(m) ==> r[target][c] == m[target][c] + coef * m[source][c]
  {
    m[target := seq(Width(m), c requires 0 <= c < Width(m) => m[target][c] + coef * m[source][c])]
  }

  /** Swapping the same two rows twice restores the matrix; the shape never changes. */
  lemma RowSwapInvolution(m: Matrix, i: nat, j: nat, h: nat, w: nat)
    requires IsShape(m, h, w) && i < h && j < h
    ensures IsShape(Swapped(m, i, j), h, w)
    ensures Swapped(Swapped(m, i, j), i, j) == m
  {
    SwappedTwice(m, i, j);
  }

  /**
    Swapping the same two columns twice restores the matrix; the shape never
    changes, and every entry outside columns `i` and `j` stays where it was.
  */
  lemma ColumnSwapInvolution(m: Matrix, i: nat, j: nat, h: nat, w: nat)
    requires IsShape(m, h, w) && i < w && j < w
    ensures IsShape(ColumnsSwapped(m, i, j), h, w)
    ensures forall r, c :: 0 <= r < h && 0 <= c < w && c != i && c != j ==>
      ColumnsSwapped(m, i, j)[r][c] == m[r][c]
    ensures ColumnsSwapped(ColumnsSwapped(m, i, j), i, j) == m
  {
    var t := ColumnsSwapped(ColumnsSwapped(m, i, j), i, j);
    forall r | 0 <= r < h
      ensures t[r] == m[r]
    {
      SwappedTwice(m[r], i, j);
    }
  }

  /** Adding `-coef` times the same source row undoes a row addition. */
  lemma RowAddedInverse(m: Matrix, source: nat, target: nat, coef: real)
    requires Rectangular(m) && source < |m| && target < |m| && source != target
    ensures RowAdded(RowAdded(m, source, target, coef), source, target, -coef) == m
  {
    var m1 := RowAdded(m, source, target, coef);
    var m2 := RowAdded(m1, source, target, -coef);
    assert m2[target] == m[target] by {
      forall c | 0 <= c < Width(m)
        ensures m2[target][c] == m[target][c]
      {
        calc {
          m2[target][c];
          m1[target][c] + -coef * m1[source][c];
          m[target][c] + coef * m[source][c] + -coef * m[source][c];
          m[target][c];
        }
      }
    }
    assert forall k :: 0 <= k < |m| ==> m2[k] == m[k];
  }

  /** `swap_rows(m, i, j)`. */
  method SwapRows(m: array<seq<real>>, i: nat, j: nat)
    requires i < m.Length && j < m.Length
    modifies m
    ensures m[..] == Swapped(old(m[..]), i, j)
  {
    m[i], m[j] := m[j], m[i];
  }

  /** `swap_columns(m, i, j)`: exchange entries `i` and `j` of every row, row by row. */
  method SwapColumns(m: array<seq<real>>, i: nat, j: nat)
    requires HasColumns(m[..], i, j)
    modifies m
    ensures m[..] == ColumnsSwapped(old(m[..]), i, j)
  {
    for r := 0 to m.Length
      invariant forall k :: 0 <= k < r ==> m[k] == Swapped(old(m[k]), i, j)
      invariant forall k :: r <= k < m.Length ==> m[k] == old(m[k])
    {
      m[r] := Swapped(m[r], i, j);
    }
  }

  /** `add_row(m, source, target, coef)`: one entry of the target row per step. */
  method AddRow(m: array<seq<real>>, source: nat, target: nat, coef: real)
    requires Rectangular(m[..]) && source < m.Length && target < m.Length
    modifies m
    ensures m[..] == RowAdded(old(m[..]), source, target, coef)
  {
    var w := |m[0]|;
    for c := 0 to w
      invariant |m[target]| == w
      invariant forall k :: 0 <= k < m.Length && k != target ==> m[k] == old(m[k])
      invariant forall k :: 0 <= k < c ==> m[target][k] == old(m[target][k]) + coef * old(m[source][k])
      invariant forall k :: c <= k < w ==> m[target][k] == old(m[target][k])
    {
      m[target] := m[target][c := m[target][c] + coef * m[source][c]];
    }
    ghost var r := RowAdded(old(m[..]), source, target, coef);
    assert |m[target]| == |r[target]| == w;
    assert forall c :: 0 <= c < w ==> m[target][c] == r[target][c];
    assert m[target] == r[target];
    assert forall k :: 0 <= k < m.Length ==> m[..][k] == r[k];
  }
}
