/**
  The linear system `m x = b` that `solve` works on: dot products of a row
  with a candidate solution, and what it means for `x` to solve the system.
*/
module Linear {
  import opened Matrices

  /** `u[0] * x[0] + ... + u[k - 1] * x[k - 1]`. */
  function PartialDot(u: seq<real>, x: seq<real>, k: nat): real
    requires k <= |u| && k <= |x|
  {
    if k == 0 then 0.0 else PartialDot(u, x, k - 1) + u[k - 1] * x[k - 1]
  }

  /** The left-hand side of one equation: row `u` of the matrix times `x`. */
  function Dot(u: seq<real>, x: seq<real>): real
    requires |u| == |x|
  {
    PartialDot(u, x, |u|)
  }

  /** `x` solves `m x = b`: one unknown per column, one equation per row, every equation holds. */
  ghost predicate Solves(m: Matrix, x: seq<real>, b: seq<real>)
  {
    IsShape(m, |b|, |x|) && forall r :: 0 <= r < |m| ==> Dot(m[r], x) == b[r]
  }

  /** Changing one coefficient `u[j]` to `a` moves the sum by `(a - u[j]) * x[j]`. */
  lemma {:induction false} PartialDotUpdateLeft(u: seq<real>, x: seq<real>, j: nat, a: real, k: nat)
    requires j < |u| && k <= |u| && k <= |x|
    ensures PartialDot(u[j := a], x, k) == PartialDot(u, x, k) + (if j < k then (a - u[j]) * x[j] else 0.0)
    decreases k
  {
    if k > 0 {
      PartialDotUpdateLeft(u, x, j, a, k - 1);
    }
  }

  /** Changing one unknown `x[j]` to `a` moves the sum by `u[j] * (a - x[j])`. */
  lemma {:induction false} PartialDotUpdateRight(u: seq<real>, x: seq<real>, j: nat, a: real, k: nat)
    requires j < |x| && k <= |u| && k <= |x|
    ensures PartialDot(u, x[j := a], k) == PartialDot(u, x, k) + (if j < k then u[j] * (a - x[j]) else 0.0)
    decreases k
  {
    if k > 0 {
      PartialDotUpdateRight(u, x, j, a, k - 1);
    }
  }

  /** Exchanging two coefficients of a row is exchanging the two unknowns they multiply. */
  lemma DotSwapped(u: seq<real>, x: seq<real>, i: nat, j: nat)
    requires |u| == |x| && i < |u| && j < |u|
    ensures Dot(Swapped(u, i, j), x) == Dot(u, Swapped(x, i, j))
  {
    if i == j {
      assert Swapped(u, i, j) == u;
      assert Swapped(x, i, j) == x;
    } else {
      PartialDotUpdateLeft(u, x, i, u[j], |u|);
      PartialDotUpdateLeft(u[i := u[j]], x, j, u[i], |u|);
      PartialDotUpdateRight(u, x, i, x[j], |u|);
      PartialDotUpdateRight(u, x[i := x[j]], j, x[i], |u|);
    }
  }

  /** A row `w = u + coef * v` has the dot product `u . x + coef * (v . x)`. */
  lemma {:induction false} PartialDotCombination(w: seq<real>, u: seq<real>, v: seq<real>, coef: real, x: seq<real>, k: nat)
    requires |w| == |u| == |v| && k <= |u| && k <= |x|
    requires forall c :: 0 <= c < |u| ==> w[c] == u[c] + coef * v[c]
    ensures PartialDot(w, x, k) == PartialDot(u, x, k) + coef * PartialDot(v, x, k)
    decreases k
  {
    if k > 0 {
      PartialDotCombination(w, u, v, coef, x, k - 1);
      assert w[k - 1] * x[k - 1] == u[k - 1] * x[k - 1] + coef * (v[k - 1] * x[k - 1]);
    }
  }

  /**
    The first `k` entries of `u` are `e` at column `p` minus `r` times the
    entries of `v`: `u` is `e` times unknown `p` minus `r` times the row `v`.
  */
  predicate IsAffine(u: seq<real>, v: seq<real>, r: real, p: nat, e: real, k: nat)
    requires k <= |u| && k <= |v|
    decreases k
  {
    k == 0 || (IsAffine(u, v, r, p, e, k - 1) && u[k - 1] == (if k - 1 == p then e else 0.0) - r * v[k - 1])
  }

  /**
    A row `u` that is `e` at column `p` minus `r` times the row `v` has the
    dot product `e * x[p] - r * (v . x)`, over its first `k` columns.
  */
  lemma {:induction false} PartialDotAffine(u: seq<real>, v: seq<real>, r: real, p: nat, e: real, x: seq<real>, k: nat)
    requires k <= |u| && k <= |v| && k <= |x| && IsAffine(u, v, r, p, e, k)
    ensures PartialDot(u, x, k) == (if p < k then e * x[p] else 0.0) - r * PartialDot(v, x, k)
    decreases k
  {
    if k > 0 {
      PartialDotAffine(u, v, r, p, e, x, k - 1);
      var c := k - 1;
      assert u[c] * x[c] == (if c == p then e * x[p] else 0.0) - r * (v[c] * x[c]);
    }
  }

  /** The whole row `u` of `PartialDotAffine`, with `p` among its `k` columns. */
  lemma DotAffine(u: seq<real>, v: seq<real>, r: real, p: nat, e: real, x: seq<real>, k: nat)
    requires |u| == |x| == k && k <= |v| && p < k && IsAffine(u, v, r, p, e, k)
    ensures Dot(u, x) == e * x[p] - r * PartialDot(v, x, k)
  {
    PartialDotAffine(u, v, r, p, e, x, k);
  }
}
