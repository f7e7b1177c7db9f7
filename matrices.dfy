/**
  The matrix of the solver: a list of rows of exact rationals, modelled as a
  sequence of sequences of `real` (Dafny's `real` is exact, like Python's
  `Fraction`).
*/
module Matrices {

  type Matrix = seq<seq<real>>

  /** Every row of `m` has length `w` and there are `h` rows. */
  predicate IsShape(m: Matrix, h: nat, w: nat)
  {
    |m| == h && forall r :: 0 <= r < |m| ==> |m[r]| == w
  }

  /** A non-empty matrix whose rows all have the length of the first one. */
  predicate Rectangular(m: Matrix)
  {
    |m| > 0 && IsShape(m, |m|, |m[0]|)
  }

  function Width(m: Matrix): nat
    requires |m| > 0
  {
    |m[0]|
  }

  function Abs(x: real): (r: real)
    ensures r >= 0.0
    ensures r == x || r == -x
  {
    if x < 0.0 then -x else x
  }

  function Min(a: nat, b: nat): (r: nat)
    ensures r <= a && r <= b
    ensures r == a || r == b
  {
    if a <= b then a else b
  }

  /**
    `s` with the entries at `i` and `j` exchanged: Python's
    `s[i], s[j] = s[j], s[i]`. Used for rows of a matrix, entries of a row,
    entries of the free column and slots of the solution.
  */
  function Swapped<T>(s: seq<T>, i: nat, j: nat): (r: seq<T>)
    requires i < |s| && j < |s|
    ensures |r| == |s|
    ensures r[i] == s[j] && r[j] == s[i]
    ensures forall k :: 0 <= k < |s| && k != i && k != j ==> r[k] == s[k]
  {
    s[i := s[j]][j := s[i]]
  }

  /** Swapping the same two entries twice restores the sequence. */
  lemma SwappedTwice<T>(s: seq<T>, i: nat, j: nat)
    requires i < |s| && j < |s|
    ensures Swapped(Swapped(s, i, j), i, j) == s
  {
    var t := Swapped(Swapped(s, i, j), i, j);
    assert forall k :: 0 <= k < |s| ==> t[k] == s[k];
  }
}
