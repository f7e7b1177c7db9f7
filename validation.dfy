/**
  `check_matrix`: the shape checks run before any elimination step. The
  `isinstance` checks of the Python code have no counterpart here, since the
  Dafny types already guarantee a sequence of sequences of rationals.
*/
module Validation {
  import opened Results
  import opened Matrices

  /** The two `ValueError`s of `check_matrix`, by message. */
  datatype ShapeError =
    | EmptyMatrix       // 'empty matrix'
    | BadRowLength      // 'all rows must have constant non-zero length'

  /** All rows have the same length, and that length is not zero. */
  ghost predicate WellShaped(m: Matrix)
  {
    && (forall i, j :: 0 <= i < |m| && 0 <= j < |m| ==> |m[i]| == |m[j]|)
    && (forall i :: 0 <= i < |m| ==> |m[i]| > 0)
  }

  /** `check_matrix(m)`: `None` when it returns normally, the error it raises otherwise. */
  function CheckMatrix(m: Matrix): (r: Option<ShapeError>)
    ensures r == None <==> |m| > 0 && WellShaped(m)
    ensures r == Some(EmptyMatrix) <==> |m| == 0
    ensures r == Some(BadRowLength) <==> |m| > 0 && !WellShaped(m)
    ensures r == None ==> Rectangular(m) && Width(m) > 0
  {
    if |m| == 0 then Some(EmptyMatrix)
    else if |m[0]| == 0 || exists r :: 0 <= r < |m| && |m[r]| != |m[0]| then Some(BadRowLength)
    else None
  }
}
