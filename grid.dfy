/** Shared vocabulary for the contact-map utilities: optional values (a NaN cell is
    `None`), results with an error, rectangular matrices of reals, sums and means. */
module Grid {

  datatype Option<T> = None | Some(value: T)

  datatype Result<T, E> = Ok(value: T) | Err(error: E)

  /** A dense two-dimensional array of exact reals, stored row by row. */
  type Matrix = seq<seq<real>>

  /** `m` has `rows` rows of `cols` entries each. */
  predicate IsMatrix<T>(m: seq<seq<T>>, rows: nat, cols: nat) {
    |m| == rows && forall i :: 0 <= i < rows ==> |m[i]| == cols
  }

  /** Number of columns of a matrix (0 for a matrix without rows). */
  function Cols<T>(m: seq<seq<T>>): nat {
    if |m| == 0 then 0 else |m[0]|
  }

  /** Every row has the same length, as in a two-dimensional array. */
  predicate IsRect<T>(m: seq<seq<T>>) {
    IsMatrix(m, |m|, Cols(m))
  }

  predicate IsSquare<T>(m: seq<seq<T>>) {
    IsMatrix(m, |m|, |m|)
  }

  predicate NonNegative(m: Matrix) {
    forall i, j :: 0 <= i < |m| && 0 <= j < |m[i]| ==> 0.0 <= m[i][j]
  }

  /** The contents of a two-dimensional array as a matrix value. */
  function Snapshot<T>(a: array2<T>): (m: seq<seq<T>>)
    reads a
    ensures IsMatrix(m, a.Length0, a.Length1)
    ensures forall i, j :: 0 <= i < a.Length0 && 0 <= j < a.Length1 ==> m[i][j] == a[i, j]
  {
    seq(a.Length0, i requires 0 <= i < a.Length0 reads a =>
      seq(a.Length1, j requires 0 <= j < a.Length1 reads a => a[i, j]))
  }

  /** An array equals a matrix value when they agree cell by cell. */
  lemma SnapshotIs<T>(a: array2<T>, m: seq<seq<T>>)
    requires IsMatrix(m, a.Length0, a.Length1)
    requires forall i, j :: 0 <= i < a.Length0 && 0 <= j < a.Length1 ==> a[i, j] == m[i][j]
    ensures Snapshot(a) == m
  {
    forall i | 0 <= i < a.Length0
      ensures Snapshot(a)[i] == m[i]
    {
    }
  }

  /** Genomic distance |j - i| between bins i and j. */
  function Distance(i: int, j: int): nat {
    if i <= j then j - i else i - j
  }

  /** Sum of a vector, accumulated from the front. */
  function Sum(s: seq<real>): real {
    if s == [] then 0.0 else Sum(s[..|s| - 1]) + s[|s| - 1]
  }

  /** Arithmetic mean of a non-empty vector. */
  function Mean(s: seq<real>): real
    requires |s| > 0
  {
    Sum(s) / |s| as real
  }

  /** A vector holding one value in every place sums to that value times its length. */
  lemma {:induction false} SumConstant(s: seq<real>, c: real)
    requires forall k :: 0 <= k < |s| ==> s[k] == c
    ensures Sum(s) == |s| as real * c
  {
    if s != [] {
      SumConstant(s[..|s| - 1], c);
    }
  }

  lemma MeanConstant(s: seq<real>, c: real)
    requires |s| > 0
    requires forall k :: 0 <= k < |s| ==> s[k] == c
    ensures Mean(s) == c
  {
    SumConstant(s, c);
  }
}
