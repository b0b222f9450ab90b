/** The genomic distance law of a contact map: the mean contact intensity at each
    genomic distance, taken along the lower diagonals. */
module DistanceLaw {
  import opened Grid

  /** The d-th lower diagonal `matrix[i + d][i]`, i < n - d (numpy's `diag(matrix, -d)`). */
  function LowerDiagonal(m: Matrix, d: nat): (r: seq<real>)
    requires IsSquare(m) && d < |m|
    ensures |r| == |m| - d
  {
    seq(|m| - d, i requires 0 <= i < |m| - d => m[i + d][i])
  }

  /** The d-th upper diagonal `matrix[j][j + d]`, j < n - d. */
  function UpperDiagonal(m: Matrix, d: nat): (r: seq<real>)
    requires IsSquare(m) && d < |m|
    ensures |r| == |m| - d
  {
    seq(|m| - d, j requires 0 <= j < |m| - d => m[j][j + d])
  }

  /** One value per genomic distance d: the mean of the d-th lower diagonal, so that the
      n - d cells at distance d sum to n - d times the law. */
  function Law(m: Matrix): (dist: seq<real>)
    requires IsSquare(m)
    ensures |dist| == |m|
    ensures forall d :: 0 <= d < |m| ==> (|m| - d) as real * dist[d] == Sum(LowerDiagonal(m, d))
  {
    seq(|m|, d requires 0 <= d < |m| => Mean(LowerDiagonal(m, d)))
  }

  predicate Symmetric(m: Matrix)
    requires IsSquare(m)
  {
    forall i, j :: 0 <= i < |m| && 0 <= j < |m| ==> m[i][j] == m[j][i]
  }

  /** The worked example: every row [2, 3, 4] gives the law [3, 2.5, 2]. */
  lemma LawExample()
    ensures Law([[2.0, 3.0, 4.0], [2.0, 3.0, 4.0], [2.0, 3.0, 4.0]]) == [3.0, 2.5, 2.0]
  {
    var m := [[2.0, 3.0, 4.0], [2.0, 3.0, 4.0], [2.0, 3.0, 4.0]];
    assert LowerDiagonal(m, 0) == [2.0, 3.0, 4.0];
    assert LowerDiagonal(m, 1) == [2.0, 3.0];
    assert LowerDiagonal(m, 2) == [2.0];
    assert [2.0, 3.0, 4.0][..2] == [2.0, 3.0] && [2.0, 3.0][..1] == [2.0] && [2.0][..0] == [];
    assert Sum([2.0, 3.0, 4.0]) == 9.0;
    assert Sum([2.0, 3.0]) == 5.0;
    assert Law(m)[0] == 3.0 && Law(m)[1] == 2.5 && Law(m)[2] == 2.0;
  }

  /** Sampling only the lower diagonals loses nothing on a symmetric map: the mean of
      the upper diagonal at the same distance is the same. */
  lemma SymmetricLawUsesEitherSide(m: Matrix, d: nat)
    requires IsSquare(m) && Symmetric(m) && d < |m|
    ensures Law(m)[d] == Mean(UpperDiagonal(m, d))
  {
    assert LowerDiagonal(m, d) == UpperDiagonal(m, d) by {
      forall i | 0 <= i < |m| - d
        ensures LowerDiagonal(m, d)[i] == UpperDiagonal(m, d)[i]
      {
        assert m[i + d][i] == m[i][i + d];
      }
    }
  }

  lemma {:induction false} SumBounds(s: seq<real>, lo: real, hi: real)
    requires forall k :: 0 <= k < |s| ==> lo <= s[k] <= hi
    ensures |s| as real * lo <= Sum(s) <= |s| as real * hi
  {
    if s != [] {
      SumBounds(s[..|s| - 1], lo, hi);
    }
  }

  /** The mean of a non-empty vector lies between bounds of its entries. */
  lemma MeanBounds(s: seq<real>, lo: real, hi: real)
    requires |s| > 0
    requires forall k :: 0 <= k < |s| ==> lo <= s[k] <= hi
    ensures lo <= Mean(s) <= hi
  {
    SumBounds(s, lo, hi);
    var k := |s| as real;
    assert lo == (k * lo) / k;
    assert hi == (k * hi) / k;
  }

  /** The law of a map whose entries lie in [lo, hi] lies in [lo, hi]: in particular
      a non-negative contact map has a non-negative distance law. */
  lemma LawBounded(m: Matrix, lo: real, hi: real)
    requires IsSquare(m)
    requires forall i, j :: 0 <= i < |m| && 0 <= j < |m| ==> lo <= m[i][j] <= hi
    ensures forall d :: 0 <= d < |m| ==> lo <= Law(m)[d] <= hi
  {
    forall d | 0 <= d < |m|
      ensures lo <= Law(m)[d] <= hi
    {
      MeanBounds(LowerDiagonal(m, d), lo, hi);
    }
  }
}
