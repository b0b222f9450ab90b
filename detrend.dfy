/** Detrending of a contact map: normalise, despeckle, divide every cell by the smoothed
    distance law at its genomic distance, and reset poorly covered bins to the neutral
    value 1. */
module Detrend {
  import opened Grid
  import DistanceLaw
  import Normalization
  import Despeckle

  /** A cell of the detrended map. Exact division leaves one IEEE case that the source
      keeps: a positive count over a zero trend, which is +inf. */
  datatype Quotient = Finite(value: real) | Infinite

  /** The distance-law matrix: cell (i, j) holds the trend at distance |j - i|. */
  function Toeplitz(y: seq<real>, n: nat): (t: Matrix)
    requires n <= |y|
    ensures IsSquare(t) && |t| == n
    ensures forall i, j :: 0 <= i < n && 0 <= j < n ==> t[i][j] == y[Distance(i, j)]
  {
    seq(n, i requires 0 <= i < n => seq(n, j requires 0 <= j < n => y[Distance(i, j)]))
  }

  /** The distance-law matrix is symmetric, and its own distance law is the trend it was
      built from: every cell of the d-th diagonal holds y[d]. */
  lemma ToeplitzLaw(y: seq<real>, n: nat)
    requires n <= |y|
    ensures DistanceLaw.Symmetric(Toeplitz(y, n))
    ensures DistanceLaw.Law(Toeplitz(y, n)) == y[..n]
  {
    var t := Toeplitz(y, n);
    forall d | 0 <= d < n
      ensures DistanceLaw.Law(t)[d] == y[d]
    {
      var diag := DistanceLaw.LowerDiagonal(t, d);
      assert forall k :: 0 <= k < |diag| ==> diag[k] == t[k + d][k] == y[d];
      MeanConstant(diag, y[d]);
    }
  }

  /** Fills the distance-law matrix cell by cell. */
  method TrendMatrix(y: seq<real>, n: nat) returns (D: array2<real>)
    requires n <= |y|
    ensures fresh(D) && D.Length0 == n && D.Length1 == n
    ensures forall i, j :: 0 <= i < n && 0 <= j < n ==> D[i, j] == y[Distance(i, j)]
    ensures Snapshot(D) == Toeplitz(y, n)
  {
    D := new real[n, n];
    var i := 0;
    while i < n
      invariant 0 <= i <= n
      invariant forall i', j :: 0 <= i' < i && 0 <= j < n ==> D[i', j] == y[Distance(i', j)]
    {
      var j := 0;
      while j < n
        invariant 0 <= j <= n
        invariant forall i', j' :: 0 <= i' < i && 0 <= j' < n ==> D[i', j'] == y[Distance(i', j')]
        invariant forall j' :: 0 <= j' < j ==> D[i, j'] == y[Distance(i, j')]
      {
        D[i, j] := y[if j >= i then j - i else i - j];
        j := j + 1;
      }
      i := i + 1;
    }
    SnapshotIs(D, Toeplitz(y, n));
  }

  /** One detrended cell: x / t, where 0/0 (NaN) and every negative quotient (including
      -inf) become the neutral 1. */
  function Divide(x: real, t: real): (q: Quotient)
    ensures q.Finite? ==> 0.0 <= q.value
    ensures q.Infinite? <==> t == 0.0 && x > 0.0
  {
    if t == 0.0 then (if x > 0.0 then Infinite else Finite(1.0))
    else if x / t < 0.0 then Finite(1.0)
    else Finite(x / t)
  }

  /** `matscn / distance_law_matrix`, cell by cell, with the NaN and sign clean-up. */
  function Divided(m: Matrix, t: Matrix): (q: seq<seq<Quotient>>)
    requires IsSquare(m) && IsSquare(t) && |m| == |t|
    ensures IsMatrix(q, |m|, |m|)
    ensures forall i, j :: 0 <= i < |m| && 0 <= j < |m| ==> q[i][j] == Divide(m[i][j], t[i][j])
  {
    seq(|m|, i requires 0 <= i < |m| => seq(|m|, j requires 0 <= j < |m| => Divide(m[i][j], t[i][j])))
  }

  /** Bins whose column sum is at most the threshold. */
  function PoorBins(m: Matrix, threshold: real): (poor: seq<bool>)
    requires IsSquare(m)
    ensures |poor| == |m|
    ensures forall j :: 0 <= j < |m| ==> (poor[j] <==> Sum(Normalization.Column(m, j)) <= threshold)
  {
    seq(|m|, j requires 0 <= j < |m| => Sum(Normalization.Column(m, j)) <= threshold)
  }

  /** On a symmetric map the poor bins (by column sum) are exactly the bins that the
      normalisation does not keep (by row sum), so their rows and columns are already 0
      before the refill sets them to 1. */
  lemma PoorBinsAreNotKept(m: Matrix, threshold: real)
    requires IsSquare(m) && DistanceLaw.Symmetric(m)
    ensures forall j :: 0 <= j < |m| ==>
      (PoorBins(m, threshold)[j] <==> !Normalization.Keep(m, threshold)[j])
  {
    forall j | 0 <= j < |m|
      ensures Normalization.Column(m, j) == m[j]
    {
    }
  }

  /** Rows and then columns of poor bins are overwritten with 1. */
  method RefillPoorBins(Q: array2<Quotient>, poor: seq<bool>)
    requires Q.Length0 == Q.Length1 == |poor|
    modifies Q
    ensures forall i, j :: 0 <= i < |poor| && 0 <= j < |poor| ==>
      Q[i, j] == if poor[i] || poor[j] then Finite(1.0) else old(Q[i, j])
  {
    var n := |poor|;
    var i := 0;
    while i < n
      invariant 0 <= i <= n
      invariant forall r, c :: 0 <= r < n && 0 <= c < n ==>
        Q[r, c] == if r < i && poor[r] then Finite(1.0) else old(Q[r, c])
    {
      if poor[i] {
        forall c | 0 <= c < n {
          Q[i, c] := Finite(1.0);
        }
      }
      i := i + 1;
    }
    var j := 0;
    while j < n
      invariant 0 <= j <= n
      invariant forall r, c :: 0 <= r < n && 0 <= c < n ==>
        Q[r, c] == if poor[r] || (c < j && poor[c]) then Finite(1.0) else old(Q[r, c])
    {
      if poor[j] {
        forall r | 0 <= r < n {
          Q[r, j] := Finite(1.0);
        }
      }
      j := j + 1;
    }
  }

  /** The detrended value of cell (i, j) given the processed map and the smoothed trend. */
  function DetrendedCell(matscn: Matrix, ys: seq<real>, poor: seq<bool>, i: nat, j: nat): Quotient
    requires IsSquare(matscn) && |matscn| <= |ys| && |poor| == |matscn| && i < |matscn| && j < |matscn|
  {
    if poor[i] || poor[j] then Finite(1.0) else Divide(matscn[i][j], ys[Distance(i, j)])
  }

  /** A non-negative count over a positive trend is kept exactly. */
  lemma DividePositive(x: real, t: real)
    requires 0.0 <= x && 0.0 < t
    ensures Divide(x, t) == Finite(x / t)
  {
    assert 0.0 <= x / t;
  }

  /** The NaN and sign clean-up of detrend only ever fires where the smoothed trend is not
      positive: the normalised, despeckled map is non-negative, so wherever the trend is
      positive each cell outside the poor bins is exactly the map over the trend at its
      distance. */
  lemma DetrendedIsQuotient(m0: Matrix, threshold: real, st: Despeckle.Stats, ys: seq<real>)
    requires IsSquare(m0) && NonNegative(m0) && |m0| <= |ys|
    requires forall d :: 0 <= d < |m0| ==> 0.0 < ys[d]
    ensures var matscn := Despeckle.Despeckled(
        Normalization.Balance(m0, Normalization.Keep(m0, threshold), Normalization.Rounds), st);
      var poor := PoorBins(m0, threshold);
      forall i, j :: 0 <= i < |m0| && 0 <= j < |m0| && !poor[i] && !poor[j] ==>
        DetrendedCell(matscn, ys, poor, i, j) == Finite(matscn[i][j] / ys[Distance(i, j)])
  {
    var keep := Normalization.Keep(m0, threshold);
    Normalization.BalanceNonNegative(m0, keep, Normalization.Rounds);
    var b := Normalization.Balance(m0, keep, Normalization.Rounds);
    Despeckle.DespeckledNonNegative(b, st);
    var matscn := Despeckle.Despeckled(b, st);
    forall i, j | 0 <= i < |m0| && 0 <= j < |m0|
      ensures Divide(matscn[i][j], ys[Distance(i, j)]) == Finite(matscn[i][j] / ys[Distance(i, j)])
    {
      DividePositive(matscn[i][j], ys[Distance(i, j)]);
    }
  }

  /** detrend: the poor bins are found on the input; the map is normalised in place
      (threshold as for poor bins) and despeckled in place with th2 = 10; its distance law
      is smoothed; each cell is divided by the trend at its distance and poor bins are
      reset to 1. `threshold` and the median and standard deviation of the speckle cutoff
      are given, and `smooth` stands for the Savitzky-Golay filter. */
  method Detrend(A: array2<real>, threshold: real, median: seq<real> -> real, std: seq<real> -> real,
                 smooth: seq<real> -> seq<real>) returns (Q: array2<Quotient>)
    requires A.Length0 == A.Length1
    requires forall i, j :: 0 <= i < A.Length0 && 0 <= j < A.Length1 ==> 0.0 <= A[i, j]
    requires forall v :: |smooth(v)| == |v|
    modifies A
    ensures fresh(Q) && Q.Length0 == Q.Length1 == A.Length0
    ensures var m0 := old(Snapshot(A));
      var matscn := Despeckle.Despeckled(
        Normalization.Balance(m0, Normalization.Keep(m0, threshold), Normalization.Rounds),
        Despeckle.Stats(median, std, 10.0));
      Snapshot(A) == matscn &&
      forall i, j :: 0 <= i < A.Length0 && 0 <= j < A.Length0 ==>
        Q[i, j] == DetrendedCell(matscn, smooth(DistanceLaw.Law(matscn)), PoorBins(m0, threshold), i, j)
  {
    var n := A.Length0;
    ghost var m0 := Snapshot(A);
    var poor := PoorBins(Snapshot(A), threshold);
    Normalization.ScnFunc(A, threshold);
    var st := Despeckle.Stats(median, std, 10.0);
    var _, _, _ := Despeckle.Despeckles(A, st);
    var matscn := Snapshot(A);
    var y := DistanceLaw.Law(matscn);
    Q := DivideByTrend(matscn, smooth(y), poor);
  }

  /** The last steps of detrend: the trend matrix, the cell-wise division and the refill
      of poor bins. */
  method DivideByTrend(matscn: Matrix, ys: seq<real>, poor: seq<bool>) returns (Q: array2<Quotient>)
    requires IsSquare(matscn) && |matscn| <= |ys| && |poor| == |matscn|
    ensures fresh(Q) && Q.Length0 == Q.Length1 == |matscn|
    ensures forall i, j :: 0 <= i < |matscn| && 0 <= j < |matscn| ==>
      Q[i, j] == DetrendedCell(matscn, ys, poor, i, j)
  {
    var n := |matscn|;
    var D := TrendMatrix(ys, n);
    var q := Divided(matscn, Snapshot(D));
    assert Snapshot(D) == Toeplitz(ys, n);
    Q := new Quotient[n, n]((i, j) requires 0 <= i < n && 0 <= j < n => q[i][j]);
    RefillPoorBins(Q, poor);
  }
}
