/** Sequential column/row normalisation of a contact map (scn_func): rows whose sum
    exceeds a threshold are kept; ten rounds each rescale every column over the kept rows
    and then every row over the kept columns, zeroing everything that touches a row or
    column that is not kept. */
module Normalization {
  import opened Grid

  /** The fixed number of column-then-row rounds. */
  const Rounds: nat := 10

  /** Row i is kept when its sum exceeds the threshold. */
  function Keep(m: Matrix, threshold: real): (keep: seq<bool>)
    requires IsSquare(m)
    ensures |keep| == |m|
    ensures forall i :: 0 <= i < |m| ==> (keep[i] <==> Sum(m[i]) > threshold)
  {
    seq(|m|, i requires 0 <= i < |m| => Sum(m[i]) > threshold)
  }

  /** Sum of the entries of `v` at kept positions. */
  function KeptSum(v: seq<real>, keep: seq<bool>): real
    requires |v| == |keep|
  {
    if v == [] then 0.0
    else KeptSum(v[..|v| - 1], keep[..|keep| - 1]) + (if keep[|v| - 1] then v[|v| - 1] else 0.0)
  }

  /** `x / s`, where the NaN of 0/0 is replaced by 0 (on non-negative data a zero sum
      means every summand is 0). */
  function Ratio(x: real, s: real): real {
    if s == 0.0 then 0.0 else x / s
  }

  /** `v` divided by `s` at kept positions and zeroed elsewhere. */
  function Rescaled(v: seq<real>, keep: seq<bool>, s: real): (r: seq<real>)
    requires |v| == |keep|
    ensures |r| == |v|
  {
    seq(|v|, k requires 0 <= k < |v| => if keep[k] then Ratio(v[k], s) else 0.0)
  }

  function Column(m: Matrix, c: nat): (col: seq<real>)
    requires IsSquare(m) && c < |m|
    ensures |col| == |m|
  {
    seq(|m|, r requires 0 <= r < |m| => m[r][c])
  }

  /** The column half of a round: each column divided by its sum over kept rows;
      rows that are not kept become 0. */
  function ColumnPass(m: Matrix, keep: seq<bool>): (r: Matrix)
    requires IsSquare(m) && |keep| == |m|
    ensures IsSquare(r) && |r| == |m|
    ensures forall i, j :: 0 <= i < |m| && 0 <= j < |m| ==>
      r[i][j] == Rescaled(Column(m, j), keep, KeptSum(Column(m, j), keep))[i]
  {
    seq(|m|, i requires 0 <= i < |m| =>
      seq(|m|, j requires 0 <= j < |m| => Rescaled(Column(m, j), keep, KeptSum(Column(m, j), keep))[i]))
  }

  /** The row half of a round: each row divided by its sum over kept columns; columns
      that are not kept become 0. */
  function RowPass(m: Matrix, keep: seq<bool>): (r: Matrix)
    requires IsSquare(m) && |keep| == |m|
    ensures IsSquare(r) && |r| == |m|
    ensures forall i :: 0 <= i < |m| ==> r[i] == Rescaled(m[i], keep, KeptSum(m[i], keep))
  {
    seq(|m|, i requires 0 <= i < |m| => Rescaled(m[i], keep, KeptSum(m[i], keep)))
  }

  /** `rounds` column-then-row rounds with a fixed keep set. */
  function Balance(m: Matrix, keep: seq<bool>, rounds: nat): (r: Matrix)
    requires IsSquare(m) && |keep| == |m|
    ensures IsSquare(r) && |r| == |m|
  {
    if rounds == 0 then m else RowPass(ColumnPass(Balance(m, keep, rounds - 1), keep), keep)
  }

  /** Row i of an array, as a vector. */
  function RowOf(A: array2<real>, i: nat): (row: seq<real>)
    reads A
    requires i < A.Length0
    ensures |row| == A.Length1 && forall j :: 0 <= j < A.Length1 ==> row[j] == A[i, j]
  {
    seq(A.Length1, j requires 0 <= j < A.Length1 reads A => A[i, j])
  }

  /** Column j of an array, as a vector. */
  function ColumnOf(A: array2<real>, j: nat): (col: seq<real>)
    reads A
    requires j < A.Length1
    ensures |col| == A.Length0 && forall i :: 0 <= i < A.Length0 ==> col[i] == A[i, j]
  {
    seq(A.Length0, i requires 0 <= i < A.Length0 reads A => A[i, j])
  }

  /** The column half of one round, in place. */
  method NormalizeColumns(A: array2<real>, keep: seq<bool>)
    requires A.Length0 == A.Length1 == |keep|
    modifies A
    ensures forall r, c :: 0 <= r < A.Length0 && 0 <= c < A.Length0 ==>
      A[r, c] == ColumnPass(old(Snapshot(A)), keep)[r][c]
  {
    var n := A.Length0;
    ghost var b := Snapshot(A);
    var i := 0;
    while i < n
      invariant 0 <= i <= n
      invariant forall r, c :: 0 <= r < n && 0 <= c < n ==>
        A[r, c] == if c < i then ColumnPass(b, keep)[r][c] else b[r][c]
    {
      assert ColumnOf(A, i) == Column(b, i);
      var s := KeptSum(ColumnOf(A, i), keep);
      forall r | 0 <= r < n {
        A[r, i] := if keep[r] then Ratio(A[r, i], s) else 0.0;
      }
      i := i + 1;
    }
  }

  /** The row half of one round, in place. */
  method NormalizeRows(A: array2<real>, keep: seq<bool>)
    requires A.Length0 == A.Length1 == |keep|
    modifies A
    ensures forall r, c :: 0 <= r < A.Length0 && 0 <= c < A.Length0 ==>
      A[r, c] == RowPass(old(Snapshot(A)), keep)[r][c]
  {
    var n := A.Length0;
    ghost var b := Snapshot(A);
    var i := 0;
    while i < n
      invariant 0 <= i <= n
      invariant forall r, c :: 0 <= r < n && 0 <= c < n ==>
        A[r, c] == if r < i then RowPass(b, keep)[r][c] else b[r][c]
    {
      assert RowOf(A, i) == b[i];
      var s := KeptSum(RowOf(A, i), keep);
      forall c | 0 <= c < n {
        A[i, c] := if keep[c] then Ratio(A[i, c], s) else 0.0;
      }
      i := i + 1;
    }
  }

  /** The keep flags of scn_func: row i is kept when its sum exceeds the threshold. */
  method KeepRows(A: array2<real>, threshold: real) returns (keep: seq<bool>)
    requires A.Length0 == A.Length1
    ensures keep == Keep(Snapshot(A), threshold)
  {
    var n := A.Length0;
    ghost var m0 := Snapshot(A);
    keep := [];
    var i := 0;
    while i < n
      invariant 0 <= i <= n
      invariant keep == Keep(m0, threshold)[..i]
    {
      assert RowOf(A, i) == m0[i];
      keep := keep + [Sum(RowOf(A, i)) > threshold];
      i := i + 1;
    }
  }

  /** `rounds` rounds of column then row normalisation, in place, with fixed keep flags. */
  method Iterate(A: array2<real>, keep: seq<bool>, rounds: nat)
    requires A.Length0 == A.Length1 == |keep|
    modifies A
    ensures Snapshot(A) == Balance(old(Snapshot(A)), keep, rounds)
  {
    ghost var m0 := Snapshot(A);
    var round := 0;
    while round < rounds
      invariant 0 <= round <= rounds
      invariant Snapshot(A) == Balance(m0, keep, round)
    {
      NormalizeColumns(A, keep);
      ghost var cb := ColumnPass(Balance(m0, keep, round), keep);
      SnapshotIs(A, cb);
      NormalizeRows(A, keep);
      SnapshotIs(A, RowPass(cb, keep));
      round := round + 1;
    }
  }

  /** scn_func: fixes the keep set from the input's row sums, then runs the ten rounds
      in place. */
  method ScnFunc(A: array2<real>, threshold: real := 0.0)
    requires A.Length0 == A.Length1
    requires forall i, j :: 0 <= i < A.Length0 && 0 <= j < A.Length1 ==> 0.0 <= A[i, j]
    modifies A
    ensures Snapshot(A) == Balance(old(Snapshot(A)), Keep(old(Snapshot(A)), threshold), Rounds)
  {
    var keep := KeepRows(A, threshold);
    Iterate(A, keep, Rounds);
  }

  lemma {:induction false} KeptSumOfZeros(v: seq<real>, keep: seq<bool>)
    requires |v| == |keep| && forall k :: 0 <= k < |v| ==> v[k] == 0.0
    ensures KeptSum(v, keep) == 0.0
  {
    if v != [] {
      KeptSumOfZeros(v[..|v| - 1], keep[..|keep| - 1]);
    }
  }

  lemma {:induction false} KeptSumNonNegative(v: seq<real>, keep: seq<bool>)
    requires |v| == |keep| && forall k :: 0 <= k < |v| ==> 0.0 <= v[k]
    ensures 0.0 <= KeptSum(v, keep)
  {
    if v != [] {
      KeptSumNonNegative(v[..|v| - 1], keep[..|keep| - 1]);
    }
  }

  /** Dividing the kept entries by a non-zero `s` divides their sum by `s`. */
  lemma {:induction false} KeptSumRescaled(v: seq<real>, keep: seq<bool>, s: real)
    requires |v| == |keep| && s != 0.0
    ensures KeptSum(Rescaled(v, keep, s), keep) == KeptSum(v, keep) / s
  {
    if v != [] {
      var n := |v| - 1;
      assert Rescaled(v, keep, s)[..n] == Rescaled(v[..n], keep[..n], s);
      KeptSumRescaled(v[..n], keep[..n], s);
      var last := if keep[n] then v[n] else 0.0;
      assert (if keep[n] then Ratio(v[n], s) else 0.0) == last / s;
      DivAdds(KeptSum(v[..n], keep[..n]), last, s);
    }
  }

  lemma DivAdds(a: real, b: real, s: real)
    requires s != 0.0
    ensures a / s + b / s == (a + b) / s
  {
  }

  lemma DivSelf(s: real)
    requires s != 0.0
    ensures s / s == 1.0
  {
  }

  /** After a row pass every row's kept entries sum to 1, or the whole row is 0 (its
      kept sum was 0, and 0/0 became 0). */
  lemma RowPassNormalizes(m: Matrix, keep: seq<bool>)
    requires IsSquare(m) && |keep| == |m|
    ensures forall r :: 0 <= r < |m| ==>
      KeptSum(RowPass(m, keep)[r], keep) == 1.0 || forall c :: 0 <= c < |m| ==> RowPass(m, keep)[r][c] == 0.0
  {
    forall r | 0 <= r < |m|
      ensures KeptSum(RowPass(m, keep)[r], keep) == 1.0 || forall c :: 0 <= c < |m| ==> RowPass(m, keep)[r][c] == 0.0
    {
      var s := KeptSum(m[r], keep);
      var row := Rescaled(m[r], keep, s);
      assert RowPass(m, keep)[r] == row;
      if s != 0.0 {
        KeptSumRescaled(m[r], keep, s);
        DivSelf(s);
      } else {
        assert forall c :: 0 <= c < |m| ==> row[c] == 0.0;
      }
    }
  }

  /** The kept entries of a non-negative vector whose kept sum is 0 are all 0. */
  lemma {:induction false} KeptSumZero(v: seq<real>, keep: seq<bool>)
    requires |v| == |keep| && forall k :: 0 <= k < |v| ==> 0.0 <= v[k]
    requires KeptSum(v, keep) == 0.0
    ensures forall k :: 0 <= k < |v| && keep[k] ==> v[k] == 0.0
  {
    if v != [] {
      var n := |v| - 1;
      KeptSumNonNegative(v[..n], keep[..n]);
      KeptSumZero(v[..n], keep[..n]);
      assert forall k :: 0 <= k < n ==> v[..n][k] == v[k];
    }
  }

  /** On a non-negative map, every division by a zero sum in a column or row pass is 0/0:
      the kept entries over a zero kept sum are 0. So mapping the quotient to 0, as the
      NaN clean-up does, loses no infinity. */
  lemma PassesDivideZeroByZero(m: Matrix, keep: seq<bool>)
    requires IsSquare(m) && |keep| == |m| && NonNegative(m)
    ensures forall r, c :: 0 <= r < |m| && 0 <= c < |m| && keep[r] && KeptSum(Column(m, c), keep) == 0.0 ==>
      m[r][c] == 0.0
    ensures forall r, c :: 0 <= r < |m| && 0 <= c < |m| && keep[c] && KeptSum(ColumnPass(m, keep)[r], keep) == 0.0 ==>
      ColumnPass(m, keep)[r][c] == 0.0
  {
    forall c | 0 <= c < |m| && KeptSum(Column(m, c), keep) == 0.0
      ensures forall r :: 0 <= r < |m| && keep[r] ==> m[r][c] == 0.0
    {
      KeptSumZero(Column(m, c), keep);
    }
    ColumnPassNonNegative(m, keep);
    var cp := ColumnPass(m, keep);
    forall r | 0 <= r < |m| && KeptSum(cp[r], keep) == 0.0
      ensures forall c :: 0 <= c < |m| && keep[c] ==> cp[r][c] == 0.0
    {
      KeptSumZero(cp[r], keep);
    }
  }

  /** In every round of scn_func on a non-negative map, the zero sums the passes divide by
      only ever meet zero entries. */
  lemma ScnDividesZeroByZero(m: Matrix, threshold: real, round: nat)
    requires IsSquare(m) && NonNegative(m)
    ensures var keep := Keep(m, threshold);
      var b := Balance(m, keep, round);
      (forall r, c :: 0 <= r < |m| && 0 <= c < |m| && keep[r] && KeptSum(Column(b, c), keep) == 0.0 ==>
        b[r][c] == 0.0) &&
      (forall r, c :: 0 <= r < |m| && 0 <= c < |m| && keep[c] && KeptSum(ColumnPass(b, keep)[r], keep) == 0.0 ==>
        ColumnPass(b, keep)[r][c] == 0.0)
  {
    BalanceNonNegative(m, Keep(m, threshold), round);
    PassesDivideZeroByZero(Balance(m, Keep(m, threshold), round), Keep(m, threshold));
  }

  /** A rescaling by a non-negative vector's own kept sum stays non-negative. */
  lemma RescaledNonNegative(v: seq<real>, keep: seq<bool>)
    requires |v| == |keep| && forall k :: 0 <= k < |v| ==> 0.0 <= v[k]
    ensures forall k :: 0 <= k < |v| ==> 0.0 <= Rescaled(v, keep, KeptSum(v, keep))[k]
  {
    KeptSumNonNegative(v, keep);
  }

  lemma ColumnPassNonNegative(m: Matrix, keep: seq<bool>)
    requires IsSquare(m) && |keep| == |m| && NonNegative(m)
    ensures NonNegative(ColumnPass(m, keep))
  {
    forall c | 0 <= c < |m|
      ensures forall r :: 0 <= r < |m| ==> 0.0 <= Rescaled(Column(m, c), keep, KeptSum(Column(m, c), keep))[r]
    {
      RescaledNonNegative(Column(m, c), keep);
    }
  }

  lemma RowPassNonNegative(m: Matrix, keep: seq<bool>)
    requires IsSquare(m) && |keep| == |m| && NonNegative(m)
    ensures NonNegative(RowPass(m, keep))
  {
    forall r | 0 <= r < |m|
      ensures forall c :: 0 <= c < |m| ==> 0.0 <= Rescaled(m[r], keep, KeptSum(m[r], keep))[c]
    {
      RescaledNonNegative(m[r], keep);
    }
  }

  /** Normalisation keeps a non-negative map non-negative. */
  lemma {:induction false} BalanceNonNegative(m: Matrix, keep: seq<bool>, rounds: nat)
    requires IsSquare(m) && |keep| == |m| && NonNegative(m)
    ensures NonNegative(Balance(m, keep, rounds))
  {
    if rounds > 0 {
      var prev := Balance(m, keep, rounds - 1);
      BalanceNonNegative(m, keep, rounds - 1);
      ColumnPassNonNegative(prev, keep);
      RowPassNonNegative(ColumnPass(prev, keep), keep);
    }
  }

  /** After at least one round: every entry in a row or column that is not kept is 0, and
      every row's kept entries sum to 1 or the row is entirely 0. */
  lemma BalanceProperties(m: Matrix, keep: seq<bool>, rounds: nat)
    requires IsSquare(m) && |keep| == |m| && rounds >= 1
    ensures var b := Balance(m, keep, rounds);
      forall r, c :: 0 <= r < |m| && 0 <= c < |m| && (!keep[r] || !keep[c]) ==> b[r][c] == 0.0
    ensures var b := Balance(m, keep, rounds);
      forall r :: 0 <= r < |m| ==> KeptSum(b[r], keep) == 1.0 || forall c :: 0 <= c < |m| ==> b[r][c] == 0.0
  {
    var cp := ColumnPass(Balance(m, keep, rounds - 1), keep);
    RowPassNormalizes(cp, keep);
    forall r | 0 <= r < |m| && !keep[r]
      ensures forall c :: 0 <= c < |m| ==> RowPass(cp, keep)[r][c] == 0.0
    {
      KeptSumOfZeros(cp[r], keep);
    }
  }

  /** What scn_func promises about its result (ten rounds, keep flags from the input). */
  lemma ScnResult(m: Matrix, threshold: real)
    requires IsSquare(m) && NonNegative(m)
    ensures var b, keep := Balance(m, Keep(m, threshold), Rounds), Keep(m, threshold);
      NonNegative(b) &&
      (forall r, c :: 0 <= r < |m| && 0 <= c < |m| && (!keep[r] || !keep[c]) ==> b[r][c] == 0.0) &&
      (forall r :: 0 <= r < |m| ==> KeptSum(b[r], keep) == 1.0 || forall c :: 0 <= c < |m| ==> b[r][c] == 0.0)
  {
    BalanceNonNegative(m, Keep(m, threshold), Rounds);
    BalanceProperties(m, Keep(m, threshold), Rounds);
  }
}
