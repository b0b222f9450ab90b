/** Sliding two-dimensional cross-correlation of a contact map (the signal) with a
    pattern template (the kernel), in "valid" or "centred" mode. */
module CrossCorrelation {
  import opened Grid

  /** One cell of a score map: `None` is the NaN border left by centred mode. */
  type Cell = Option<real>

  datatype XcorrError = KernelBiggerThanSignal

  /** The kernel placed with its top-left corner at (i, j) lies inside the signal. */
  predicate Fits(signal: Matrix, kernel: Matrix, i: nat, j: nat) {
    IsRect(signal) && IsRect(kernel) &&
    i + |kernel| <= |signal| && j + Cols(kernel) <= Cols(signal)
  }

  /** Σ_{kj < nk} kernel[ki][kj] · signal[i + ki][j + kj] */
  function RowProducts(signal: Matrix, kernel: Matrix, i: nat, j: nat, ki: nat, nk: nat): real
    requires Fits(signal, kernel, i, j) && ki < |kernel| && nk <= Cols(kernel)
  {
    if nk == 0 then 0.0
    else RowProducts(signal, kernel, i, j, ki, nk - 1) + kernel[ki][nk - 1] * signal[i + ki][j + nk - 1]
  }

  /** Σ_{ki < mk, kj < Nk} kernel[ki][kj] · signal[i + ki][j + kj] */
  function WindowSum(signal: Matrix, kernel: Matrix, i: nat, j: nat, mk: nat): real
    requires Fits(signal, kernel, i, j) && mk <= |kernel|
  {
    if mk == 0 then 0.0
    else WindowSum(signal, kernel, i, j, mk - 1) + RowProducts(signal, kernel, i, j, mk - 1, Cols(kernel))
  }

  /** The cross-correlation of signal and kernel at offset (i, j): the kernel-weighted
      sum of the signal window whose top-left corner is (i, j). */
  function Correlation(signal: Matrix, kernel: Matrix, i: nat, j: nat): real
    requires Fits(signal, kernel, i, j)
  {
    WindowSum(signal, kernel, i, j, |kernel|)
  }

  /** Rows and columns of the "valid" result: Ms - Mk + 1 and Ns - Nk + 1. */
  function ValidRows(signal: Matrix, kernel: Matrix): nat
    requires |kernel| <= |signal|
  {
    |signal| - |kernel| + 1
  }

  function ValidCols(signal: Matrix, kernel: Matrix): nat
    requires Cols(kernel) <= Cols(signal)
  {
    Cols(signal) - Cols(kernel) + 1
  }

  predicate InWindow(i: int, j: int, oi: nat, oj: nat, rows: nat, cols: nat) {
    oi <= i < oi + rows && oj <= j < oj + cols
  }

  /** Adding a number to a NaN cell leaves it NaN. */
  function AddTo(c: Cell, x: real): Cell {
    match c
    case None => None
    case Some(v) => Some(v + x)
  }

  /** `c + w·x`, NaN staying NaN. */
  function AddScaled(c: Cell, w: real, x: real): Cell {
    AddTo(c, w * x)
  }

  /** One row of a slice update: `row[oj:oj+cols] += w * srow[kj:kj+cols]`. */
  function AddScaledRow(row: seq<Cell>, srow: seq<real>, w: real, kj: nat, oj: nat, cols: nat): (r: seq<Cell>)
    requires oj + cols <= |row| && kj + cols <= |srow|
    ensures |r| == |row|
    ensures forall j :: 0 <= j < |row| ==>
      r[j] == if oj <= j < oj + cols then AddScaled(row[j], w, srow[j - oj + kj]) else row[j]
  {
    seq(|row|, j requires 0 <= j < |row| =>
      if oj <= j < oj + cols then AddScaled(row[j], w, srow[j - oj + kj]) else row[j])
  }

  /** One vectorised slice update `out[oi:oi+rows, oj:oj+cols] += w * signal[ki:ki+rows, kj:kj+cols]`. */
  function AddScaledSlice(out: seq<seq<Cell>>, signal: Matrix, w: real, ki: nat, kj: nat,
                          oi: nat, oj: nat, rows: nat, cols: nat): (r: seq<seq<Cell>>)
    requires IsRect(out) && IsRect(signal)
    requires oi + rows <= |out| && oj + cols <= Cols(out)
    requires ki + rows <= |signal| && kj + cols <= Cols(signal)
    ensures IsMatrix(r, |out|, Cols(out))
    ensures forall i, j :: 0 <= i < |out| && 0 <= j < Cols(out) ==>
      r[i][j] == if InWindow(i, j, oi, oj, rows, cols)
                 then AddScaled(out[i][j], w, signal[i - oi + ki][j - oj + kj])
                 else out[i][j]
  {
    seq(|out|, i requires 0 <= i < |out| =>
      if oi <= i < oi + rows then AddScaledRow(out[i], signal[i - oi + ki], w, kj, oj, cols) else out[i])
  }

  /** The window of `out` at (oi, oj) can receive a valid-mode result of signal and kernel. */
  predicate WindowFits(signal: Matrix, kernel: Matrix, out: seq<seq<Cell>>, oi: nat, oj: nat) {
    IsRect(signal) && IsRect(kernel) && IsRect(out) &&
    |kernel| <= |signal| && Cols(kernel) <= Cols(signal) &&
    oi + ValidRows(signal, kernel) <= |out| && oj + ValidCols(signal, kernel) <= Cols(out)
  }

  /** The sum over the kernel offsets (ki', kj') that come before (ki, kj) in loop order. */
  function Partial(signal: Matrix, kernel: Matrix, i: nat, j: nat, ki: nat, kj: nat): real
    requires Fits(signal, kernel, i, j) && ki <= |kernel| && kj <= Cols(kernel)
  {
    WindowSum(signal, kernel, i, j, ki) + if ki < |kernel| then RowProducts(signal, kernel, i, j, ki, kj) else 0.0
  }

  /** `out` is `out0` with the partial sum up to offset (ki, kj) added into the window. */
  ghost predicate HoldsPartial(signal: Matrix, kernel: Matrix, out0: seq<seq<Cell>>, oi: nat, oj: nat,
                               out: seq<seq<Cell>>, ki: nat, kj: nat)
    requires WindowFits(signal, kernel, out0, oi, oj) && ki <= |kernel| && kj <= Cols(kernel)
  {
    IsMatrix(out, |out0|, Cols(out0)) &&
    forall i, j :: 0 <= i < |out0| && 0 <= j < Cols(out0) ==>
      out[i][j] == if InWindow(i, j, oi, oj, ValidRows(signal, kernel), ValidCols(signal, kernel))
                   then AddTo(out0[i][j], Partial(signal, kernel, i - oi, j - oj, ki, kj))
                   else out0[i][j]
  }

  /** One slice update moves the partial sum from (ki, kj) to (ki, kj + 1). */
  lemma StepPartial(signal: Matrix, kernel: Matrix, out0: seq<seq<Cell>>, oi: nat, oj: nat,
                    out: seq<seq<Cell>>, ki: nat, kj: nat)
    requires WindowFits(signal, kernel, out0, oi, oj) && ki < |kernel| && kj < Cols(kernel)
    requires HoldsPartial(signal, kernel, out0, oi, oj, out, ki, kj)
    ensures HoldsPartial(signal, kernel, out0, oi, oj,
                         AddScaledSlice(out, signal, kernel[ki][kj], ki, kj, oi, oj,
                                        ValidRows(signal, kernel), ValidCols(signal, kernel)),
                         ki, kj + 1)
  {
    var rows, cols := ValidRows(signal, kernel), ValidCols(signal, kernel);
    var next := AddScaledSlice(out, signal, kernel[ki][kj], ki, kj, oi, oj, rows, cols);
    forall i, j | 0 <= i < |out0| && 0 <= j < Cols(out0) && InWindow(i, j, oi, oj, rows, cols)
      ensures next[i][j] == AddTo(out0[i][j], Partial(signal, kernel, i - oi, j - oj, ki, kj + 1))
    {
      assert next[i][j] == AddScaled(out[i][j], kernel[ki][kj], signal[i - oi + ki][j - oj + kj]);
    }
  }

  /** Finishing a kernel row is starting the next one. */
  lemma NextKernelRow(signal: Matrix, kernel: Matrix, out0: seq<seq<Cell>>, oi: nat, oj: nat,
                      out: seq<seq<Cell>>, ki: nat)
    requires WindowFits(signal, kernel, out0, oi, oj) && ki < |kernel|
    requires HoldsPartial(signal, kernel, out0, oi, oj, out, ki, Cols(kernel))
    ensures HoldsPartial(signal, kernel, out0, oi, oj, out, ki + 1, 0)
  {
    var rows, cols := ValidRows(signal, kernel), ValidCols(signal, kernel);
    forall i, j | 0 <= i < |out0| && 0 <= j < Cols(out0) && InWindow(i, j, oi, oj, rows, cols)
      ensures Partial(signal, kernel, i - oi, j - oj, ki, Cols(kernel))
           == Partial(signal, kernel, i - oi, j - oj, ki + 1, 0)
    {
    }
  }

  /** The double loop over kernel offsets: adds the cross-correlation of signal and
      kernel into the window of `out0` whose top-left corner is (oi, oj). */
  method Accumulate(signal: Matrix, kernel: Matrix, out0: seq<seq<Cell>>, oi: nat, oj: nat)
    returns (out: seq<seq<Cell>>)
    requires WindowFits(signal, kernel, out0, oi, oj)
    ensures IsMatrix(out, |out0|, Cols(out0))
    ensures forall i, j :: 0 <= i < |out0| && 0 <= j < Cols(out0) ==>
      out[i][j] == if InWindow(i, j, oi, oj, ValidRows(signal, kernel), ValidCols(signal, kernel))
                   then AddTo(out0[i][j], Correlation(signal, kernel, i - oi, j - oj))
                   else out0[i][j]
  {
    var rows, cols := ValidRows(signal, kernel), ValidCols(signal, kernel);
    out := out0;
    var ki := 0;
    while ki < |kernel|
      invariant 0 <= ki <= |kernel|
      invariant HoldsPartial(signal, kernel, out0, oi, oj, out, ki, 0)
    {
      var kj := 0;
      while kj < Cols(kernel)
        invariant 0 <= kj <= Cols(kernel)
        invariant HoldsPartial(signal, kernel, out0, oi, oj, out, ki, kj)
      {
        StepPartial(signal, kernel, out0, oi, oj, out, ki, kj);
        out := AddScaledSlice(out, signal, kernel[ki][kj], ki, kj, oi, oj, rows, cols);
        kj := kj + 1;
      }
      NextKernelRow(signal, kernel, out0, oi, oj, out, ki);
      ki := ki + 1;
    }
  }

  /** xcorr2: refuses a kernel larger than the signal; otherwise the "valid" result, or,
      when centred, an Ms × Ns map holding the valid result at the kernel centre
      ((Mk-1)/2, (Nk-1)/2) and NaN on the border. */
  method Xcorr2(signal: Matrix, kernel: Matrix, centered: bool := true)
    returns (r: Result<seq<seq<Cell>>, XcorrError>)
    requires IsRect(signal) && IsRect(kernel)
    requires |kernel| >= 1 && Cols(kernel) >= 1
    ensures r.Err? <==> |kernel| > |signal| || Cols(kernel) > Cols(signal)
    ensures r.Ok? && !centered ==>
      var rows, cols := ValidRows(signal, kernel), ValidCols(signal, kernel);
      IsMatrix(r.value, rows, cols) &&
      forall i, j :: 0 <= i < rows && 0 <= j < cols ==>
        r.value[i][j] == Some(Correlation(signal, kernel, i, j))
    ensures r.Ok? && centered ==>
      var rows, cols := ValidRows(signal, kernel), ValidCols(signal, kernel);
      var ki, kj := (|kernel| - 1) / 2, (Cols(kernel) - 1) / 2;
      IsMatrix(r.value, |signal|, Cols(signal)) &&
      forall i, j :: 0 <= i < |signal| && 0 <= j < Cols(signal) ==>
        r.value[i][j] == if InWindow(i, j, ki, kj, rows, cols)
                         then Some(Correlation(signal, kernel, i - ki, j - kj))
                         else None
  {
    var ms, ns, mk, nk := |signal|, Cols(signal), |kernel|, Cols(kernel);
    if mk > ms || nk > ns {
      return Err(KernelBiggerThanSignal);
    }
    var rows, cols := ms - mk + 1, ns - nk + 1;
    var out;
    if !centered {
      var zeros := seq(rows, i => seq(cols, j => Some(0.0)));
      out := Accumulate(signal, kernel, zeros, 0, 0);
    } else {
      var ki, kj := (mk - 1) / 2, (nk - 1) / 2;
      // NaN everywhere, then 0 on the window that receives the valid result
      var frame := seq(ms, i => seq(ns, j => if InWindow(i, j, ki, kj, rows, cols) then Some(0.0) else None));
      out := Accumulate(signal, kernel, frame, ki, kj);
    }
    r := Ok(out);
  }

  /** With every kernel entry 1/(Mk·Nk) (a mean filter), partial row sums over a
      constant signal grow by the mean weight times the constant per entry. */
  lemma {:induction false} RowProductsOfConstant(signal: Matrix, kernel: Matrix, i: nat, j: nat,
                                                ki: nat, nk: nat, w: real, c: real)
    requires Fits(signal, kernel, i, j) && ki < |kernel| && nk <= Cols(kernel)
    requires forall a, b :: 0 <= a < |signal| && 0 <= b < Cols(signal) ==> signal[a][b] == c
    requires forall a, b :: 0 <= a < |kernel| && 0 <= b < Cols(kernel) ==> kernel[a][b] == w
    ensures RowProducts(signal, kernel, i, j, ki, nk) == nk as real * (w * c)
  {
    if nk > 0 {
      RowProductsOfConstant(signal, kernel, i, j, ki, nk - 1, w, c);
    }
  }

  lemma {:induction false} WindowSumOfConstant(signal: Matrix, kernel: Matrix, i: nat, j: nat,
                                              mk: nat, w: real, c: real)
    requires Fits(signal, kernel, i, j) && mk <= |kernel|
    requires forall a, b :: 0 <= a < |signal| && 0 <= b < Cols(signal) ==> signal[a][b] == c
    requires forall a, b :: 0 <= a < |kernel| && 0 <= b < Cols(kernel) ==> kernel[a][b] == w
    ensures WindowSum(signal, kernel, i, j, mk) == mk as real * (Cols(kernel) as real * (w * c))
  {
    if mk > 0 {
      WindowSumOfConstant(signal, kernel, i, j, mk - 1, w, c);
      RowProductsOfConstant(signal, kernel, i, j, mk - 1, Cols(kernel), w, c);
    }
  }

  /** A kernel whose entries are all 1/(Mk·Nk) computes the local mean: over a
      constant signal it returns that constant at every valid offset. */
  lemma MeanKernelKeepsConstant(signal: Matrix, kernel: Matrix, i: nat, j: nat, c: real)
    requires Fits(signal, kernel, i, j) && |kernel| >= 1 && Cols(kernel) >= 1
    requires forall a, b :: 0 <= a < |signal| && 0 <= b < Cols(signal) ==> signal[a][b] == c
    requires forall a, b :: 0 <= a < |kernel| && 0 <= b < Cols(kernel) ==>
      kernel[a][b] == 1.0 / (|kernel| * Cols(kernel)) as real
    ensures Correlation(signal, kernel, i, j) == c
  {
    var m, n := |kernel| as real, Cols(kernel) as real;
    var w := 1.0 / (m * n);
    assert (|kernel| * Cols(kernel)) as real == m * n;
    WindowSumOfConstant(signal, kernel, i, j, |kernel|, w, c);
    calc {
      m * (n * (w * c));
      (m * n * w) * c;
      { assert m * n * w == 1.0; }
      c;
    }
  }
}
