# Loop detector utilities, modelled in Dafny

This project models the array utilities of the Hi-C loop detector in
`declooptor/utils.py`. Numbers are exact reals; a NaN cell of a score map is `None`.

- **Cross-correlation (`xcorr2`).** A pattern template slides over a contact map. The result is either the "valid" sum
  map or a map of the signal's shape with the sums placed at the kernel centre and NaN on
  the border. Module `CrossCorrelation`.
- **Distance law (`distance_law`).** The mean contact intensity on each lower diagonal. Module `DistanceLaw`.
- **Speckle filter (`despeckles`).** Each upper diagonal is first snapshotted as a group. Every entry above
  that group's cutoff (median + th2 · std) is then zeroed, counted and listed, in place. Module `Despeckle`.
- **Sequential normalisation (`scn_func`).** A keep set is fixed once, from row sums above a
  threshold. Ten rounds then rescale every column over the kept rows and every row over the
  kept columns, in place. Module `Normalization`.
- **Peak picker (`picker`).** The range is checked first, then the probabilities are thresholded. The
  above-threshold pixels are grouped into 4-connected components, single pixels are dropped, and one
  argmax pixel is taken per remaining component. The labelling that scipy provides is written out and
  proved in module `Labelling`; the picker itself is module `Picker`.
- **Detrending (`detrend`).** Poor bins are found first, and the map is then normalised and despeckled. Next comes the
  Toeplitz distance-law matrix `y[|j - i|]`, then cell-wise division with NaN and negatives
  set to 1, and last the neutral refill of poor rows and columns. Module `Detrend`.

Shared vocabulary is in module `Grid`: options, results, matrices, genomic distance, sums and
means. The contact maps that `scn_func`, `despeckles` and `detrend` mutate in place are
`array2<real>` values with `modifies` clauses. Each such method is specified by a function on
the matrix value (`Snapshot`), and the properties are proved about those functions. The
small arrays that `picker` fills slot by slot are sequences (see "Left out").

## Model

| member | source | states |
|---|---|---|
| CrossCorrelation.Xcorr2 | declooptor/utils.py:217-243 | Centred mode is the default, as in the source. The result is an error exactly when the kernel has more rows or columns than the signal. In valid mode the result is (Ms-Mk+1)×(Ns-Nk+1), and cell (i, j) is Σ kernel[ki][kj]·signal[i+ki][j+kj]. In centred mode the result is Ms×Ns. Cells of the window starting at ((Mk-1)/2, (Nk-1)/2) hold the valid value shifted by that offset, and every other cell is NaN. |
| CrossCorrelation.Accumulate | declooptor/utils.py:225-241 | The double loop over kernel offsets adds exactly the full correlation sum into each cell of the target window. A NaN cell stays NaN. Cells outside the window are unchanged. |
| CrossCorrelation.MeanKernelKeepsConstant | declooptor/utils.py:253-254 | A kernel whose entries are all 1/(Mk·Nk), the mean kernel of corrcoef2d, returns the constant itself at every offset of a constant signal. |
| DistanceLaw.Law | declooptor/utils.py:70-74 | The law has one entry per bin. Entry d is the mean of the d-th lower diagonal: n-d times it equals the sum of the n-d cells matrix[i+d][i]. |
| DistanceLaw.LawExample | declooptor/utils.py:57-68 | The documented example: the 3×3 map with every row [2, 3, 4] has law [3, 2.5, 2]. |
| DistanceLaw.SymmetricLawUsesEitherSide | declooptor/utils.py:70-74 | On a symmetric map, the mean of the d-th lower diagonal equals that of the d-th upper diagonal. |
| DistanceLaw.LawBounded | declooptor/utils.py:70-74 | If every entry lies in [lo, hi], then every value of the law does too. In particular, a non-negative map has a non-negative law. |
| Despeckle.CollectGroups | declooptor/utils.py:83-89 | dist[nw] is the list A[j][j+nw] for j < n-nw, taken from the array before any write. |
| Despeckle.ClipCell | declooptor/utils.py:96-104 | A cell above the cutoff is set to 0, and the counter and the list each grow by that cell. Otherwise nothing changes. No other cell changes. |
| Despeckle.ClipStep | declooptor/utils.py:93-104 | Step (nw, j) first tests A[j, j+nw] if it exists, then A[j, j-nw] if it exists, the second test seeing the first one's write. The list grows by exactly the cells found above the cutoff, in that order, and the counter by as many. |
| Despeckle.ClippedStep | declooptor/utils.py:91-104 | If the array is despeckled on every cell examined before step (nw, j), then after the step it is despeckled on every cell examined up to and including it, and still equal to the input elsewhere. |
| Despeckle.ListedStepOf | declooptor/utils.py:95-104 | On such an array, step (nw, j) lists what the per-step specification says: each speckle at distance nw in row j, and a diagonal speckle a second time only when its cutoff is negative. |
| Despeckle.StepListCounts | declooptor/utils.py:95-104 | Step (nw, j) lists each cell at distance nw in row j as often as its multiplicity, and nothing else. |
| Despeckle.ClipAll | declooptor/utils.py:91-104 | After the double loop over distances and rows, every cell has been despeckled and every speckle listed with its multiplicity. The counter equals the list's length. |
| Despeckle.AllListed | declooptor/utils.py:91-104 | Once every step has run, each coordinate is listed exactly as often as its multiplicity, and every listed coordinate is in range and despeckled to 0. |
| Despeckle.Despeckles | declooptor/utils.py:77-105 | The groups come from the unmodified input. The array ends as the despeckled input: every cell above the cutoff of its distance's group becomes 0, and every other cell is unchanged. The counter equals the list's length. Each cell is listed as often as it was examined and found above the cutoff, and every listed cell is in range and ends at 0. |
| Despeckle.DespeckledSymmetric | declooptor/utils.py:91-104 | A symmetric map stays symmetric, because both triangles use the same per-distance cutoff. |
| Despeckle.DespeckledBelowCutoff | declooptor/utils.py:96-104 | If the cutoff is non-negative, every cell ends at or below its cutoff, and is either 0 or its input value. |
| Despeckle.DespeckledNonNegative | declooptor/utils.py:96-104 | A non-negative map stays non-negative, because an entry is only ever replaced by 0. |
| Normalization.KeepRows | declooptor/utils.py:20-27 | Row i is kept exactly when its sum exceeds the threshold. |
| Normalization.NormalizeColumns | declooptor/utils.py:30-33 | Each column is divided by its sum over kept rows, with 0/0 replaced by 0. Entries of rows that are not kept are set to 0. |
| Normalization.NormalizeRows | declooptor/utils.py:35-38 | Each row is divided by its sum over kept columns, with 0/0 replaced by 0. Entries of columns that are not kept are set to 0. |
| Normalization.Iterate | declooptor/utils.py:29-38 | Running the rounds in place leaves the array equal to that many column-then-row passes, with the keep set fixed. |
| Normalization.ScnFunc | declooptor/utils.py:15-39 | The threshold defaults to 0, as in the source. The keep set is computed once from the input's row sums, and the result is ten rounds with that fixed set. |
| Normalization.KeptSumRescaled | declooptor/utils.py:31-36 | Dividing the kept entries by s ≠ 0 divides their kept sum by s. |
| Normalization.RowPassNormalizes | declooptor/utils.py:35-38 | After a row pass, the kept entries of each row sum to 1, or the row is entirely 0. |
| Normalization.KeptSumZero | declooptor/utils.py:31-36 | If the kept entries of a non-negative vector sum to 0, each of them is 0. |
| Normalization.PassesDivideZeroByZero | declooptor/utils.py:30-38 | On a non-negative map, a zero column sum over kept rows meets only zero kept entries, and so does a zero row sum over kept columns after the column pass. So every NaN the clean-up resets is a 0/0, and no infinity arises. |
| Normalization.ScnDividesZeroByZero | declooptor/utils.py:15-39 | In every round of scn_func on a non-negative map, both passes divide by zero only where the numerator is 0. |
| Normalization.BalanceNonNegative | declooptor/utils.py:29-38 | Any number of rounds keeps a non-negative map non-negative. |
| Normalization.BalanceProperties | declooptor/utils.py:29-38 | After at least one round, every entry of a row or column that is not kept is 0. Each row's kept entries sum to 1, or the row is entirely 0. |
| Normalization.ScnResult | declooptor/utils.py:15-39 | The result of scn_func on a non-negative map is non-negative, is 0 on every row and column that is not kept, and each of its rows has kept sum 1 or is all 0. |
| Labelling.ComponentOf | declooptor/utils.py:141 | The result is the 4-connected component of the pixel: the least set of mask pixels that holds it and is closed under stepping to an adjacent mask pixel. |
| Labelling.ComponentsMeet | declooptor/utils.py:141 | Two components that share a pixel are equal, so components partition the mask. |
| Labelling.ScanRow | declooptor/utils.py:141 | Scanning one row extends the labelling of everything before the row to everything up to its end. Each uncovered set pixel starts a new component, and that pixel is the component's first in raster order. |
| Labelling.Label | declooptor/utils.py:141 | The result is a labelling of the mask. Each label is the component of its seed, and the seed is that component's first pixel in raster order. Seeds strictly increase in raster order, so labels are numbered as scipy numbers them. Every mask pixel is labelled. |
| Labelling.LabellingUnique | declooptor/utils.py:141 | Any two labellings of the same mask are equal, both components and numbering. |
| Picker.BoundingBox | declooptor/utils.py:133-136 | I and J are the largest row and the largest column holding a pixel above the threshold. |
| Picker.BoxMaskHoldsCandidates | declooptor/utils.py:137-140 | The (I+1)×(J+1) candidate map marks exactly the pixels above the threshold. |
| Picker.FirstMax | declooptor/utils.py:154-157 | The result is a pixel of the component of maximal probability, and no earlier pixel in raster order has the same probability. |
| Picker.FirstMaxUnique | declooptor/utils.py:154-155 | This first maximum is unique. |
| Picker.DroppedMeansSingle | declooptor/utils.py:146-153 | For a component of the labelling, the two removal tests together hold exactly when it has fewer than two pixels. |
| Picker.SelectPeaks | declooptor/utils.py:144-158 | Filtering the components and the recorded maxima with the same removal flags keeps them paired in order. |
| Picker.CollectPeaks | declooptor/utils.py:142-158 | The coordinates are the first maxima of the components that are not removed, in label order. |
| Picker.Pick | declooptor/utils.py:108-161 | The threshold defaults to 0.8, as in the source. The result is an error if some probability is above 1; otherwise it is an error if some probability is below 0. It is "NA" exactly when the probabilities are valid and none is above the threshold. Otherwise the result is the list of first maxima of the kept components of the labelling of the above-threshold pixels. |
| Detrend.TrendMatrix | declooptor/utils.py:180-183 | Cell (i, j) of the distance-law matrix is y[\|j - i\|]: the array is the symmetric Toeplitz matrix of y, whose own distance law is y. |
| Detrend.ToeplitzLaw | declooptor/utils.py:180-183 | The distance-law matrix is symmetric, and its own distance law is y. |
| Detrend.Divide | declooptor/utils.py:184-186 | A detrended cell is never negative and never NaN. It is infinite exactly when a positive count meets a zero trend. |
| Detrend.DetrendedIsQuotient | declooptor/utils.py:169-186 | On a non-negative input and a positive smoothed trend, every cell outside the poor bins is exactly the processed map over the trend at its distance. So the NaN and sign clean-up only fires where the trend is 0 or negative. |
| Detrend.PoorBinsAreNotKept | declooptor/utils.py:169-170 | On a symmetric map, the poor bins are exactly the bins that normalisation with the same threshold does not keep. |
| Detrend.RefillPoorBins | declooptor/utils.py:188-189 | Every row and every column of a poor bin becomes 1, and all other cells are unchanged. |
| Detrend.DivideByTrend | declooptor/utils.py:177-189 | Each cell is 1 in a poor row or column, and otherwise the cleaned quotient of the map over the trend at its distance. |
| Detrend.Detrend | declooptor/utils.py:164-190 | Poor bins come from the input. The input array ends as the despeckled (th2 = 10) normalisation of itself. Each result cell is 1 in a poor row or column, and otherwise the cleaned quotient over the smoothed law at its distance. |

## Left out

- **Smoothing.** The Savitzky-Golay smoothing of `detrend` (line 175) is the parameter `smooth`, assumed to keep the length. Its failure on maps with fewer than 17 bins is not modelled.
- **Cutoff statistics.** The median and standard deviation behind the speckle cutoff (lines 96 and 101) are parameters of `Despeckle.Stats`. The threshold of `detrend` (median − 2·std of column sums, lines 166-168) is a parameter. It is returned unchanged, so the model does not return it.
- **scipy labelling.** `measurements.label` is not part of this model. It is replaced by `Labelling.Label`, whose list of component sets stands for the labelled image: a pixel has label ff + 1 exactly when it is in component ff.
- **corrcoef2d.** It is not modelled: it is square roots and divisions whose substance is NaN and infinity propagation. Only its mean kernel is covered, by `CrossCorrelation.MeanKernelKeepsConstant`.
- **Floating point.** Arithmetic is exact, with no rounding and no summation order. NaN exists only as the `None` border of `xcorr2`, as the 0/0 case of `scn_func` (mapped to 0 as the source does), and as the NaN and sign clean-up of `detrend`. NaN probabilities in `picker` and NaN entries in input maps are not modelled. The NaN-to-0 step on the distance law (line 174) changes nothing for exact reals, because no diagonal is empty.
- CrossCorrelation.Xcorr2: requires a kernel of at least one row and one column. The behaviour of numpy slicing with an empty kernel is not modelled.
- CrossCorrelation.Accumulate: the `out +=` updates of a numpy array are modelled as reassignments of a sequence value. Aliasing between the output and the signal is not captured.
- DistanceLaw.Law: the model covers square maps only, the only shape the callers use. The diagonals of a non-square matrix are not modelled.
- Normalization.ScnFunc: requires a non-negative map. On such a map, a zero kept sum means every summand is 0, so x/0 only ever arises as 0/0 (`Normalization.ScnDividesZeroByZero`). A non-zero x over a zero sum (±inf in numpy) is not modelled.
- Normalization.ScnFunc: requires a square map, as its only caller passes one. The source reads the row count only, and a non-square array is not modelled.
- Normalization.NormalizeColumns: requires a square array with one keep flag per row, as inside `scn_func`.
- Normalization.NormalizeRows: requires a square array with one keep flag per column, as inside `scn_func`.
- Detrend.Detrend: requires a square contact map. The source divides by an n×n trend matrix, so any other shape fails there.
- Despeckle.Despeckles: requires a square map, as every caller passes one.
- Picker.CollectPeaks: the `ijs` and `remove_p` arrays that the source allocates and fills slot by slot are built as sequences by appending one entry per label. Update in place of those two arrays is not modelled.
- Picker.Pick: the `"NA"` string and the integer (k, 2) coordinate array are the `NotAvailable` and `Peaks` cases of a datatype.
- **Files outside `declooptor/utils.py`.** Command-line handling, file I/O and plotting are not part of this model.
