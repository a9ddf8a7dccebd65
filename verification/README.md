# mriqc volume plots: mosaic layout and masked-value selection

This project models the logic inside mriqc's `volumes.py` that sits between loading a volume and drawing it:

- **Grid layout** (`GridLayout`, `layout.dfy`): `_calc_rows_columns(ratio, n_images)`. It searches row counts 1, 2, ..., 100. For each row count it tries `floor(ratio * rows)` columns first and `ceil(ratio * rows)` second. It stops at the first candidate whose cell count is strictly greater than the slice count. If it reaches the cap, it returns row count 101 with the ceiling candidate of row 100. It is written two ways and proved equal. `Search`/`Layout` is a recursive specification, and `CalcRowsColumns` mirrors the `for` loop statement by statement.
- **Slice placement** (`Mosaic`, `mosaic.dfy`): how `plot_mosaic` derives the ratio from the figure size, calls the layout, and gives slice `image` subplot `image + 1` of the grid. Subplots are numbered row-major from 1.
- **Masked selection** (`MaskedValues`, `masked_values.dfy`): `_get_values_inside_a_mask` keeps the voxel values that are not NaN and whose mask value is `> 0`, in flattened order.
- **Median distribution** (`MedianDistribution`, `median_distribution.dfy`): `get_median_distribution` gives one median per `zip`ped (volume, mask) pair, in pair order. It is written as a recursive function and as a loop, proved equal.

Modelling choices:

- Ratios are exact `real`s, so Python's float rounding in `figsize[0]/figsize[1]` and `ratio * rows` is not modelled.
- Volumes and masks are given already loaded, flattened in C order, as `seq<Voxel>`, where `Voxel = NaN | Num(real)`. A mask voxel that is NaN is not in the mask, because `NaN > 0` is false.
- The median is a parameter `median: seq<real> -> Voxel`. For numpy's median the result can be NaN, for example on an empty selection.
- The layout search validates nothing. A non-positive ratio with a non-negative slice count runs the loop to its cap. A positive ratio with a slice count of zero or below stops at row 1, because `ceil(ratio) >= 1`. See `PositiveRatioNoSlicesStopsAtOne`.
- The plotting backend accepts `add_subplot(rows, columns, index)` only when both dimensions are positive and `1 <= index <= rows * columns`. This rule comes from the backend's documented contract and is assumed here. The backend's source is not part of this model. Its refusal is the model's `InvalidSubplot` error.

Behaviour of the code that is easy to misread:

- For an A4 landscape page (ratio 11.7/8.3) and 30 slices, the code gives `(5, 7)`: row 4's candidates give 20 and 24 cells, and row 5's floor candidate is 7, with 35 > 30. See `A4LandscapeThirtySlices`.
- For one slice the code never returns `(1, 1)`, because `1 * 1 > 1` is false. A ratio strictly between 1 and 2 gives `(1, 2)`. See `SingleSliceNeverOneByOne` and `SingleSliceNarrowRatio`.
- Coverage is not guaranteed for every positive ratio and slice count. A ratio of 0.01 with 200 slices exhausts the cap and gives 101 cells. `plot_mosaic` then fails at subplot 102. See `TinyRatioLeavesSlicesUncovered` and `TallFigureRefusesSlices`. An exhausted search can still be enough: 100 slices fit the 101 cells. See `ExhaustedGridStillPlaces`.
- No validation error is raised for a non-positive ratio or slice count. See `NonPositiveRatioExhausts`.

## Model

| member | source | states |
|---|---|---|
| GridLayout.Floor | mriqc/volumes.py:21 | `math.floor`: the result is the integer `f` with `f <= x < f + 1` |
| GridLayout.Ceil | mriqc/volumes.py:26 | `math.ceil`: the result is the integer `c` with `c - 1 < x <= c` |
| GridLayout.Search | mriqc/volumes.py:19-31 | the loop from a given row count with a given number of iterations left returns a row count in range; no earlier row count stops the search; a result within range is a stopping row with the floor-first column choice; a result at the cap pairs rows one past the last tried row with that row's ceiling |
| GridLayout.Layout | mriqc/volumes.py:18-31 | rows is in 1..101; every smaller row count fails both candidates (minimality); a result within 100 rows covers strictly (`rows*columns > n`) with the floor column when the floor suffices; at the cap columns is `ceil(ratio*100)` |
| GridLayout.CalcRowsColumns | mriqc/volumes.py:18-31 | the loop as written, with its two `break`s and 100-iteration cap, returns exactly `Layout(ratio, n)`, so it has the same bounds, minimality and strict coverage |
| GridLayout.LayoutIsFirstStop | mriqc/volumes.py:20-30 | the layout is determined by the first row count that stops the search, together with the column count chosen at that row |
| GridLayout.ExhaustedIff | mriqc/volumes.py:20-31 | the result has 101 rows if and only if no row count in 1..100 stops the search |
| GridLayout.A4LandscapeThirtySlices | mriqc/volumes.py:18-31 | ratio 11.7/8.3 with 30 slices gives 5 rows and 7 columns |
| GridLayout.SingleSliceNarrowRatio | mriqc/volumes.py:21-28 | the strict test makes one slice with 1 < ratio < 2 get `(1, 2)` |
| GridLayout.SingleSliceNeverOneByOne | mriqc/volumes.py:21-28 | one slice is never given a 1-by-1 grid |
| GridLayout.NoSlicesWideRatio | mriqc/volumes.py:21-24 | zero slices with ratio >= 1 gives `(1, floor(ratio))` |
| GridLayout.PositiveRatioNoSlicesStopsAtOne | mriqc/volumes.py:20-29 | a positive ratio with a slice count of zero or below stops at row 1 with the floor-first column choice, and never a negative column count |
| GridLayout.NonPositiveRatioExhausts | mriqc/volumes.py:20-31 | a ratio <= 0 with a non-negative slice count runs all 100 iterations and returns `(101, ceil(ratio*100))` |
| GridLayout.CoversWhenLastRowFits | mriqc/volumes.py:20-31 | if row 100's ceiling candidate covers the slices, the search stops within the cap and its result covers them |
| GridLayout.CoveringLayoutHasColumns | mriqc/volumes.py:21-29 | a result reached by a `break` for a non-negative slice count has at least one column |
| GridLayout.PositiveRatioFewSlicesCovered | mriqc/volumes.py:20-31 | a positive ratio with fewer than 100 slices always yields a covering grid within the cap |
| GridLayout.TinyRatioExhausts | mriqc/volumes.py:20-31 | ratio 0.01 with 100 slices or more never stops the search and returns `(101, 1)` |
| GridLayout.TinyRatioLeavesSlicesUncovered | mriqc/volumes.py:20-31 | ratio 0.01 with 200 slices exhausts the cap and returns `(101, 1)`, which has fewer cells than slices |
| Mosaic.AspectRatio | mriqc/volumes.py:41 | the ratio is width over height, and a zero height is the division error |
| Mosaic.SubplotCell | mriqc/volumes.py:52 | a valid subplot index maps to an in-bounds cell whose row-major offset is `index - 1` |
| Mosaic.CellIndexRoundTrip | mriqc/volumes.py:52 | every in-bounds cell has a valid subplot index that maps back to the same cell |
| Mosaic.PlaceSlices | mriqc/volumes.py:51-52 | the slice loop succeeds if and only if every index 1..n is a valid subplot; then slice `image` is in subplot `image+1`'s cell; otherwise the error names the first refused index |
| Mosaic.PlotMosaic | mriqc/volumes.py:40-52 | a zero figure height fails; otherwise the call succeeds if and only if every subplot index `1..n` is valid for the layout of width/height and the slice count; on success slice `image` gets subplot `image+1`'s cell; on failure the error names the first refused index |
| Mosaic.SlicesOccupyDistinctCells | mriqc/volumes.py:51-52 | slice `image` occupies the cell with row-major index `image+1`, and distinct slices occupy distinct cells |
| Mosaic.MosaicFitsWhenSearchStops | mriqc/volumes.py:40-52 | whenever the search stops by a `break`, every subplot index `image+1` is valid and the mosaic is placed |
| Mosaic.DefaultFigureHoldsSlices | mriqc/volumes.py:33-52 | with the default 11.7 by 8.3 figure, every slice count below 14100 is placed |
| Mosaic.ExhaustedGridStillPlaces | mriqc/volumes.py:40-52 | a 1 by 100 figure with 100 slices exhausts the search, gets a 101-by-1 grid, and still places every slice |
| Mosaic.TallFigureRefusesSlices | mriqc/volumes.py:40-52 | a 1 by 100 figure with 200 slices fails at subplot 102, because the exhausted grid has 101 cells |
| MaskedValues.KeptPositions | mriqc/volumes.py:81-84 | the kept positions are strictly increasing and in bounds; each is non-NaN and has a positive mask value; every such position is among them |
| MaskedValues.Select | mriqc/volumes.py:84 | the result has one value per kept position, in order, each being the data value at that position |
| MaskedValues.ValuesInsideMask | mriqc/volumes.py:78-85 | the selection fails if and only if the flattened sizes differ; on success it returns one value per kept position, in order, each the data value there, and every returned value is a number at a position the mask keeps |
| MaskedValues.SelectCount | mriqc/volumes.py:81-84 | the number of returned values equals the number of positions that are non-NaN and in the mask |
| MaskedValues.FullMaskKeepsAll | mriqc/volumes.py:81-84 | a NaN-free volume under an everywhere-positive mask returns all its values in order |
| MaskedValues.EmptyMaskKeepsNothing | mriqc/volumes.py:81-84 | a mask with no positive value selects nothing |
| MedianDistribution.Zip | mriqc/volumes.py:89 | `zip` gives `min(|a|, |b|)` pairs, and pair `i` is `(a[i], b[i])` |
| MedianDistribution.Medians | mriqc/volumes.py:88-92 | the loop over pairs succeeds if and only if every pair's flattened sizes agree; then entry `i` is the median of pair `i`'s selection; otherwise the error names the first pair whose sizes differ |
| MedianDistribution.GetMedianDistribution | mriqc/volumes.py:87-92 | succeeds if and only if the zipped pairs all agree in flattened size; it then returns `min(|main_files|, |mask_files|)` medians in input order, each of its own pair's selection; otherwise it reports the first pair whose sizes differ |
| MedianDistribution.MedianDistributionLoop | mriqc/volumes.py:87-92 | the appending `for` loop returns exactly `GetMedianDistribution` |
| MedianDistribution.ZipTruncates | mriqc/volumes.py:89 | files beyond the shorter list never affect the result |

## Left out

- Loading volumes and masks with `nibabel` (lines 34-38, 44, 79-82) is file I/O. Volumes are given as in-memory flattened sequences.
- Numpy broadcasting between a volume and a mask of different but compatible shapes is left out. Any difference in flattened size is treated as a shape mismatch.
- MaskedValues.ValuesInsideMask: compares flattened sizes, not shapes, so a volume and a mask of equal size but different shape (say (2,3,4) against (4,3,2), or (X,Y,Z) against (X,Y,Z,1)) succeed in the model although numpy raises; volumes carry no shape here. The same holds for `MedianDistribution.Medians` and `MedianDistribution.GetMedianDistribution`.
- Rendering is left out (lines 47-50, 53-68, 73): the figure, canvas, `imshow`, rasterisation, axis hiding, margins, title band and `suptitle`. These are side effects in the plotting libraries.
- Percentile intensity windowing (lines 56-57) and `np.median` (lines 90, 108) are floating-point numerics. The median is a function parameter.
- The overlay colormap's alpha ramp (lines 60-63) uses private library internals.
- Deriving a default title from the file name and modification time (lines 70-72) depends on the filesystem and the clock.
- `plot_distrbution_of_values` (lines 95-113) draws a histogram, a density and a median marker. It only composes the selection with rendering. `plot_vline` is not part of this model, and neither is the `"%g"` label format.
- Python float rounding is left out, because ratios are exact reals. With IEEE floats, `ratio * rows` can land on the other side of an integer from the exact value.
