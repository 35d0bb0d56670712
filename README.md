# Motion-corrupted MRI utilities in Dafny

This project models the index-arithmetic core of an MRI motion-simulation toolbox and proves properties of it. The toolbox is written in Python with NumPy and SciPy.

- **`MotionComp`** (`motioncomp.dfy`) models the sparse bilinear motion operator.
  - `get_sparse_motion_matrix` turns a per-pixel displacement field into an (Nx·Ny)×(Nx·Ny) interpolation matrix. It is a method with the source's two nested loops, proved equal to the specification function `MotionMatrix`.
    - Rows are sequences of `(column, weight)` entries.
    - `Put` models the sparse matrix's item assignment: overwrite the column's entry, or append a new one.
  - `apply_sparse_motion` is a function. It flattens the image column-major, multiplies the real and imaginary parts by the matrix (or by its transpose), and divides by the matrix applied to a vector of ones.
- **`CartesianSampling`** (`cartesiansampling.dfy`) models `generate_mask`.
  - The line mask is an `array<int>`, built by the two slice assignments `mask[::R] = 1` and the centre block, written as loops.
  - It is then repeated over the frequency-encoding lines.
  - The random draw is an input.
- **`Padding`** (`padding.dfy`) models `zpad`: a loop computes the per-axis pad pairs, then constant padding is applied.
- **`MotionSim`** (`motionsim.dfy`) models two things:
  - `crop`: a loop builds the per-axis index lists, then the array is indexed with `np.ix_`.
  - The line-splicing logic of `simulate_motion`. The MRI forward operator and the affine image transform are function parameters.
- **`Common`** (`common.dfy`) holds exact complex numbers, the Python exception classes as a `Result` type, rectangular grids, and floor/ceil halving.

## Conventions

Real arithmetic is exact (`real`). Arrays are two-dimensional, as `seq<seq<T>>` indexed `x[i][j]`.

The NumPy behaviour the model follows is that of a NumPy release that still has `np.int`, which `crop` uses. Where it matters:

- A start or stop of `np.arange` is an exact integer.
- A two-element target is compared with the shape element by element.
- A one-element target is broadcast against both axes of the shape.
- In `zpad`/`crop`, a target with more axes than the array reaches `np.ones(1, k)`. That call passes an integer as the dtype, so it raises TypeError.
- An empty target leaves `np.pad` an empty `pad_width`. Its type is floating point, not integral, so `zpad` raises TypeError. `crop` returns `x[()]`, which is x.
- `np.ix_` indexing accepts indices in `[-n, n)`, counting negative ones from the end. NumPy checks the indices only when the selected block is non-empty; then any other index raises IndexError. A block with no rows or no columns is returned whatever its indices. A single index list (`x[rows]`) is checked whenever it is non-empty.
- In `crop`, an odd target raises TypeError, because line 156 passes `dtype=` to `list()` rather than to `np.arange`.

## Model

| member | source | states |
|---|---|---|
| MotionComp.BoundIndex | utils/motioncomp.py:9-15 | the result lies in [0, n-1] for n >= 1; an in-range x is returned unchanged; a negative x gives 0 and one above n-1 gives n-1 |
| MotionComp.BoundWeight | utils/motioncomp.py:17-21 | the weight is kept exactly when (x, y) lies in the field of view and is 0 otherwise |
| MotionComp.InFov | utils/motioncomp.py:19 | definition: the field-of-view test of bound_weight, 0 <= x <= nx-1 and 0 <= y <= ny-1 |
| MotionComp.LinIndex | utils/motioncomp.py:23-25 | definition: the linear index x + nx*y |
| MotionComp.LinIndexInjective | utils/motioncomp.py:23-25 | two pixels with x in [0, nx) and the same linear index x + nx*y are the same pixel |
| MotionComp.LinIndexToPixel | utils/motioncomp.py:23-25 | lin_index maps [0, nx) x [0, ny) into [0, nx*ny), and x = i mod nx, y = i div nx recover the pixel |
| MotionComp.PixelToLinIndex | utils/motioncomp.py:23-25 | every index of [0, nx*ny) is the linear index of a pixel of the grid, so lin_index is onto |
| MotionComp.Flatten | utils/motioncomp.py:91 | the column-major (order='F') reshape of an nx-by-ny grid, built line by line (y = 0 .. ny-1, each line x = 0 .. nx-1); it has nx*ny elements |
| MotionComp.Unflatten | utils/motioncomp.py:108 | the column-major reshape of an nx*ny vector back to an nx-by-ny grid; the result is an nx-by-ny grid |
| MotionComp.FlattenAt | utils/motioncomp.py:91 | element x + nx*y of the column-major reshape is g[x][y] |
| MotionComp.UnflattenFlatten | utils/motioncomp.py:108 | the column-major reshape back to (nx, ny) undoes the flattening of line 91 |
| MotionComp.FlattenUnflatten | utils/motioncomp.py:108 | flattening after the reshape to (nx, ny) gives the vector back |
| MotionComp.Weight | utils/motioncomp.py:70 | definition: the weight a row stores at column c, 0 where none is stored, as an item of the sparse matrix reads back |
| MotionComp.Put | utils/motioncomp.py:70 | after storing w at column c, the row holds w at c and its old weight at every other column; a column not yet stored is appended |
| MotionComp.PutDistinct | utils/motioncomp.py:69-76 | storing into a row with distinct columns keeps its columns distinct, and stores only the new entry or entries the row already had |
| MotionComp.PutNonZero | utils/motioncomp.py:69-76 | definition: one guarded store `if w != 0: sparse_mot[li, c] = w`, which leaves the row alone for a zero weight |
| MotionComp.CornerX | utils/motioncomp.py:48 | definition: x1 = floor(x + ux), the lower corner on the x axis; x2 is x1 + 1 (CornerFacts) |
| MotionComp.CornerY | utils/motioncomp.py:46 | definition: y1 = floor(y + uy), the lower corner on the y axis; y2 is y1 + 1 (CornerFacts) |
| MotionComp.FracX | utils/motioncomp.py:51 | definition: wx = ux - floor(ux) |
| MotionComp.FracY | utils/motioncomp.py:52 | definition: wy = uy - floor(uy) |
| MotionComp.W11 | utils/motioncomp.py:53 | definition: the weight (1 - wx)(1 - wy) of corner (x1, y1) before bound_weight |
| MotionComp.W12 | utils/motioncomp.py:54 | definition: the weight (1 - wx) wy of corner (x1, y2) before bound_weight |
| MotionComp.W21 | utils/motioncomp.py:55 | definition: the weight wx (1 - wy) of corner (x2, y1) before bound_weight |
| MotionComp.W22 | utils/motioncomp.py:56 | definition: the weight wx wy of corner (x2, y2) before bound_weight |
| MotionComp.PixelWrites | utils/motioncomp.py:44-67 | definition: the four candidate stores of pixel (x, y): the clamped corner columns x1y1, x1y2, x2y1, x2y2 with the bounded weights w11, w12, w21, w22, in the order of lines 69-76 |
| MotionComp.ApplyWrites | utils/motioncomp.py:69-76 | definition: the four guarded stores, performed in order on a row with nothing stored |
| MotionComp.PixelRow | utils/motioncomp.py:43-76 | definition: the row pixel (x, y) writes, its candidate stores applied |
| MotionComp.CornerFacts | utils/motioncomp.py:46-52 | x2 = x1 + 1 and y2 = y1 + 1, and the fractional parts wx, wy lie in [0, 1) |
| MotionComp.BilinearWeights | utils/motioncomp.py:51-56 | the four bilinear weights lie in [0, 1] and sum to exactly 1 |
| MotionComp.PixelWritesCorners | utils/motioncomp.py:53-67 | each candidate weight is its corner's bounded bilinear weight, and a nonzero one sits at the unclamped corner's own linear index, so clamping never redirects a written weight |
| MotionComp.PixelWritesCollisionFree | utils/motioncomp.py:44-67 | no two nonzero candidate writes of a pixel share a column |
| MotionComp.ApplyCollisionFree | utils/motioncomp.py:69-76 | when no nonzero writes collide, the four conditional stores leave exactly the nonzero weights, in write order |
| MotionComp.PixelRowIsNonZeroWrites | utils/motioncomp.py:44-76 | a pixel's row holds exactly its nonzero bounded corner weights |
| MotionComp.NonZeroWritesSum | utils/motioncomp.py:69-76 | the stored row has at most four entries, each one of the nonzero candidates, summing to the sum of the four candidate weights |
| MotionComp.ApplyWritesDistinct | utils/motioncomp.py:69-76 | the stores never leave two entries for one column |
| MotionComp.GoodWritesRow | utils/motioncomp.py:69-76 | candidates that are in range, in (0, 1] and sum to at most 1 give a row with at most four distinct in-range columns and a sum equal to the candidates' sum |
| MotionComp.BoundWeightBelow | utils/motioncomp.py:17-21 | bounding a weight in [0, 1] gives a value between 0 and that weight |
| MotionComp.PixelWritesGood | utils/motioncomp.py:53-67 | every nonzero candidate is in (0, 1] at an in-range column; the candidates sum to at most 1, and to exactly 1 when all four corners are in view |
| MotionComp.PixelRowProperties | utils/motioncomp.py:44-76 | a row has at most four entries at distinct in-range columns with weights in (0, 1]; its sum is at most 1, and exactly 1 when all four corners are in view |
| MotionComp.PixelRows | utils/motioncomp.py:41-76 | the rows of all pixels, as an nx-by-ny grid |
| MotionComp.MotionMatrix | utils/motioncomp.py:34-78 | specification of get_sparse_motion_matrix: the (nx*ny)-row matrix whose row x + nx*y is PixelRow of pixel (x, y), the pixel rows flattened column-major |
| MotionComp.MotionMatrixRow | utils/motioncomp.py:41-76 | row x + nx*y of the matrix is the row pixel (x, y) writes |
| MotionComp.BuildMotionMatrix | utils/motioncomp.py:34-78 | the nested loops, writing rows in place, return exactly MotionMatrix(field) |
| MotionComp.WriteLine | utils/motioncomp.py:42-76 | the inner loop completes the rows of line y and leaves the later rows empty |
| MotionComp.WritePixel | utils/motioncomp.py:43-76 | the loop body replaces the empty row x + nx*y with the pixel's row and changes nothing else |
| MotionComp.MotionMatrixProperties | utils/motioncomp.py:34-78 | all stored columns are in range, all weights are non-negative, and every row has at most four distinct columns and a sum of at most 1 |
| MotionComp.PixelRowOutOfView | utils/motioncomp.py:53-56 | a pixel displaced more than one pixel outside the field of view, like the (-10, -10) pixel of lines 126-127, writes an empty row |
| MotionComp.StillPixelRow | utils/motioncomp.py:44-76 | an undisplaced pixel writes the single entry 1 at its own column |
| MotionComp.ZeroFieldIdentity | utils/motioncomp.py:34-78 | a zero displacement field yields the identity matrix |
| MotionComp.RowDot | utils/motioncomp.py:96 | definition: one entry of `spr_mat * v`, the sum of weight times v[col] over every stored entry of the row, a column stored twice counting twice |
| MotionComp.RowSum | utils/motioncomp.py:99-100 | definition: the sum of a row's stored weights |
| MotionComp.MatVec | utils/motioncomp.py:96 | the product with a vector has one entry per matrix row |
| MotionComp.Coeff | utils/motioncomp.py:94-96 | definition: the coefficient of column c in a row, every stored entry of that column summed, as the product and the transpose both use it |
| MotionComp.Transpose | utils/motioncomp.py:94 | the transpose is square of the same size with in-range columns, and each of its rows stores every column once |
| MotionComp.CoeffIsWeight | utils/motioncomp.py:94-96 | in a row that stores each column once, the summed coefficient of a column is its stored weight |
| MotionComp.TransposeWeight | utils/motioncomp.py:94 | entry (j, i) of the transpose is the coefficient (i, j) of the matrix, all stored entries of that column summed, which is the stored entry when row i stores each column once |
| MotionComp.TransposeNonNegative | utils/motioncomp.py:94 | the transpose of a non-negative matrix is non-negative |
| MotionComp.Operator | utils/motioncomp.py:93-94 | the applied operator, the matrix or its transpose when adj_flag == 1, is square of the same size with in-range columns |
| MotionComp.RowDotConstant | utils/motioncomp.py:99-100 | a row applied to a constant vector gives that constant times the row sum |
| MotionComp.RowDotNoCoverage | utils/motioncomp.py:96-100 | a non-negative row with sum 0 gives 0 for every vector |
| MotionComp.DivNanToNum | utils/motioncomp.py:101-106 | for a nonzero divisor the result times the divisor is the dividend; 0/0 gives 0; a/0 gives the largest float of a's sign |
| MotionComp.Normalise | utils/motioncomp.py:102-106 | the real and imaginary parts of each pixel divided by its coverage with divide-by-zero ignored and nan_to_num applied; one entry per pixel |
| MotionComp.ApplyMotion | utils/motioncomp.py:87-109 | the result exists exactly when the image is non-empty and the matrix is (nx*ny)-square, and is then an nx-by-ny image; otherwise ValueError is raised |
| MotionComp.CoverageIsRowSum | utils/motioncomp.py:99-100 | the normalisation entry of a pixel is the sum of its operator row |
| MotionComp.ApplyMotionPixel | utils/motioncomp.py:87-109 | pixel (x, y) of the result is the operator row x + nx*y applied to the real and imaginary parts, each divided by the row sum |
| MotionComp.ApplyMotionNoCoverage | utils/motioncomp.py:101-106 | with a non-negative matrix, a pixel whose coverage is 0 comes out exactly 0, never nan |
| MotionComp.ApplyMotionConstant | utils/motioncomp.py:96-106 | a constant image keeps its value at every covered pixel, forward or transposed |
| MotionComp.ApplyIdentity | utils/motioncomp.py:87-109 | the identity matrix, applied forward or transposed, returns every non-empty image; an empty image raises ValueError |
| MotionComp.ApplyZeroField | utils/motioncomp.py:34-109 | the matrix of a zero field leaves every non-empty image unchanged; an empty image raises ValueError |
| MotionComp.PixelWritesAt | utils/motioncomp.py:44-67 | a pixel's candidate writes, written out from its lower-left corner and fractional parts |
| MotionComp.DemoPixel00 | utils/motioncomp.py:120-121 | the pixel displaced by (0.8, 0) on the 2x3 grid writes 0.2 at column 0 and 0.8 at column 1 |
| MotionComp.DemoPixel10 | utils/motioncomp.py:123-124 | the pixel displaced by (0, 0.2) writes 0.8 at column 1 and 0.2 at column 3 |
| MotionComp.DemoPixel11 | utils/motioncomp.py:129-130 | the pixel displaced by (-0.5, 0.5) writes 0.25 at columns 2, 4, 3 and 5 |
| MotionComp.DemoPixel12 | utils/motioncomp.py:135-136 | the pixel displaced by (-0.5, -1.2) writes 0.1, 0.4, 0.1 and 0.4 at columns 0, 2, 1 and 3 |
| MotionComp.DemoFieldRows | utils/motioncomp.py:117-148 | all six rows of the matrix built from the example field, including the empty row of the pixel leaving the field of view |
| CartesianSampling.SliceBound | utils/cartesiansampling.py:11 | a slice bound is clamped into [0, n], and a negative bound counts from the end |
| CartesianSampling.OnStep | utils/cartesiansampling.py:14 | definition: line k is on `mask[::R]`: k is a multiple of R for R > 0, and nPE - 1 - k a multiple of -R for R < 0 |
| CartesianSampling.CentreLo | utils/cartesiansampling.py:11 | definition: the start nPE//2 - nRef//2 of the centre slice as Python clamps it |
| CartesianSampling.CentreHi | utils/cartesiansampling.py:11 | definition: the stop nPE//2 + nRef//2 of the centre slice as Python clamps it |
| CartesianSampling.InCentre | utils/cartesiansampling.py:15 | definition: line k lies in the centre slice, the same slice in both modes (lines 11 and 15) |
| CartesianSampling.IsDraw | utils/cartesiansampling.py:10 | definition: a draw of `np.random.choice([1, 0], nPE)`: nPE values, each 0 or 1, and none for a negative nPE |
| CartesianSampling.LineMask | utils/cartesiansampling.py:9-19 | a successful line mask needs a non-negative nPE and has nPE entries |
| CartesianSampling.Expand | utils/cartesiansampling.py:22-24 | the result has shape nFE x nPE x 1, and entry (i, j) is [line[j]] |
| CartesianSampling.MaskResult | utils/cartesiansampling.py:9-24 | specification of generate_mask: the line mask expanded to nFE x nPE x 1, or the line mask's exception, or ValueError for a negative nFE |
| CartesianSampling.GenerateMask | utils/cartesiansampling.py:3-24 | the in-place slice assignments on the array, then the expansion, return exactly MaskResult(R, nPE, nFE, nRef, mode, draw), negative sizes and every mode included |
| CartesianSampling.GenerateMaskDefault | utils/cartesiansampling.py:3 | with the defaults nRef = 20 and mode 'regular', the result is the regular-mode mask for every draw |
| CartesianSampling.RegularIgnoresDraw | utils/cartesiansampling.py:12-15 | regular mode gives the same result whatever the random draw |
| CartesianSampling.SetStride | utils/cartesiansampling.py:14 | mask[::R] = 1 sets exactly the lines on the stride, for positive and for negative R, and leaves the rest |
| CartesianSampling.SetCentre | utils/cartesiansampling.py:11 | the centre slice assignment sets exactly the lines in the clamped centre range and leaves the rest |
| CartesianSampling.UnknownModeRaises | utils/cartesiansampling.py:16-17 | a mode other than 'random' and 'regular' raises ValueError |
| CartesianSampling.MaskErrors | utils/cartesiansampling.py:9-22 | regular mode succeeds exactly when R != 0 and nPE, nFE >= 0; random mode exactly when R > 0 and nPE, nFE >= 0; random mode with R = 0 raises ZeroDivisionError, and otherwise a negative nPE or nFE raises ValueError |
| CartesianSampling.MaskShape | utils/cartesiansampling.py:22-24 | every frequency-encoding row of the result is the line mask |
| CartesianSampling.RegularLines | utils/cartesiansampling.py:13-15 | in regular mode a line is 1 exactly when it is on the stride or in the centre block, and 0 exactly otherwise |
| CartesianSampling.StrideLinesSampled | utils/cartesiansampling.py:14 | for R > 0, lines 0, R, 2R, ... are sampled |
| CartesianSampling.CentreSampled | utils/cartesiansampling.py:11-15 | in both modes, for 0 <= nRef <= nPE, lines nPE//2 - nRef//2 up to nPE//2 + nRef//2 are 1, whatever the draw |
| CartesianSampling.MaskBinary | utils/cartesiansampling.py:9-15 | every mask entry is 0 or 1 |
| CartesianSampling.StrideCount | utils/cartesiansampling.py:14 | \|R\| times the number of strided lines is at least nPE |
| CartesianSampling.RegularAcceleration | utils/cartesiansampling.py:14-19 | in regular mode \|R\| * sum(mask) >= nPE, so Reff = nPE / sum(mask) <= \|R\| |
| Common.Arange | utils/padding.py:25 | np.arange(start, stop) on integer bounds has max(0, stop - start) elements start, start + 1, ...; the crop windows of utils/motionsim.py:154 and :156 are built on it too |
| Common.FloorHalf | utils/padding.py:25 | floor(a / 2) r, the one integer with 2r <= a < 2r + 2 |
| Common.CeilHalf | utils/padding.py:25 | ceil(a / 2) r, the one integer with 2r - 2 < a <= 2r |
| Common.SameShape | utils/padding.py:17 | definition: the target equals the shape (nx, ny) element by element, or a one-element target equals both axes by broadcasting; crop makes the same test at utils/motionsim.py:148 |
| Padding.WindowStart | utils/padding.py:24-27 | definition: the start of the index window np.arange at line 25 (even target) or line 27 (odd target) |
| Padding.WindowStop | utils/padding.py:24-27 | definition: the stop of the index window np.arange at line 25 (even target) or line 27 (odd target) |
| Padding.AxisPad | utils/padding.py:24-32 | definition: the pad pair of one axis: (0, 0) when s == m; IndexError when the window is empty; otherwise the absolute values of the first index and of s - 1 minus the last index (the abs() behind the utils/padding.py:30 finding) |
| Padding.Widths | utils/padding.py:20-32 | the pad list of the first n axes, one pair per axis, or the first axis's error; a list has n pairs |
| Padding.PadWidths | utils/padding.py:20-32 | the loop yields the pad list, one pair per axis, or the first axis's error |
| Padding.PadGrid | utils/padding.py:35 | constant padding gives shape (b0 + nx + a0, b1 + ny + a1) |
| Padding.ZpadSpec | utils/padding.py:13-35 | specification of zpad: TypeError for more than two target axes, x for a target equal to its shape, otherwise ZpadApply of the pad list |
| Padding.ZpadApply | utils/padding.py:34-35 | definition: the pad list's error, TypeError for an empty list, otherwise constant padding with the one pair broadcast or the two pairs |
| Padding.PadGridContents | utils/padding.py:35 | constant padding keeps x at offset (b0, b1) and is zero everywhere else |
| Padding.Zpad | utils/padding.py:3-35 | the method, with the loop of PadWidths, returns exactly ZpadSpec(x, nx, ny, s, zero) |
| Padding.ZpadSameShape | utils/padding.py:17-18 | an array already of the target shape is returned unchanged |
| Padding.AxisPadUnchanged | utils/padding.py:29-32 | an axis at its target size gets the pair (0, 0) |
| Padding.AxisPadEven | utils/padding.py:24-30 | an even target s >= m >= 1 pads floor(s/2) - floor(m/2) before and s - m in total |
| Padding.AxisPadOdd | utils/padding.py:26-30 | an odd target's window starts at floor(s/2) - floor(m/2) - 1; a start >= 0 pads s - m in total; the start is negative exactly when s = m + 1 with m even |
| Padding.OddTargetOverpads | utils/padding.py:26-30 | for an even m >= 2 and target m + 1 the window starts at -1, and the pair is (1, 2) |
| Padding.OddTargetExample | utils/padding.py:3-35 | a 4x4 array padded to (5, 5) comes out 7x7 |
| Padding.OddTargetShifted | utils/padding.py:26-30 | the code pads 3 lines to 5 as (0, 2), where the centred padding is (1, 1) |
| Padding.ZpadBothAxes | utils/padding.py:20-35 | with a pad pair for both axes, zpad to a two-element target is constant padding with those pairs |
| Padding.ZpadAxisRaises | utils/padding.py:20-32 | an axis without a pad pair makes zpad raise that axis's error, first axis first |
| Padding.ZpadEvenShape | utils/padding.py:24-35 | even targets at least the array's size give exactly the target shape |
| Padding.ZpadBroadcast | utils/padding.py:13-35 | a one-element target is padded with the first axis's pair on both axes |
| Padding.ZpadErrors | utils/padding.py:13-35 | more than two target axes raise TypeError, so does an empty target, and growing an empty axis raises IndexError |
| Padding.CentredPad | utils/padding.py:24-25 | the centred pair pads floor(s/2) - floor(m/2) before and s - m in total |
| Padding.CentredPadAgrees | utils/padding.py:24-32 | on even targets, and on unchanged axes, the code's pair is the centred pair |
| Padding.ZpadCentred | utils/padding.py:3-35 | centred padding to s0 >= nx, s1 >= ny has exactly shape (s0, s1) |
| Padding.ZpadCentredPlaces | utils/padding.py:3-35 | centred padding holds x at offset (floor(s0/2) - floor(nx/2), floor(s1/2) - floor(ny/2)) and zero elsewhere |
| Padding.ZpadIsCentred | utils/padding.py:24-35 | on even targets at least the array's size, zpad is the centred padding |
| MotionSim.CropWindow | utils/motionsim.py:153-156 | definition: the index list np.arange(floor(m/2) + 1 + ceil(-s/2) - 1, floor(m/2) + ceil(s/2)) for an even target; TypeError for an odd one |
| MotionSim.Windows | utils/motionsim.py:152-156 | the index lists of the first n axes, or the first axis's error; a list has n entries |
| MotionSim.CropIndices | utils/motionsim.py:151-156 | the loop yields the index list of every axis, or the first axis's error |
| MotionSim.Wrap | utils/motionsim.py:158-159 | a valid index maps into [0, n), to itself or to itself plus n |
| MotionSim.Take | utils/motionsim.py:158-159 | a successful np.ix_ indexing has one row per row index and one column per column index; an empty block is never refused, a non-empty one exactly when an index is out of range |
| MotionSim.TakeRows | utils/motionsim.py:158-159 | `x[rows]` succeeds exactly when every row index is valid, otherwise IndexError, and then has one row per index and all ny columns |
| MotionSim.TakeWholeRows | utils/motionsim.py:158-159 | with at least one column, `x[rows]` equals np.ix_ indexing with every column |
| MotionSim.CropSpec | utils/motionsim.py:145-159 | specification of crop: TypeError for more than two target axes, x for a target equal to its shape, otherwise CropApply of the index lists |
| MotionSim.CropApply | utils/motionsim.py:158-159 | definition: the index lists' error; x for an empty target (`x[()]`); otherwise the np.ix_ indexing of both lists, or `x[rows]` for a one-element target |
| MotionSim.Crop | utils/motionsim.py:135-159 | the method, with the loop of CropIndices, returns exactly CropSpec(x, nx, ny, s) |
| MotionSim.CropSameShape | utils/motionsim.py:148-149 | an array already of the target shape is returned unchanged |
| MotionSim.CropWindowEven | utils/motionsim.py:153-154 | for an even s >= 0 the window is the s consecutive indices from floor(m/2) - floor(s/2) to floor(m/2) + ceil(s/2) - 1 |
| MotionSim.CropBothAxes | utils/motionsim.py:152-159 | a two-element target indexes with both axes' windows together |
| MotionSim.TakeBlock | utils/motionsim.py:158-159 | taking consecutive in-range rows and columns yields the block of x at their first indices |
| MotionSim.CropWindowsBlock | utils/motionsim.py:153-159 | the windows of even targets no larger than the array select the centred block |
| MotionSim.CropCentred | utils/motionsim.py:148-159 | cropping to even sizes no larger than the array yields element (i, j) = x[floor(nx/2) - floor(s0/2) + i][floor(ny/2) - floor(s1/2) + j] |
| MotionSim.CropOddRaises | utils/motionsim.py:155-156 | an odd target on any axis raises TypeError unless the shape already matches |
| MotionSim.CropGrowRaises | utils/motionsim.py:154-159 | an even target more than one above the first axis's size raises IndexError when the second target keeps a column (s[1] > 0) |
| MotionSim.CropToEmptyAxis | utils/motionsim.py:154-159 | an even target of at most 0 on either axis gives an empty block whatever the other axis's indices: s0 rows of no columns, or no rows |
| MotionSim.CropWindowEmpty | utils/motionsim.py:152-153 | the window of an even target s <= 0 is empty |
| MotionSim.CropToNoColumns | utils/motionsim.py:154-159 | an even s0 >= 0 with an even s1 <= 0 gives s0 rows of no columns, whatever the row indices |
| MotionSim.CropToNoRows | utils/motionsim.py:154-159 | an even s0 <= 0 gives no rows, whatever the second target's column indices |
| MotionSim.CropToEmptyColumns | utils/motionsim.py:154-159 | a 2x2 array cropped to (6, 0) gives an empty 6x0 array, although its row indices lie out of range |
| MotionSim.CropPastEdgeWraps | utils/motionsim.py:154-159 | on an odd axis, an even target one larger starts at index -1, so the last row is repeated in front |
| MotionSim.CropFirstAxis | utils/motionsim.py:145-159 | a one-element target crops the first axis with `x[rows]`, keeping every column |
| MotionSim.CropTooManyAxes | utils/motionsim.py:145-146 | a target of more than two axes raises TypeError |
| MotionSim.Head5 | utils/motionsim.py:21 | `p[:, :5]` of one row: its first min(5, length) parameters, in order |
| MotionSim.LineMoves | utils/motionsim.py:21 | definition: the sum of the first five parameters is nonzero |
| MotionSim.MotionMask | utils/motionsim.py:18-22 | the mask has k-space's shape (n0, n1, n2); definition: all ones for a fixed vector, for a course 1 exactly on the lines that move |
| MotionSim.AllZero | utils/motionsim.py:24 | definition: `np.all(row == 0)` |
| MotionSim.NonZeroRows | utils/motionsim.py:24 | the listed rows are exactly the course's rows that are not all zero |
| MotionSim.ConstantCourse | utils/motionsim.py:24 | definition: the course has exactly one distinct row that is not all zero |
| MotionSim.MotionRow | utils/motionsim.py:26 | definition: that one row, as np.squeeze of the one remaining unique row |
| MotionSim.Blend | utils/motionsim.py:28 | every entry is k (1 - mask) + km mask, and the result keeps the cube shape |
| MotionSim.PartialCourse | utils/motionsim.py:30-32 | k-space of shape (n0, n1, n2) whose lines before upTo come from the image moved with their own rows, all later lines zero |
| MotionSim.PartialCourseStep | utils/motionsim.py:32 | one loop iteration fills line ky from the k-space of the image moved with row ky |
| MotionSim.TimeCourse | utils/motionsim.py:29-33 | definition: IndexError when the image has more lines than k-space or the course; otherwise each of the image's ny lines filled from its own row and the later k-space lines zero |
| MotionSim.SimulateSpec | utils/motionsim.py:6-33 | specification of simulate_motion: the mask of lines 18-22 paired with the blend for a fixed vector or a constant course (lines 24-28), otherwise with the time course of lines 29-33 or its error |
| MotionSim.SimulateMotion | utils/motionsim.py:6-33 | the method, with the loop of lines 31-32, returns exactly SimulateSpec(img, p, fwd, transform, n0, n1, n2, ny) |
| MotionSim.FixedMotion | utils/motionsim.py:18-28 | one fixed parameter vector gives the moved image's k-space and an all-ones mask |
| MotionSim.CourseMask | utils/motionsim.py:20-22 | for a course, line j of the mask is 1 exactly when its first five parameters sum to a nonzero value |
| MotionSim.ConstantCourseBlend | utils/motionsim.py:24-28 | a course with one distinct nonzero row is applied as that row: moving lines take the moved k-space, other lines the motion-free k-space |
| MotionSim.ConstantCourseFromRow | utils/motionsim.py:24-26 | a course whose nonzero rows all equal one nonzero row q is constant with motion row q |
| MotionSim.TimeCourseLines | utils/motionsim.py:29-33 | in the time-dependent branch, line j < ny is line j of the k-space moved with row j, and later lines are zero |
| MotionSim.TimeCourseLocal | utils/motionsim.py:31-32 | line j depends only on row j of the course |
| MotionSim.TimeCourseOfConstantRows | utils/motionsim.py:29-33 | run over all lines with every row equal to q, the loop yields the k-space moved with q |
| MotionSim.TimeCourseRaises | utils/motionsim.py:31-32 | an image with more lines than k-space or the course raises IndexError |
| MotionSim.LineMovesAny | utils/motionsim.py:12 | definition: the rule the comment at line 12 states, some one of the first five parameters is nonzero |
| MotionSim.LineMovesIsAny | utils/motionsim.py:12-21 | every line line 21 marks has a nonzero parameter among its first five |
| MotionSim.CancellingRowHidden | utils/motionsim.py:21 | the row (0.5, -0.5, 0, 0, 0, 0) has nonzero parameters but is not marked as moving |
| MotionSim.MotionMaskDocumented | utils/motionsim.py:12 | the mask under the documented rule has k-space's shape |
| MotionSim.DocumentedMaskCovers | utils/motionsim.py:12-22 | the documented mask marks every line the code marks, and the two agree on lines whose first five parameters are non-negative |
| MotionSim.CancellingRowMasks | utils/motionsim.py:12-22 | on the cancelling row the code's mask is 0 where the documented mask is 1 |

## Left out

- The affine image transform is a function parameter: it stands for transform_img, the affine_* builders and resample in utils/motionsim.py lines 36-131, which are SimpleITK transforms, trigonometry and resampling. The call to crop inside resample is not modelled.
- The MRI forward operator is a function parameter with a fixed output shape: it stands for mriForwardOp with its coil maps and sampling mask. utils/mri.py is not part of this model.
- Floating point is not modelled: weights, fractional parts and quotients are exact reals. The one float constant kept is the largest float64, which np.nan_to_num puts in place of an infinity.
- Only two-dimensional arrays are modelled for zpad and crop. Targets are exact integers; the float32 conversion of s and of the shape is not modelled.
- Padding.Zpad: only the default mode 'constant' is modelled.
- Padding.ZpadCentred: besides the overpadding it corrects, it also moves odd targets the code pads to the right size but off centre. For example the code pads 3 lines to 5 as (0, 2), and ZpadCentred pads them as (1, 1) (Padding.OddTargetShifted).
- The random draw of generate_mask is an input sequence of 0/1 values, checked only for length and values. Its probabilities 1/R are not modelled, and neither is the print of Reff. Reff is stated through the product |R| * sum(mask) >= nPE rather than as a float quotient.
- CartesianSampling.GenerateMask: the mask's dtype is not modelled. Regular mode builds floats and random mode integers; the model uses integers for both.
- MotionComp: the CSR storage format and the global np.seterr setting are not modelled. A row is the list of its stored entries in first-write order.
- MotionComp.Transpose: it stores every column explicitly, zeros included; no product can tell these apart from absent entries.
- The print calls of motioncomp.py's example block are not modelled. Neither is its call of apply_sparse_motion on the example image (line 149), for which the source gives no expected output.
- MotionSim.SimulateMotion: it requires a course with exactly one row per k-space line. Other lengths, which NumPy broadcasts or rejects, are not modelled.
- MotionSim.SimulateMotion: the mask is modelled with real entries 0 and 1 in both cases. For a fixed vector np.ones_like gives it k-space's complex dtype; for a course `np.abs(...) > 0` and np.tile give a boolean array.
- MotionSim.MotionMask: course rows are taken as given; the rows of a ragged course, which np.asarray turns into objects, are not modelled.

## Findings

| source | as written | input that shows it | evidently intended | confidence | as-written member | corrected member |
|---|---|---|---|---|---|---|
| utils/padding.py:30 | the pad pair takes the absolute values of the window's first index and of its distance to s - 1; for an odd target one above an even size the window starts at -1 | x of shape (4, 4) padded to s = (5, 5) gives shape (7, 7) | every axis reaches its target size s, with the even branch's centring floor(s/2) - floor(m/2) | high; derived by proof, not executed | Padding.OddTargetOverpads | Padding.ZpadCentred |
| utils/motionsim.py:21 | a line moves when the absolute value of the sum of its first five parameters is nonzero | a course row (0.5, -0.5, 0, 0, 0, 0) is marked as not moving | the comment at line 12: a line moves when the absolute value of any of its first five parameters is nonzero | medium; derived by proof, not executed | MotionSim.CancellingRowHidden | MotionSim.MotionMaskDocumented |
