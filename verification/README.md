# Predictive video compression: block matching and motion compensation

This project is a Dafny model of the predictive core of a small video-codec
simulator. Given two consecutive grayscale frames, the codec does three things:

- It estimates one motion vector per block by full-search block matching
  (`get_motion_vectors` with its cost `sad`).
- It builds a predicted frame by copying displaced reference blocks
  (`reconstruct_frame`).
- It computes the residual between the actual and the predicted frame
  (`get_residual`).

Modules, in dependency order:

- `Frames` (frames.dfy): a frame is a `seq<seq<int>>` of equal-length rows
  with samples in 0..255. It also defines block extraction (the numpy slice
  `f[y:y+b, x:x+b]`), the all-zero frame and grid extensionality.
- `Arith` (arith.dfy): facts about multiplication and floor division that the
  block grid needs.
- `BlockCost` (blockcost.dfy): `sad` as an exact integer sum, with symmetry,
  the zero-iff-equal law and the bound that makes the source's float32
  accumulator exact.
- `Motion` (motion.dfy): the search window and the scan order.
  - `IsFirstMinimum` / `IsBestMatch` specify the search result independently
    of the loops: the first minimum in scan order, or the `(0, 0)` / `+inf`
    sentinel when the window is empty.
  - `SearchBlock` (the three search loops) and `GetMotionVectors` (the whole
    field) are methods proved against that specification.
  - Each loop of the search carries the best-so-far invariant `BestBefore`:
    the state is the first strictly cheapest candidate scanned so far, or the
    default when none has been scanned.
- `Compression` (compression.dfy): the anchor clamp (`Clamp`, applied to
  each coordinate by `SourceX` and `SourceY`) and `reconstruct_frame`.
  - The reconstruction is a fold of per-vector block pastes over an all-zero
    frame.
  - It is proved equal to an independent pixel-by-pixel definition:
    `PredictedPixel`, the source sample of the last vector covering the pixel.
  - `get_residual` is modelled with its int16 wrap and its 0..255 clip written
    out.
- `Pipeline` (pipeline.dfy): the prediction step with the vectors produced by
  the estimator.
  - The clamp is the identity for those vectors, and their blocks are
    disjoint.
  - Each block of the prediction is the chosen reference block, and the
    recorded cost is the SAD between the current frame and the prediction on
    that block.
  - The remainder rows and columns stay 0.

Parameters: `b` is `block_size` and `s` is `search_area`. An anchor `(x, y)`
is column `x`, row `y`, and a frame is indexed `f[row][column]`.

Behaviour reproduced as the code has it, not corrected:

- The search window `[max(0, p - s), min(extent - b, p + s))` has an
  exclusive end.
  - With `s = 0` every window is empty.
  - A block anchored at `y = H - b` or `x = W - b` is never compared with
    its own position.
  - No candidate ever touches the reference's last row or column.
- Ties go to the first candidate in scan order (`ry` outer, `rx` inner).
- One might expect matching a frame against itself to give `(0, 0)` with
  cost 0 for every block, and the reconstruction then to reproduce every
  covered block. The code does not do this, and the model follows the code:
  - `Motion.EmptyWindowSentinel` gives the infinite-cost sentinel.
  - `Motion.FlatFramePicksFirstCandidate` shows that a flat frame picks the
    first anchor of the window, not its own position.
  - `Pipeline.IdenticalFramesPredictSearchedBlocks` proves the round trip only
    for blocks whose own position is searched or whose window is empty.
- The code validates neither dimensions nor parameters and defines no error
  of its own. A negative search radius is accepted as the code accepts it:
  every window is then empty (`Motion.EmptyWindowSentinel`). Matching shapes
  and `b >= 1` are preconditions; what the code does without them is listed
  under "Left out".

## Model

| member | source | states |
|---|---|---|
| BlockCost.Sad | src/motion.py:3-9 | the SAD of two blocks of the same shape is a non-negative integer |
| BlockCost.SadSymmetric | src/motion.py:3-9 | `sad(a, c) == sad(c, a)` for all blocks of the same shape |
| BlockCost.SadZeroIff | src/motion.py:3-9 | `sad(a, c) == 0` exactly when the two blocks are equal |
| BlockCost.SadBound | src/motion.py:9 | an `h`-by-`w` pair of 8-bit blocks has SAD at most `255*h*w` |
| BlockCost.SadFitsFloat32 | src/motion.py:9 | for `b <= 256`, every SAD is at most 2^24, so the float32 sum is exact |
| Motion.WindowStart | src/motion.py:42-44 | the first candidate coordinate `max(0, p - s)`: the larger of 0 and `p - s` |
| Motion.WindowEnd | src/motion.py:43-45 | the exclusive end `min(extent - b, p + s)`: the smaller of `extent - b` and `p + s` |
| Motion.CandidateInsideReference | src/motion.py:42-55 | every candidate anchor satisfies `0 <= rx < W-b` and `0 <= ry < H-b`, so the shape check never skips a candidate |
| Motion.EdgeBlockSkipsOwnAnchor | src/motion.py:42-49 | a block anchored at `y = H-b` or `x = W-b` is never a candidate for itself |
| Frames.Block | src/motion.py:35 | the `b`-by-`b` slice `f[y:y+b, x:x+b]` of a block inside the frame: a `b`-by-`b` grid whose sample `(i, j)` is `f[y+i][x+j]` |
| Frames.Zeros | src/compression.py:11 | `np.zeros((h, w))`: an `h`-by-`w` grid of zeros |
| Motion.CandidateCost | src/motion.py:52-58 | the SAD between the current block at `(x, y)` and the candidate block at `(rx, ry)` is non-negative |
| Motion.ScanCandidate | src/motion.py:52-62 | one candidate: if the state was the first cheapest candidate before `(rx, ry)`, it is the first cheapest one up to and including `(rx, ry)`; a tie keeps the earlier candidate |
| Motion.ScanRow | src/motion.py:49-62 | the inner loop extends the first cheapest candidate of the rows before `ry` to the first cheapest one of the rows up to `ry` |
| Motion.ScanWindow | src/motion.py:37-62 | from the `(0, 0)`/`+inf` start, the two search loops end with the first minimum of the SAD over the window, or the sentinel when the window is empty |
| Motion.SearchDone | src/motion.py:48-62 | after the last row the best-so-far state is the first minimum of the whole window |
| Motion.SearchBlock | src/motion.py:34-71 | the vector for block `(x, y)` is the first minimum in scan order of the SAD over the window, or `(0, 0)` with `+inf` when the window is empty |
| Motion.NextGridVector | src/motion.py:31-32 | the block at grid row `row`, column `col` is the vector at raster index `row*cols + col` |
| Motion.GetMotionVectors | src/motion.py:26-73 | the result has `floor(H/b)*floor(W/b)` vectors; vector `k` is anchored at block row `k / cols`, block column `k % cols`, inside the frame, and is the best match of its block |
| Motion.FirstMinimumUnique | src/motion.py:60-62 | a window has only one first minimum |
| Motion.BestMatchUnique | src/motion.py:48-62 | two vectors meeting the best-match specification for the same block are equal, so the tie-break fixes the answer |
| Motion.ChosenDisplacementBounds | src/motion.py:42-62 | with a non-empty window: `-s <= u, v <= s-1`, `0 <= x+u < W-b`, `0 <= y+v < H-b`, and the cost is finite |
| Motion.RecordedCost | src/motion.py:58-62 | a finite recorded cost is the SAD between the block and the reference block at `(x+u, y+v)` |
| Motion.FieldRecordedCost | src/motion.py:58-70 | the same holds for every vector of the estimator's output |
| Motion.EmptyWindowSentinel | src/motion.py:38-49 | with `s <= 0`, `H = b` or `W = b`, the vector is `(0, 0)` with infinite cost |
| Motion.IdenticalFramesZeroCost | src/motion.py:42-62 | matching a frame against itself records cost 0 whenever the block's own position is a candidate |
| Motion.FlatFrameZeroCost | src/motion.py:3-9 | in a one-colour frame matched against itself, every candidate costs 0 |
| Motion.FirstMinimumAtZero | src/motion.py:60-62 | when the first anchor costs 0 and no cost is negative, the first anchor is chosen |
| Motion.FlatFramePicksFirstCandidate | src/motion.py:48-62 | in a one-colour frame matched against itself, every block with a non-empty window points at the window's first anchor `(max(0, x-s), max(0, y-s))` with cost 0 |
| Motion.RasterIndexOrder | src/motion.py:31-32 | raster indices map to anchors that are multiples of `b`, and anchors in scan order |
| Motion.CellScanOrder | src/motion.py:31-32 | an earlier grid cell has an anchor earlier in scan order |
| Motion.FieldRasterOrder | src/motion.py:31-71 | the vectors are in raster order (`y` outer, `x` inner), with every anchor a multiple of `b` |
| Compression.Clamp | src/compression.py:24-25 | `max(0, min(hi, p))`: `p` when it lies in `0..hi`, 0 when `p < 0`, `hi` when `p > hi >= 0`, and 0 when `hi < 0` |
| Compression.SourcePixel | src/compression.py:28 | the sample the slice copies to pixel `(i, j)`: an 8-bit reference sample at the same offset from the clamped source anchor |
| Compression.SourceAnchorInFrame | src/compression.py:20-25 | when `b <= W, H` the clamped source anchor lies in `[0, W-b] x [0, H-b]` |
| Compression.SourceBlockInFrame | src/compression.py:24-31 | the clamped source block of any vector lies inside the reference, even for a frame smaller than a block |
| Compression.PasteBlock | src/compression.py:28-32 | one slice assignment yields a grid of the reference's shape |
| Compression.PasteBlockPixel | src/compression.py:28-32 | inside the destination block each pixel takes the reference sample at the same offset from the clamped source anchor, which lies in the frame; every other pixel keeps its value |
| Compression.ReconstructPrefix | src/compression.py:11-32 | after any number of vectors the output is an 8-bit frame of the reference's shape |
| Compression.Reconstruct | src/compression.py:10-34 | the predicted frame has exactly the reference's height and width, with 8-bit samples |
| Compression.LastCover | src/compression.py:13-32 | the last vector whose block covers a pixel, or none |
| Compression.ReconstructPrefixPixel | src/compression.py:11-32 | after `n` vectors, each pixel holds the clamped source sample of the last of them that covers it, or 0 |
| Compression.ReconstructPixel | src/compression.py:10-34 | the reconstruction equals the pixel-by-pixel definition `PredictedPixel` at every pixel |
| Compression.UncoveredPixelsAreZero | src/compression.py:11-32 | a pixel that no vector's block covers is 0 |
| Compression.AnchorFitsCoverInFrame | src/compression.py:32 | a pixel covered by a fitting block lies in the frame |
| Compression.LastVectorWins | src/compression.py:13-32 | a pixel of block `k` takes `k`'s clamped source sample unless a later block covers it |
| Compression.DisplacedSourcePixel | src/compression.py:20-28 | without clamping, the copied sample is the reference sample displaced by `(u, v)` |
| Compression.UnclampedBlockPixel | src/compression.py:20-32 | an unclamped, not later overwritten pixel is the reference sample at `(i+v, j+u)` |
| Compression.UnclampedBlock | src/compression.py:20-32 | an unclamped block that no later block overlaps is the reference block at `(x+u, y+v)` |
| Compression.ZeroDisplacementUnclamped | src/compression.py:20-25 | a zero vector with a fitting anchor is not moved by the clamp |
| Compression.ZeroVectorsCopyReference | src/compression.py:13-32 | with all-zero vectors, every covered pixel reproduces the reference |
| Compression.Int16 | src/compression.py:42 | int16 wrap-around: the result is in `-2^15 .. 2^15-1`, congruent to the input modulo 2^16, and equal to it when it is already in range |
| Compression.ResidualPixel | src/compression.py:42-45 | for 8-bit inputs the int16 arithmetic and the clip give exactly `abs(a - p)`, in 0..255 |
| Compression.Residual | src/compression.py:36-45 | the residual has the inputs' shape and is `abs(a[i][j] - p[i][j])` at every pixel |
| Compression.ResidualSymmetric | src/compression.py:42 | `get_residual(a, p) == get_residual(p, a)` |
| Compression.ResidualZeroIff | src/compression.py:42-45 | the residual is all zero exactly when the two frames are equal |
| Pipeline.GridCellsDisjoint | src/motion.py:31-32 | the blocks at two different raster indices share no pixel |
| Pipeline.CellsDisjoint | src/motion.py:31-32 | two different grid cells share no pixel |
| Pipeline.GridCellWithinCoveredArea | src/motion.py:31-32 | every block ends within the first `floor(H/b)*b` rows and `floor(W/b)*b` columns |
| Pipeline.FieldAnchorsFit | src/compression.py:13-32 | the estimator's vectors are valid input for reconstruction |
| Pipeline.EstimatesUnclamped | src/compression.py:20-25 | for the estimator's vectors the clamp is the identity: the source anchor is `(x+u, y+v)` |
| Pipeline.FieldBlocksDisjoint | src/compression.py:32 | no other vector of the field overwrites a pixel of block `k` |
| Pipeline.PredictionIsChosenBlock | src/compression.py:20-32 | each predicted pixel of block `k` is the reference sample at the displacement the search chose |
| Pipeline.PredictedBlock | src/compression.py:13-32 | the predicted block at `(x, y)` equals the reference block at `(x+u, y+v)` |
| Pipeline.PredictionErrorIsRecordedCost | src/motion.py:58-70 | a finite recorded cost is the SAD between the current frame and the prediction on that block |
| Pipeline.RemainderStaysZero | src/compression.py:11-32 | the trailing partial rows and columns of the prediction are 0 |
| Pipeline.IdenticalFramesPredictSearchedBlocks | src/compression.py:13-32 | predicting a frame from itself reproduces every block whose own position is searched or whose window is empty |

## Left out

- The program's driver is not part of this model. It handles video capture,
  resizing and colour conversion, CSV logging, video writing, timing and the
  display loop. All of that is I/O around the core.
- `draw_motion_vectors` in `src/utils.py` is not part of this model. It only
  draws with OpenCV.
- PSNR is not modelled. The driver imports `calculate_psnr`, but
  `src/utils.py` does not define it, so there is no source to model. It would
  also be floating-point `log10`.
- BlockCost.Sad: the SAD is an exact integer, not a float32. For 8-bit samples
  and `b <= 256` the float32 sum is exact (`BlockCost.SadFitsFloat32`).
  Larger blocks, where float32 rounding could change a comparison, are not
  modelled.
- Compression.Reconstruct requires every vector's destination block to fit in
  the frame (`AllAnchorsFit`). For an anchor outside the frame, numpy raises
  a broadcasting error, wraps a negative index, or, when the block extent is
  1 and the anchor is `-1` or the frame's extent, broadcasts the one-row (or
  one-column) block onto an empty destination slice and writes nothing. Those
  paths are not modelled. The estimator's own vectors always fit (`Pipeline.FieldAnchorsFit`).
- Motion.GetMotionVectors requires `b >= 1` (`Matchable`). With `b = 0` the
  grid loop `range(0, ..., 0)` raises `ValueError`. With `b < 0` the ranges
  are empty and the field is empty. Neither path is modelled.
- Motion.GetMotionVectors requires the two frames to have the same shape
  (`Matchable`). With a smaller reference, some candidate slices come out
  short, and the shape check skips them. With a larger one, the window is
  taken from the current frame's size. Neither case is modelled.
- Compression.Residual requires both frames to have the same shape. Otherwise
  numpy raises a broadcast error, or silently broadcasts an operand with a
  dimension of 1, such as a `(1, W)` frame. Neither case is modelled.
- Frames are plain integer grids. The `uint8` dtype of the inputs and the
  output is the `IsFrame` invariant (samples in 0..255), not a machine type.
