/** One prediction step of the codec (`main.py` calls `get_motion_vectors`
    and then `reconstruct_frame`): what the predicted frame looks like when the
    vector field comes from the estimator. */
module Pipeline {
  import opened Frames
  import opened BlockCost
  import opened Motion
  import opened Compression
  import Arith

  /** Two different raster indices of a grid name disjoint blocks: the pixel
      at offset `(di, dj)` in block `k` is outside block `m`. */
  lemma GridCellsDisjoint(k: int, m: int, cols: int, b: int, di: int, dj: int)
    requires 0 <= k && 0 <= m && k != m && cols >= 1 && b >= 1
    requires 0 <= di < b && 0 <= dj < b
    ensures || !((m / cols) * b <= (k / cols) * b + di < (m / cols) * b + b)
            || !((m % cols) * b <= (k % cols) * b + dj < (m % cols) * b + b)
  {
    assert k == (k / cols) * cols + k % cols && m == (m / cols) * cols + m % cols;
    CellsDisjoint(k / cols, k % cols, m / cols, m % cols, b, di, dj);
  }

  /** Distinct cells `(qk, rk)` and `(qm, rm)` of a grid of `b`-by-`b`
      blocks share no pixel. */
  lemma CellsDisjoint(qk: int, rk: int, qm: int, rm: int, b: int, di: int, dj: int)
    requires (qk, rk) != (qm, rm) && b >= 1
    requires 0 <= di < b && 0 <= dj < b
    ensures || !(qm * b <= qk * b + di < qm * b + b)
            || !(rm * b <= rk * b + dj < rm * b + b)
  {
    if qk < qm {
      Arith.MulMonotone(qk + 1, qm, b);
    } else if qk > qm {
      Arith.MulMonotone(qm + 1, qk, b);
    } else if rk < rm {
      Arith.MulMonotone(rk + 1, rm, b);
    } else if rk > rm {
      Arith.MulMonotone(rm + 1, rk, b);
    }
  }

  /** Every block of a `rows`-by-`cols` grid ends within the first
      `rows * b` rows and `cols * b` columns. */
  lemma GridCellWithinCoveredArea(k: int, rows: int, cols: int, b: int)
    requires 0 <= k < rows * cols && cols >= 1 && b >= 1
    ensures (k / cols) * b + b <= rows * b
    ensures (k % cols) * b + b <= cols * b
  {
    var q, r := k / cols, k % cols;
    assert k == q * cols + r;
    if q >= rows {
      Arith.MulMonotone(rows, q, cols);
      assert false;
    }
    Arith.MulMonotone(q + 1, rows, b);
    Arith.MulMonotone(r + 1, cols, b);
  }

  /** The estimator's vectors are valid input for reconstruction. */
  lemma FieldAnchorsFit(reference: seq<seq<int>>, current: seq<seq<int>>, b: int, s: int,
                        vs: seq<MotionVector>)
    requires Matchable(reference, current, b)
    requires IsMotionField(reference, current, b, s, vs)
    ensures AllAnchorsFit(reference, b, vs)
  {
    forall k | 0 <= k < |vs|
      ensures AnchorFits(reference, b, vs[k])
    {
      assert GridVector(reference, current, b, s, Width(current) / b, k, vs[k]);
    }
  }

  /** For the estimator's vectors the reconstructor's clamp is the identity:
      the source anchor is exactly `(x + u, y + v)`. */
  lemma EstimatesUnclamped(reference: seq<seq<int>>, current: seq<seq<int>>, b: int, s: int,
                           vs: seq<MotionVector>, k: int)
    requires Matchable(reference, current, b)
    requires IsMotionField(reference, current, b, s, vs)
    requires 0 <= k < |vs|
    ensures SourceX(reference, b, vs[k]) == vs[k].x + vs[k].u
    ensures SourceY(reference, b, vs[k]) == vs[k].y + vs[k].v
  {
    assert GridVector(reference, current, b, s, Width(current) / b, k, vs[k]);
  }

  /** No other block of the field covers a pixel of block `k`. */
  lemma FieldBlocksDisjoint(reference: seq<seq<int>>, current: seq<seq<int>>, b: int, s: int,
                            vs: seq<MotionVector>, k: int, m: int, i: int, j: int)
    requires Matchable(reference, current, b)
    requires IsMotionField(reference, current, b, s, vs)
    requires 0 <= k < |vs| && 0 <= m < |vs| && k != m
    requires Covers(reference, b, vs[k], i, j)
    ensures !Covers(reference, b, vs[m], i, j)
  {
    var cols := Width(current) / b;
    assert GridVector(reference, current, b, s, cols, k, vs[k]);
    assert GridVector(reference, current, b, s, cols, m, vs[m]);
    GridCellsDisjoint(k, m, cols, b, i - vs[k].y, j - vs[k].x);
  }

  /** Each pixel of block `k` of the prediction is the reference sample the
      search chose for it, displaced by the block's vector `(u, v)`. */
  lemma PredictionIsChosenBlock(reference: seq<seq<int>>, current: seq<seq<int>>, b: int, s: int,
                                vs: seq<MotionVector>, k: int, i: int, j: int)
    requires Matchable(reference, current, b)
    requires IsMotionField(reference, current, b, s, vs)
    requires 0 <= k < |vs| && vs[k].y <= i < vs[k].y + b && vs[k].x <= j < vs[k].x + b
    ensures AllAnchorsFit(reference, b, vs)
    ensures 0 <= i < Height(reference) && 0 <= j < Width(reference)
    ensures 0 <= i + vs[k].v < Height(reference) && 0 <= j + vs[k].u < Width(reference)
    ensures Reconstruct(reference, vs, b)[i][j] == reference[i + vs[k].v][j + vs[k].u]
  {
    FieldAnchorsFit(reference, current, b, s, vs);
    EstimatesUnclamped(reference, current, b, s, vs, k);
    assert GridVector(reference, current, b, s, Width(current) / b, k, vs[k]);
    assert Covers(reference, b, vs[k], i, j);
    forall m | k < m < |vs|
      ensures !Covers(reference, b, vs[m], i, j)
    {
      FieldBlocksDisjoint(reference, current, b, s, vs, k, m, i, j);
    }
    UnclampedBlockPixel(reference, vs, b, k, i, j);
  }

  /** The prediction's block at the anchor of vector `k` equals the reference
      block at the displaced anchor. */
  lemma PredictedBlock(reference: seq<seq<int>>, current: seq<seq<int>>, b: int, s: int,
                       vs: seq<MotionVector>, k: int)
    requires Matchable(reference, current, b)
    requires IsMotionField(reference, current, b, s, vs)
    requires 0 <= k < |vs|
    ensures AllAnchorsFit(reference, b, vs)
    ensures BlockInFrame(reference, b, vs[k].x, vs[k].y)
    ensures BlockInFrame(reference, b, vs[k].x + vs[k].u, vs[k].y + vs[k].v)
    ensures Block(Reconstruct(reference, vs, b), vs[k].x, vs[k].y, b) ==
            Block(reference, vs[k].x + vs[k].u, vs[k].y + vs[k].v, b)
  {
    FieldAnchorsFit(reference, current, b, s, vs);
    EstimatesUnclamped(reference, current, b, s, vs, k);
    assert GridVector(reference, current, b, s, Width(current) / b, k, vs[k]);
    forall m, i, j | k < m < |vs| && Covers(reference, b, vs[k], i, j)
      ensures !Covers(reference, b, vs[m], i, j)
    {
      FieldBlocksDisjoint(reference, current, b, s, vs, k, m, i, j);
    }
    UnclampedBlock(reference, vs, b, k);
  }

  /** The recorded cost of every block with a non-empty window is the SAD
      between the current frame and the prediction on that block, so the
      cost the estimator reports is the error the decoder will see there. */
  lemma PredictionErrorIsRecordedCost(reference: seq<seq<int>>, current: seq<seq<int>>, b: int, s: int,
                                      vs: seq<MotionVector>, k: int)
    requires Matchable(reference, current, b)
    requires IsMotionField(reference, current, b, s, vs)
    requires 0 <= k < |vs| && vs[k].cost.Finite?
    ensures AllAnchorsFit(reference, b, vs)
    ensures BlockInFrame(current, b, vs[k].x, vs[k].y)
    ensures Sad(Block(current, vs[k].x, vs[k].y, b), Block(Reconstruct(reference, vs, b), vs[k].x, vs[k].y, b))
            == vs[k].cost.value
  {
    PredictedBlock(reference, current, b, s, vs, k);
    FieldRecordedCost(reference, current, b, s, vs, k);
  }

  /** The trailing partial rows and columns that no block covers keep the
      output's default 0. */
  lemma RemainderStaysZero(reference: seq<seq<int>>, current: seq<seq<int>>, b: int, s: int,
                           vs: seq<MotionVector>, i: int, j: int)
    requires Matchable(reference, current, b)
    requires IsMotionField(reference, current, b, s, vs)
    requires 0 <= i < Height(reference) && 0 <= j < Width(reference)
    requires i >= (Height(current) / b) * b || j >= (Width(current) / b) * b
    ensures AllAnchorsFit(reference, b, vs)
    ensures Reconstruct(reference, vs, b)[i][j] == 0
  {
    FieldAnchorsFit(reference, current, b, s, vs);
    var rows, cols := Height(current) / b, Width(current) / b;
    forall k | 0 <= k < |vs|
      ensures !Covers(reference, b, vs[k], i, j)
    {
      assert GridVector(reference, current, b, s, cols, k, vs[k]);
      GridCellWithinCoveredArea(k, rows, cols, b);
    }
    UncoveredPixelsAreZero(reference, vs, b, i, j);
  }

  /** Predicting a frame from itself reproduces every block whose own position
      is searched, even when the vector chosen for it is not `(0, 0)`, and
      every block whose window is empty, whose vector is the `(0, 0)` default. */
  lemma IdenticalFramesPredictSearchedBlocks(f: seq<seq<int>>, b: int, s: int, vs: seq<MotionVector>, k: int)
    requires Matchable(f, f, b)
    requires IsMotionField(f, f, b, s, vs)
    requires 0 <= k < |vs|
    requires IsCandidate(f, b, s, vs[k].x, vs[k].y, vs[k].x, vs[k].y) || WindowEmpty(f, b, s, vs[k].x, vs[k].y)
    ensures AllAnchorsFit(f, b, vs)
    ensures BlockInFrame(f, b, vs[k].x, vs[k].y)
    ensures Block(Reconstruct(f, vs, b), vs[k].x, vs[k].y, b) == Block(f, vs[k].x, vs[k].y, b)
  {
    assert GridVector(f, f, b, s, Width(f) / b, k, vs[k]);
    var x, y := vs[k].x, vs[k].y;
    if WindowEmpty(f, b, s, x, y) {
      assert vs[k].u == 0 && vs[k].v == 0;
      PredictedBlock(f, f, b, s, vs, k);
    } else {
      IdenticalFramesZeroCost(f, b, s, vs[k]);
      PredictionErrorIsRecordedCost(f, f, b, s, vs, k);
      SadZeroIff(Block(f, x, y, b), Block(Reconstruct(f, vs, b), x, y, b));
    }
  }
}
