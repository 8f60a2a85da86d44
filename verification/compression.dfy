/** Motion compensation and residual (`src/compression.py`): building the
    predicted frame from the reference and a vector field, and the per-pixel
    difference between the actual and the predicted frame. */
module Compression {
  import opened Frames
  import opened BlockCost
  import opened Motion

  /** `max(0, min(hi, p))`: the anchor clamp of `reconstruct_frame`. */
  function Clamp(p: int, hi: int): (r: int)
    ensures 0 <= r
    ensures hi >= 0 ==> r <= hi
    ensures hi < 0 ==> r == 0
    ensures 0 <= p <= hi ==> r == p
    ensures p < 0 ==> r == 0
    ensures 0 <= hi < p ==> r == hi
  {
    var m := if hi < p then hi else p;
    if m > 0 then m else 0
  }

  /** How many of `b` rows (or columns) a numpy slice can take from an axis of
      length `n` starting at a clamped anchor: `b`, or `n` when the frame is
      smaller than a block. */
  function Extent(b: int, n: int): int {
    if b <= n then b else n
  }

  /** The vector's destination block lies inside the frame. */
  predicate AnchorFits(f: seq<seq<int>>, b: int, mv: MotionVector) {
    && 0 <= mv.x && mv.x + Extent(b, Width(f)) <= Width(f)
    && 0 <= mv.y && mv.y + Extent(b, Height(f)) <= Height(f)
  }

  predicate AllAnchorsFit(f: seq<seq<int>>, b: int, vs: seq<MotionVector>) {
    forall k :: 0 <= k < |vs| ==> AnchorFits(f, b, vs[k])
  }

  /** The column of the source block in the reference, clamped into the frame. */
  function SourceX(f: seq<seq<int>>, b: int, mv: MotionVector): int {
    Clamp(mv.x + mv.u, Width(f) - b)
  }

  /** The row of the source block in the reference, clamped into the frame. */
  function SourceY(f: seq<seq<int>>, b: int, mv: MotionVector): int {
    Clamp(mv.y + mv.v, Height(f) - b)
  }

  /** When the block fits in the frame, the clamped source anchor is a valid
      block anchor: `0 <= sx <= W - b` and `0 <= sy <= H - b`. */
  lemma SourceAnchorInFrame(f: seq<seq<int>>, b: int, mv: MotionVector)
    requires b <= Width(f) && b <= Height(f)
    ensures 0 <= SourceX(f, b, mv) <= Width(f) - b
    ensures 0 <= SourceY(f, b, mv) <= Height(f) - b
  {
  }

  /** Pixel `(i, j)` (row, column) is written when vector `mv` is applied. */
  predicate Covers(f: seq<seq<int>>, b: int, mv: MotionVector, i: int, j: int) {
    mv.y <= i < mv.y + Extent(b, Height(f)) && mv.x <= j < mv.x + Extent(b, Width(f))
  }

  /** The clamped source block never leaves the reference, even for a frame
      smaller than a block. */
  lemma SourceBlockInFrame(f: seq<seq<int>>, b: int, mv: MotionVector)
    requires b >= 1
    ensures 0 <= SourceY(f, b, mv) && SourceY(f, b, mv) + Extent(b, Height(f)) <= Height(f)
    ensures 0 <= SourceX(f, b, mv) && SourceX(f, b, mv) + Extent(b, Width(f)) <= Width(f)
  {
  }

  lemma SourceInFrame(f: seq<seq<int>>, b: int, mv: MotionVector, i: int, j: int)
    requires b >= 1 && Covers(f, b, mv, i, j)
    ensures 0 <= SourceY(f, b, mv) + (i - mv.y) < Height(f)
    ensures 0 <= SourceX(f, b, mv) + (j - mv.x) < Width(f)
  {
    SourceBlockInFrame(f, b, mv);
  }

  /** The reference sample copied to pixel `(i, j)` by vector `mv`. */
  function SourcePixel(f: seq<seq<int>>, b: int, mv: MotionVector, i: int, j: int): (p: int)
    requires IsFrame(f) && b >= 1 && Covers(f, b, mv, i, j)
    ensures IsSample(p)
  {
    SourceInFrame(f, b, mv, i, j);
    f[SourceY(f, b, mv) + (i - mv.y)][SourceX(f, b, mv) + (j - mv.x)]
  }

  /** One iteration of `reconstruct_frame`: the slice assignment
      `out[y:y+h, x:x+w] = reference[sy:sy+h, sx:sx+w]`, pixel by pixel. */
  function PasteBlock(out: seq<seq<int>>, f: seq<seq<int>>, b: int, mv: MotionVector): (r: seq<seq<int>>)
    requires IsFrame(f) && b >= 1 && IsGrid(out, Height(f), Width(f))
    ensures IsGrid(r, Height(f), Width(f))
  {
    seq(Height(f), i requires 0 <= i < Height(f) =>
      seq(Width(f), j requires 0 <= j < Width(f) =>
        if Covers(f, b, mv, i, j) then SourcePixel(f, b, mv, i, j) else out[i][j]))
  }

  /** The slice assignment of one vector: inside the destination block each
      pixel takes the reference sample at the same offset from the clamped
      source anchor; every other pixel keeps its value. */
  lemma PasteBlockPixel(out: seq<seq<int>>, f: seq<seq<int>>, b: int, mv: MotionVector, i: int, j: int)
    requires IsFrame(f) && b >= 1 && IsGrid(out, Height(f), Width(f))
    requires 0 <= i < Height(f) && 0 <= j < Width(f)
    ensures Covers(f, b, mv, i, j) ==>
              && 0 <= SourceY(f, b, mv) + (i - mv.y) < Height(f)
              && 0 <= SourceX(f, b, mv) + (j - mv.x) < Width(f)
              && PasteBlock(out, f, b, mv)[i][j] == f[SourceY(f, b, mv) + (i - mv.y)][SourceX(f, b, mv) + (j - mv.x)]
    ensures !Covers(f, b, mv, i, j) ==> PasteBlock(out, f, b, mv)[i][j] == out[i][j]
  {
    if Covers(f, b, mv, i, j) {
      SourceInFrame(f, b, mv, i, j);
    }
  }

  /** The output of `reconstruct_frame` after its loop has applied the
      first `n` vectors to the all-zero frame of the reference's shape. */
  function ReconstructPrefix(f: seq<seq<int>>, vs: seq<MotionVector>, b: int, n: int): (out: seq<seq<int>>)
    requires IsFrame(f) && b >= 1 && 0 <= n <= |vs|
    ensures IsGrid(out, Height(f), Width(f))
    ensures IsFrame(out) && SameShape(out, f)
    decreases n
  {
    if n == 0 then Zeros(Height(f), Width(f))
    else PasteBlock(ReconstructPrefix(f, vs, b, n - 1), f, b, vs[n - 1])
  }

  /** `reconstruct_frame`: apply every vector in order, later blocks
      overwriting earlier ones. */
  function Reconstruct(f: seq<seq<int>>, vs: seq<MotionVector>, b: int): (out: seq<seq<int>>)
    requires IsFrame(f) && b >= 1 && AllAnchorsFit(f, b, vs)
    ensures IsGrid(out, Height(f), Width(f))
    ensures IsFrame(out) && SameShape(out, f)
  {
    ReconstructPrefix(f, vs, b, |vs|)
  }

  /** The index of the last of the first `n` vectors whose block covers
      pixel `(i, j)`, or -1 when none of them covers it. */
  function LastCover(f: seq<seq<int>>, b: int, vs: seq<MotionVector>, n: int, i: int, j: int): (k: int)
    requires 0 <= n <= |vs|
    ensures -1 <= k < n
    ensures k >= 0 ==> Covers(f, b, vs[k], i, j)
    ensures forall m :: k < m < n ==> !Covers(f, b, vs[m], i, j)
    decreases n
  {
    if n == 0 then -1
    else if Covers(f, b, vs[n - 1], i, j) then n - 1
    else LastCover(f, b, vs, n - 1, i, j)
  }

  /** The predicted sample at `(i, j)`, defined pixel by pixel: the source
      sample of the last vector covering it, or 0 when none does. */
  function PredictedPixel(f: seq<seq<int>>, b: int, vs: seq<MotionVector>, i: int, j: int): int
    requires IsFrame(f) && b >= 1
  {
    var k := LastCover(f, b, vs, |vs|, i, j);
    if k < 0 then 0 else SourcePixel(f, b, vs[k], i, j)
  }

  /** After `n` vectors, pixel `(i, j)` holds the source sample of the last
      of them that covers it, or 0. */
  lemma {:induction false} ReconstructPrefixPixel(f: seq<seq<int>>, vs: seq<MotionVector>, b: int, n: int, i: int, j: int)
    requires IsFrame(f) && b >= 1 && 0 <= n <= |vs|
    requires 0 <= i < Height(f) && 0 <= j < Width(f)
    ensures var k := LastCover(f, b, vs, n, i, j);
            ReconstructPrefix(f, vs, b, n)[i][j] == if k < 0 then 0 else SourcePixel(f, b, vs[k], i, j)
    decreases n
  {
    if n > 0 {
      ReconstructPrefixPixel(f, vs, b, n - 1, i, j);
    }
  }

  /** The fold agrees with the pixel-by-pixel definition at every pixel. */
  lemma ReconstructPixel(f: seq<seq<int>>, vs: seq<MotionVector>, b: int, i: int, j: int)
    requires IsFrame(f) && b >= 1 && AllAnchorsFit(f, b, vs)
    requires 0 <= i < Height(f) && 0 <= j < Width(f)
    ensures Reconstruct(f, vs, b)[i][j] == PredictedPixel(f, b, vs, i, j)
  {
    ReconstructPrefixPixel(f, vs, b, |vs|, i, j);
  }

  /** Pixels that no vector's block covers stay 0, the default of the output. */
  lemma UncoveredPixelsAreZero(f: seq<seq<int>>, vs: seq<MotionVector>, b: int, i: int, j: int)
    requires IsFrame(f) && b >= 1 && AllAnchorsFit(f, b, vs)
    requires 0 <= i < Height(f) && 0 <= j < Width(f)
    requires forall k :: 0 <= k < |vs| ==> !Covers(f, b, vs[k], i, j)
    ensures Reconstruct(f, vs, b)[i][j] == 0
  {
    ReconstructPixel(f, vs, b, i, j);
  }

  /** A covered pixel lies inside the frame. */
  lemma AnchorFitsCoverInFrame(f: seq<seq<int>>, b: int, mv: MotionVector, i: int, j: int)
    requires AnchorFits(f, b, mv) && Covers(f, b, mv, i, j)
    ensures 0 <= i < Height(f) && 0 <= j < Width(f)
  {
  }

  /** A pixel of the block of vector `k` takes the reference sample at the
      clamped source offset of `k`, unless a later vector's block covers it:
      later vectors overwrite earlier ones. */
  lemma LastVectorWins(f: seq<seq<int>>, vs: seq<MotionVector>, b: int, k: int, i: int, j: int)
    requires IsFrame(f) && b >= 1 && AllAnchorsFit(f, b, vs)
    requires 0 <= k < |vs| && Covers(f, b, vs[k], i, j)
    requires forall m :: k < m < |vs| ==> !Covers(f, b, vs[m], i, j)
    ensures Reconstruct(f, vs, b)[i][j] == SourcePixel(f, b, vs[k], i, j)
  {
    AnchorFitsCoverInFrame(f, b, vs[k], i, j);
    ReconstructPixel(f, vs, b, i, j);
    assert LastCover(f, b, vs, |vs|, i, j) == k;
  }

  /** Without clamping, the sample a block copies to pixel `(i, j)` is the
      reference sample displaced by `(u, v)`. */
  lemma DisplacedSourcePixel(f: seq<seq<int>>, b: int, mv: MotionVector, i: int, j: int)
    requires IsFrame(f) && b >= 1 && Covers(f, b, mv, i, j)
    requires SourceX(f, b, mv) == mv.x + mv.u && SourceY(f, b, mv) == mv.y + mv.v
    ensures 0 <= i + mv.v < Height(f) && 0 <= j + mv.u < Width(f)
    ensures SourcePixel(f, b, mv, i, j) == f[i + mv.v][j + mv.u]
  {
    SourceInFrame(f, b, mv, i, j);
  }

  /** A pixel of a block whose source anchor needed no clamping is the
      reference sample displaced by `(u, v)`, unless a later block covers it. */
  lemma UnclampedBlockPixel(f: seq<seq<int>>, vs: seq<MotionVector>, b: int, k: int, i: int, j: int)
    requires IsFrame(f) && b >= 1 && AllAnchorsFit(f, b, vs)
    requires 0 <= k < |vs| && Covers(f, b, vs[k], i, j)
    requires SourceX(f, b, vs[k]) == vs[k].x + vs[k].u && SourceY(f, b, vs[k]) == vs[k].y + vs[k].v
    requires forall m :: k < m < |vs| ==> !Covers(f, b, vs[m], i, j)
    ensures 0 <= i < Height(f) && 0 <= j < Width(f)
    ensures 0 <= i + vs[k].v < Height(f) && 0 <= j + vs[k].u < Width(f)
    ensures Reconstruct(f, vs, b)[i][j] == f[i + vs[k].v][j + vs[k].u]
  {
    LastVectorWins(f, vs, b, k, i, j);
    var p := SourcePixel(f, b, vs[k], i, j);
    assert Reconstruct(f, vs, b)[i][j] == p;
    DisplacedSourcePixel(f, b, vs[k], i, j);
    assert p == f[i + vs[k].v][j + vs[k].u];
  }

  /** When no later block overlaps it, the predicted block of vector `k`
      whose source needed no clamping is the reference block at `(x + u, y + v)`. */
  lemma UnclampedBlock(f: seq<seq<int>>, vs: seq<MotionVector>, b: int, k: int)
    requires IsFrame(f) && 1 <= b <= Height(f) && b <= Width(f) && AllAnchorsFit(f, b, vs)
    requires 0 <= k < |vs|
    requires SourceX(f, b, vs[k]) == vs[k].x + vs[k].u && SourceY(f, b, vs[k]) == vs[k].y + vs[k].v
    requires forall m, i, j :: k < m < |vs| && Covers(f, b, vs[k], i, j) ==> !Covers(f, b, vs[m], i, j)
    ensures BlockInFrame(f, b, vs[k].x, vs[k].y)
    ensures BlockInFrame(f, b, vs[k].x + vs[k].u, vs[k].y + vs[k].v)
    ensures Block(Reconstruct(f, vs, b), vs[k].x, vs[k].y, b) == Block(f, vs[k].x + vs[k].u, vs[k].y + vs[k].v, b)
  {
    var x, y := vs[k].x, vs[k].y;
    SourceBlockInFrame(f, b, vs[k]);
    assert AnchorFits(f, b, vs[k]);
    var r := Reconstruct(f, vs, b);
    forall i, j | y <= i < y + b && x <= j < x + b
      ensures r[i][j] == f[i + vs[k].v][j + vs[k].u]
    {
      assert Covers(f, b, vs[k], i, j);
      UnclampedBlockPixel(f, vs, b, k, i, j);
    }
    BlocksAgree(r, f, x, y, vs[k].u, vs[k].v, b);
  }

  /** A vector with zero displacement and a fitting anchor reads its own
      position: the clamp changes nothing. */
  lemma ZeroDisplacementUnclamped(f: seq<seq<int>>, b: int, mv: MotionVector)
    requires b >= 1 && AnchorFits(f, b, mv) && mv.u == 0 && mv.v == 0
    ensures SourceX(f, b, mv) == mv.x && SourceY(f, b, mv) == mv.y
  {
  }

  /** With all-zero displacements the prediction reproduces the reference on
      every pixel covered by some block. */
  lemma ZeroVectorsCopyReference(f: seq<seq<int>>, vs: seq<MotionVector>, b: int, i: int, j: int)
    requires IsFrame(f) && b >= 1 && AllAnchorsFit(f, b, vs)
    requires forall k :: 0 <= k < |vs| ==> vs[k].u == 0 && vs[k].v == 0
    requires exists k :: 0 <= k < |vs| && Covers(f, b, vs[k], i, j)
    ensures Reconstruct(f, vs, b)[i][j] == f[i][j]
  {
    var k :| 0 <= k < |vs| && Covers(f, b, vs[k], i, j);
    var last := LastCover(f, b, vs, |vs|, i, j);
    assert last >= k;
    LastVectorWins(f, vs, b, last, i, j);
    ZeroDisplacementUnclamped(f, b, vs[last]);
  }

  /** One pixel of `get_residual`: the difference is taken in int16
      (wrapping modulo 2^16), its absolute value in int16, then clipped to
      0..255. For 8-bit inputs neither the wrap nor the clip changes anything. */
  function ResidualPixel(a: int, p: int): (r: int)
    requires IsSample(a) && IsSample(p)
    ensures r == Abs(a - p)
    ensures IsSample(r)
  {
    var diff := Int16(a - p);
    var magnitude := Int16(Abs(diff));
    if magnitude < 0 then 0 else if magnitude > 255 then 255 else magnitude
  }

  /** Two's-complement wrap-around of a 16-bit signed integer. */
  function Int16(d: int): (r: int)
    ensures -0x8000 <= r < 0x8000
    ensures -0x8000 <= d < 0x8000 ==> r == d
    ensures (d - r) % 0x1_0000 == 0
  {
    (d + 0x8000) % 0x1_0000 - 0x8000
  }

  /** `get_residual`: the per-pixel absolute difference of two frames of the same shape. */
  function Residual(a: seq<seq<int>>, p: seq<seq<int>>): (r: seq<seq<int>>)
    requires IsFrame(a) && IsFrame(p) && SameShape(a, p)
    ensures IsFrame(r) && SameShape(r, a)
    ensures forall i, j :: 0 <= i < Height(a) && 0 <= j < Width(a) ==> r[i][j] == Abs(a[i][j] - p[i][j])
  {
    seq(Height(a), i requires 0 <= i < Height(a) =>
      seq(Width(a), j requires 0 <= j < Width(a) => ResidualPixel(a[i][j], p[i][j])))
  }

  /** The residual does not depend on the order of its operands. */
  lemma ResidualSymmetric(a: seq<seq<int>>, p: seq<seq<int>>)
    requires IsFrame(a) && IsFrame(p) && SameShape(a, p)
    ensures Residual(a, p) == Residual(p, a)
  {
    GridExtensionality(Residual(a, p), Residual(p, a), Height(a), Width(a));
  }

  /** The residual is all zero exactly when the two frames are equal. */
  lemma ResidualZeroIff(a: seq<seq<int>>, p: seq<seq<int>>)
    requires IsFrame(a) && IsFrame(p) && SameShape(a, p)
    ensures (forall i, j :: 0 <= i < Height(a) && 0 <= j < Width(a) ==> Residual(a, p)[i][j] == 0) <==> a == p
  {
    var r := Residual(a, p);
    if forall i, j :: 0 <= i < Height(a) && 0 <= j < Width(a) ==> r[i][j] == 0 {
      GridExtensionality(a, p, Height(a), Width(a));
    }
  }
}
