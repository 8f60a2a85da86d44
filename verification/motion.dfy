/** Full-search block matching (`src/motion.py`): for every block of the
    current frame, the displacement into the reference frame whose block has
    the smallest SAD, searched in a window around the block. */
module Motion {
  import opened Frames
  import opened BlockCost
  import Arith

  /** A recorded cost: an exact SAD, or the `float('inf')` sentinel of a block
      whose search window is empty. */
  datatype Cost = Finite(value: int) | Infinite {
    /** `this < other`, as Python orders a float cost against infinity. */
    predicate Less(other: Cost) {
      match this
      case Infinite => false
      case Finite(a) => other.Infinite? || a < other.value
    }
  }

  /** One entry of the vector field: block anchor `(x, y)` in the current
      frame, displacement `(u, v)` to its match, and the match's cost. */
  datatype MotionVector = MotionVector(x: int, y: int, u: int, v: int, cost: Cost)

  /** Preconditions of the estimator: two 8-bit frames of the same shape and
      a positive block size. */
  predicate Matchable(reference: seq<seq<int>>, current: seq<seq<int>>, b: int) {
    IsFrame(reference) && IsFrame(current) && SameShape(reference, current) && b >= 1
  }

  predicate BlockInFrame(f: seq<seq<int>>, b: int, x: int, y: int) {
    0 <= x && x + b <= Width(f) && 0 <= y && y + b <= Height(f)
  }

  /** First candidate coordinate of the window, `max(0, p - s)`. */
  function WindowStart(p: int, s: int): (r: int)
    ensures r >= 0 && r >= p - s
    ensures r == 0 || r == p - s
  {
    if p - s > 0 then p - s else 0
  }

  /** Exclusive end of the window, `min(extent - b, p + s)`. */
  function WindowEnd(p: int, s: int, extent: int, b: int): (r: int)
    ensures r <= extent - b && r <= p + s
    ensures r == extent - b || r == p + s
  {
    if extent - b < p + s then extent - b else p + s
  }

  predicate InWindow(p: int, r: int, s: int, extent: int, b: int) {
    WindowStart(p, s) <= r < WindowEnd(p, s, extent, b)
  }

  /** `(rx, ry)` is a candidate anchor in the reference for the block at `(x, y)`. */
  predicate IsCandidate(f: seq<seq<int>>, b: int, s: int, x: int, y: int, rx: int, ry: int) {
    InWindow(y, ry, s, Height(f), b) && InWindow(x, rx, s, Width(f), b)
  }

  predicate WindowEmpty(f: seq<seq<int>>, b: int, s: int, x: int, y: int) {
    || WindowStart(y, s) >= WindowEnd(y, s, Height(f), b)
    || WindowStart(x, s) >= WindowEnd(x, s, Width(f), b)
  }

  /** The scan order of the search: rows of candidates (`ry`) outer, columns (`rx`) inner. */
  predicate ScanBefore(ry1: int, rx1: int, ry2: int, rx2: int) {
    ry1 < ry2 || (ry1 == ry2 && rx1 < rx2)
  }

  /** The SAD between the current block at `(x, y)` and the reference block at `(rx, ry)`. */
  function CandidateCost(reference: seq<seq<int>>, current: seq<seq<int>>, b: int,
                         x: int, y: int, rx: int, ry: int): (d: int)
    requires Matchable(reference, current, b)
    requires BlockInFrame(current, b, x, y) && BlockInFrame(reference, b, rx, ry)
    ensures d >= 0
  {
    Sad(Block(current, x, y, b), Block(reference, rx, ry, b))
  }

  /** The costs of every in-frame candidate of the block at `(x, y)`, as one function. */
  ghost function CostTable(reference: seq<seq<int>>, current: seq<seq<int>>, b: int, x: int, y: int)
    : (cost: (int, int) -> int)
    requires Matchable(reference, current, b) && BlockInFrame(current, b, x, y)
    ensures forall rx, ry :: BlockInFrame(reference, b, rx, ry) ==>
              cost(rx, ry) == CandidateCost(reference, current, b, x, y, rx, ry)
  {
    (rx: int, ry: int) =>
      if BlockInFrame(reference, b, rx, ry) then CandidateCost(reference, current, b, x, y, rx, ry) else 0
  }

  /** `mv` is the first minimum, in scan order, of `cost` over the window
      `[y0, y1) x [x0, x1)` of anchors, its displacement taken from its own
      anchor `(mv.x, mv.y)`. With an empty window it is the `(0, 0)` default
      with infinite cost; otherwise it points into the window and records
      the cost there, no anchor of the window is cheaper, and every anchor
      scanned before it is strictly dearer. */
  ghost predicate IsFirstMinimum(cost: (int, int) -> int, y0: int, y1: int, x0: int, x1: int, mv: MotionVector) {
    if y0 >= y1 || x0 >= x1 then
      mv.u == 0 && mv.v == 0 && mv.cost == Infinite
    else
      var cx, cy := mv.x + mv.u, mv.y + mv.v;
      && y0 <= cy < y1 && x0 <= cx < x1
      && mv.cost == Finite(cost(cx, cy))
      && (forall ry, rx :: y0 <= ry < y1 && x0 <= rx < x1 ==> mv.cost.value <= cost(rx, ry))
      && (forall ry, rx :: y0 <= ry < y1 && x0 <= rx < x1 && ScanBefore(ry, rx, cy, cx) ==>
            mv.cost.value < cost(rx, ry))
  }

  /** What the search promises for the block at `(mv.x, mv.y)`: the first
      minimum of the candidates' SADs over its search window. */
  ghost predicate IsBestMatch(reference: seq<seq<int>>, current: seq<seq<int>>, b: int, s: int,
                              mv: MotionVector)
    requires Matchable(reference, current, b)
    requires BlockInFrame(current, b, mv.x, mv.y)
  {
    IsFirstMinimum(CostTable(reference, current, b, mv.x, mv.y),
                   WindowStart(mv.y, s), WindowEnd(mv.y, s, Height(current), b),
                   WindowStart(mv.x, s), WindowEnd(mv.x, s, Width(current), b), mv)
  }

  /** Every candidate block lies inside the reference, one column and one row
      short of its right and bottom edges, so the source's shape check never
      skips a candidate. */
  lemma CandidateInsideReference(f: seq<seq<int>>, b: int, s: int, x: int, y: int, rx: int, ry: int)
    requires IsCandidate(f, b, s, x, y, rx, ry)
    ensures 0 <= rx && rx + b < Width(f) && 0 <= ry && ry + b < Height(f)
  {
  }

  /** The search state `mv` of the block at `(mv.x, mv.y)` after scanning, in
      scan order, every candidate of the window `[y0, ..) x [x0, x1)` before
      `(rx, ry)`, where `cost(cx, cy)` is the cost of candidate `(cx, cy)`:
      `mv` holds the first cheapest candidate seen so far, or the default
      `(0, 0)` with infinite cost when none has been seen. */
  ghost predicate BestBefore(cost: (int, int) -> int, y0: int, x0: int, x1: int, ry: int, rx: int, mv: MotionVector)
  {
    && (forall cy, cx :: y0 <= cy && x0 <= cx < x1 && ScanBefore(cy, cx, ry, rx) ==>
          mv.cost.Finite? && mv.cost.value <= cost(cx, cy))
    && (mv.cost.Infinite? ==> mv.u == 0 && mv.v == 0)
    && (mv.cost.Finite? ==>
          && y0 <= mv.y + mv.v && x0 <= mv.x + mv.u < x1 && ScanBefore(mv.y + mv.v, mv.x + mv.u, ry, rx)
          && mv.cost.value == cost(mv.x + mv.u, mv.y + mv.v)
          && forall cy, cx :: y0 <= cy && x0 <= cx < x1 && ScanBefore(cy, cx, mv.y + mv.v, mv.x + mv.u) ==>
               mv.cost.value < cost(cx, cy))
  }

  /** Scanning candidate `(rx, ry)`, of cost `d`, keeps the state when it is
      not strictly cheaper than the best so far, ... */
  lemma ScanKeep(cost: (int, int) -> int, y0: int, x0: int, x1: int, ry: int, rx: int, mv: MotionVector, d: int)
    requires y0 <= ry && x0 <= rx < x1
    requires BestBefore(cost, y0, x0, x1, ry, rx, mv)
    requires d == cost(rx, ry) && !Finite(d).Less(mv.cost)
    ensures BestBefore(cost, y0, x0, x1, ry, rx + 1, mv)
  {
  }

  /** ... and makes it the new best otherwise. */
  lemma ScanTake(cost: (int, int) -> int, y0: int, x0: int, x1: int, ry: int, rx: int, mv: MotionVector, d: int,
                 next: MotionVector)
    requires y0 <= ry && x0 <= rx < x1
    requires BestBefore(cost, y0, x0, x1, ry, rx, mv)
    requires d == cost(rx, ry) && Finite(d).Less(mv.cost)
    requires next == MotionVector(mv.x, mv.y, rx - mv.x, ry - mv.y, Finite(d))
    ensures BestBefore(cost, y0, x0, x1, ry, rx + 1, next)
  {
  }

  /** Finishing a row of candidates moves the scan to the start of the next row. */
  lemma RowDone(cost: (int, int) -> int, y0: int, x0: int, x1: int, ry: int, rx: int, mv: MotionVector)
    requires rx >= x1
    requires BestBefore(cost, y0, x0, x1, ry - 1, rx, mv)
    ensures BestBefore(cost, y0, x0, x1, ry, x0, mv)
  {
    forall cy, cx | y0 <= cy && x0 <= cx < x1 && ScanBefore(cy, cx, ry, x0)
      ensures mv.cost.Finite? && mv.cost.value <= cost(cx, cy)
    {
      assert ScanBefore(cy, cx, ry - 1, rx);
    }
  }

  /** Once every row of the window `[y0, y1) x [x0, x1)` has been scanned,
      the state is the window's first minimum. */
  lemma SearchDone(cost: (int, int) -> int, y0: int, y1: int, x0: int, x1: int, ry: int, mv: MotionVector)
    requires y0 <= ry && (ry == y1 || (ry == y0 && y1 <= y0))
    requires BestBefore(cost, y0, x0, x1, ry, x0, mv)
    ensures IsFirstMinimum(cost, y0, y1, x0, x1, mv)
  {
    if mv.cost.Finite? {
      assert mv.y + mv.v < ry;
    }
    if y0 < y1 && x0 < x1 {
      assert ScanBefore(y0, x0, ry, x0);
    }
  }

  /** `cost` gives the SAD of every candidate of row `ry` between columns `x0` and `x1`. */
  ghost predicate RowCosts(reference: seq<seq<int>>, current: seq<seq<int>>, b: int, x: int, y: int,
                           cost: (int, int) -> int, x0: int, x1: int, ry: int)
    requires Matchable(reference, current, b) && BlockInFrame(current, b, x, y)
    requires 0 <= ry && 0 <= x0 && ry + b <= Height(current) && x1 + b <= Width(current)
  {
    forall rx {:trigger CandidateCost(reference, current, b, x, y, rx, ry)} :: x0 <= rx < x1 ==>
      cost(rx, ry) == CandidateCost(reference, current, b, x, y, rx, ry)
  }

  /** The SAD of candidate `(rx, ry)`: `sad(current_block, reference_block)`
      with the reference block sliced at the candidate. */
  method MatchCost(reference: seq<seq<int>>, current: seq<seq<int>>, b: int, x: int, y: int,
                   ghost cost: (int, int) -> int, x0: int, x1: int, rx: int, ry: int)
    returns (d: int)
    requires Matchable(reference, current, b) && BlockInFrame(current, b, x, y)
    requires 0 <= ry && 0 <= x0 <= rx < x1 && ry + b <= Height(current) && x1 + b <= Width(current)
    requires RowCosts(reference, current, b, x, y, cost, x0, x1, ry)
    ensures d == cost(rx, ry)
  {
    var currentBlock := Block(current, x, y, b);
    var referenceBlock := Block(reference, rx, ry, b);
    d := Sad(currentBlock, referenceBlock);
    assert d == CandidateCost(reference, current, b, x, y, rx, ry);
  }

  /** One candidate `(rx, ry)` of the search: its SAD is computed and it
      replaces the best so far only when strictly cheaper, so the state stays
      the first cheapest candidate seen. */
  method ScanCandidate(reference: seq<seq<int>>, current: seq<seq<int>>, b: int, x: int, y: int,
                       ghost cost: (int, int) -> int, y0: int, x0: int, x1: int, rx: int, ry: int,
                       mv: MotionVector)
    returns (next: MotionVector)
    requires Matchable(reference, current, b) && BlockInFrame(current, b, x, y)
    requires 0 <= ry && 0 <= x0 <= rx < x1 && ry + b <= Height(current) && x1 + b <= Width(current)
    requires RowCosts(reference, current, b, x, y, cost, x0, x1, ry)
    requires y0 <= ry && mv.x == x && mv.y == y
    requires BestBefore(cost, y0, x0, x1, ry, rx, mv)
    ensures next.x == x && next.y == y
    ensures BestBefore(cost, y0, x0, x1, ry, rx + 1, next)
  {
    var d := MatchCost(reference, current, b, x, y, cost, x0, x1, rx, ry);
    if Finite(d).Less(mv.cost) {
      next := MotionVector(mv.x, mv.y, rx - mv.x, ry - mv.y, Finite(d));
      ScanTake(cost, y0, x0, x1, ry, rx, mv, d, next);
    } else {
      next := mv;
      ScanKeep(cost, y0, x0, x1, ry, rx, mv, d);
    }
  }

  /** The candidates of row `ry`: the innermost loop of `get_motion_vectors`.
      Given the first cheapest candidate of the rows before `ry`, it leaves
      the first cheapest candidate of the rows up to and including `ry`. */
  method ScanRow(reference: seq<seq<int>>, current: seq<seq<int>>, b: int, x: int, y: int,
                 ghost cost: (int, int) -> int, y0: int, x0: int, x1: int, ry: int, mv0: MotionVector)
    returns (mv: MotionVector)
    requires Matchable(reference, current, b) && BlockInFrame(current, b, x, y)
    requires 0 <= ry && 0 <= x0 && ry + b <= Height(current) && x1 + b <= Width(current)
    requires RowCosts(reference, current, b, x, y, cost, x0, x1, ry)
    requires y0 <= ry && mv0.x == x && mv0.y == y
    requires BestBefore(cost, y0, x0, x1, ry, x0, mv0)
    ensures mv.x == x && mv.y == y
    ensures BestBefore(cost, y0, x0, x1, ry + 1, x0, mv)
  {
    mv := mv0;
    var rx := x0;
    while rx < x1
      invariant x0 <= rx && (rx <= x1 || rx == x0)
      invariant mv.x == x && mv.y == y
      invariant BestBefore(cost, y0, x0, x1, ry, rx, mv)
    {
      mv := ScanCandidate(reference, current, b, x, y, cost, y0, x0, x1, rx, ry, mv);
      rx := rx + 1;
    }
    RowDone(cost, y0, x0, x1, ry + 1, rx, mv);
  }

  /** The two middle loops of `get_motion_vectors` over the window
      `[y0, y1) x [x0, x1)`, starting from the `(0, 0)` / infinite-cost
      default: the result is the window's first minimum. */
  method ScanWindow(reference: seq<seq<int>>, current: seq<seq<int>>, b: int, x: int, y: int,
                    ghost cost: (int, int) -> int, y0: int, y1: int, x0: int, x1: int)
    returns (mv: MotionVector)
    requires Matchable(reference, current, b) && BlockInFrame(current, b, x, y)
    requires 0 <= y0 && 0 <= x0 && y1 + b <= Height(current) && x1 + b <= Width(current)
    requires forall rx, ry :: BlockInFrame(reference, b, rx, ry) ==>
               cost(rx, ry) == CandidateCost(reference, current, b, x, y, rx, ry)
    ensures mv.x == x && mv.y == y
    ensures IsFirstMinimum(cost, y0, y1, x0, x1, mv)
  {
    mv := MotionVector(x, y, 0, 0, Infinite);
    var ry := y0;
    while ry < y1
      invariant y0 <= ry && (ry <= y1 || ry == y0)
      invariant mv.x == x && mv.y == y
      invariant BestBefore(cost, y0, x0, x1, ry, x0, mv)
    {
      assert RowCosts(reference, current, b, x, y, cost, x0, x1, ry);
      mv := ScanRow(reference, current, b, x, y, cost, y0, x0, x1, ry, mv);
      ry := ry + 1;
    }
    SearchDone(cost, y0, y1, x0, x1, ry, mv);
  }

  /** The search over one block of `get_motion_vectors`. */
  method SearchBlock(reference: seq<seq<int>>, current: seq<seq<int>>, b: int, s: int, x: int, y: int)
    returns (mv: MotionVector)
    requires Matchable(reference, current, b)
    requires BlockInFrame(current, b, x, y)
    ensures mv.x == x && mv.y == y
    ensures IsBestMatch(reference, current, b, s, mv)
  {
    var y0, y1 := WindowStart(y, s), WindowEnd(y, s, Height(current), b);
    var x0, x1 := WindowStart(x, s), WindowEnd(x, s, Width(current), b);
    ghost var cost := CostTable(reference, current, b, x, y);
    mv := ScanWindow(reference, current, b, x, y, cost, y0, y1, x0, x1);
  }

  /** `mv` is the `k`-th vector of a field over a grid with `cols` block
      columns: anchored at block row `k / cols`, block column `k % cols`,
      inside the frame, and the search's answer for that block. */
  ghost predicate GridVector(reference: seq<seq<int>>, current: seq<seq<int>>, b: int, s: int,
                             cols: int, k: int, mv: MotionVector)
    requires Matchable(reference, current, b)
  {
    && cols > 0
    && mv.y == (k / cols) * b
    && mv.x == (k % cols) * b
    && BlockInFrame(current, b, mv.x, mv.y)
    && IsBestMatch(reference, current, b, s, mv)
  }

  /** The whole vector field for `(reference, current)`: one vector per
      `b`-by-`b` block of the grid, in raster order, each the search's answer
      for its block. Trailing partial rows and columns have no vector. */
  ghost predicate IsMotionField(reference: seq<seq<int>>, current: seq<seq<int>>, b: int, s: int,
                                vs: seq<MotionVector>)
    requires Matchable(reference, current, b)
  {
    var cols := Width(current) / b;
    && |vs| == (Height(current) / b) * cols
    && forall k {:trigger GridVector(reference, current, b, s, cols, k, vs[k])} :: 0 <= k < |vs| ==> GridVector(reference, current, b, s, cols, k, vs[k])
  }

  /** The search for the block in grid row `row`, column `col` produces the
      vector at raster index `row * cols + col`. */
  lemma NextGridVector(reference: seq<seq<int>>, current: seq<seq<int>>, b: int, s: int,
                       cols: int, row: int, col: int, mv: MotionVector)
    requires Matchable(reference, current, b)
    requires 0 <= row && 0 <= col < cols
    requires mv.x == col * b && mv.y == row * b && BlockInFrame(current, b, mv.x, mv.y)
    requires IsBestMatch(reference, current, b, s, mv)
    ensures GridVector(reference, current, b, s, cols, row * cols + col, mv)
  {
    Arith.DivModUnique(row * cols + col, row, col, cols);
  }

  /** `get_motion_vectors`: block rows `y` in the outer loop, block columns
      `x` in the inner loop, one search per block. */
  method GetMotionVectors(reference: seq<seq<int>>, current: seq<seq<int>>, b: int, s: int)
    returns (vs: seq<MotionVector>)
    requires Matchable(reference, current, b)
    ensures IsMotionField(reference, current, b, s, vs)
  {
    var height, width := Height(current), Width(current);
    var rows, cols := height / b, width / b;
    Arith.DivMulLe(height, b);
    Arith.DivMulLe(width, b);
    vs := [];
    var y, row := 0, 0;
    while y <= height - b
      invariant 0 <= row <= rows && y == row * b
      invariant |vs| == row * cols
      invariant forall k {:trigger GridVector(reference, current, b, s, cols, k, vs[k])} :: 0 <= k < |vs| ==> GridVector(reference, current, b, s, cols, k, vs[k])
    {
      Arith.MulSucc(row, b);
      Arith.MulLeDiv(row + 1, b, height);
      var x, col := 0, 0;
      while x <= width - b
        invariant 0 <= col <= cols && x == col * b
        invariant |vs| == row * cols + col
        invariant forall k {:trigger GridVector(reference, current, b, s, cols, k, vs[k])} :: 0 <= k < |vs| ==> GridVector(reference, current, b, s, cols, k, vs[k])
      {
        Arith.MulSucc(col, b);
        Arith.MulLeDiv(col + 1, b, width);
        var mv := SearchBlock(reference, current, b, s, x, y);
        NextGridVector(reference, current, b, s, cols, row, col, mv);
        vs := vs + [mv];
        x, col := x + b, col + 1;
      }
      if col < cols {
        Arith.MulMonotone(col + 1, cols, b);
        assert false;
      }
      y, row := y + b, row + 1;
    }
    if row < rows {
      Arith.MulMonotone(row + 1, rows, b);
      assert false;
    }
  }

  /** A window has one first minimum: two vectors anchored at the same
      block that are both first minima of the same costs are equal. */
  lemma FirstMinimumUnique(cost: (int, int) -> int, y0: int, y1: int, x0: int, x1: int,
                           mv1: MotionVector, mv2: MotionVector)
    requires mv1.x == mv2.x && mv1.y == mv2.y
    requires IsFirstMinimum(cost, y0, y1, x0, x1, mv1) && IsFirstMinimum(cost, y0, y1, x0, x1, mv2)
    ensures mv1 == mv2
  {
    if y0 < y1 && x0 < x1 {
      var x, y := mv1.x, mv1.y;
      assert mv1.cost.value <= cost(x + mv2.u, y + mv2.v);
      assert mv2.cost.value <= cost(x + mv1.u, y + mv1.v);
    }
  }

  /** The search's answer is unique: two vectors that both satisfy the
      best-match contract for the same block are the same vector, so the
      first-minimum tie-break fixes the result completely. */
  lemma BestMatchUnique(reference: seq<seq<int>>, current: seq<seq<int>>, b: int, s: int,
                        mv1: MotionVector, mv2: MotionVector)
    requires Matchable(reference, current, b)
    requires mv1.x == mv2.x && mv1.y == mv2.y && BlockInFrame(current, b, mv1.x, mv1.y)
    requires IsBestMatch(reference, current, b, s, mv1) && IsBestMatch(reference, current, b, s, mv2)
    ensures mv1 == mv2
  {
    var x, y := mv1.x, mv1.y;
    FirstMinimumUnique(CostTable(reference, current, b, x, y),
                       WindowStart(y, s), WindowEnd(y, s, Height(current), b),
                       WindowStart(x, s), WindowEnd(x, s, Width(current), b), mv1, mv2);
  }

  /** With a non-empty window the displacement stays within `-s .. s-1` on
      each axis and points at a block strictly inside the reference's
      right and bottom edges. */
  lemma ChosenDisplacementBounds(reference: seq<seq<int>>, current: seq<seq<int>>, b: int, s: int,
                                 mv: MotionVector)
    requires Matchable(reference, current, b) && BlockInFrame(current, b, mv.x, mv.y)
    requires IsBestMatch(reference, current, b, s, mv)
    requires !WindowEmpty(current, b, s, mv.x, mv.y)
    ensures -s <= mv.u <= s - 1 && -s <= mv.v <= s - 1
    ensures 0 <= mv.x + mv.u < Width(current) - b && 0 <= mv.y + mv.v < Height(current) - b
    ensures mv.cost.Finite?
  {
  }

  /** A finite recorded cost is the SAD between the block and the reference
      block the vector points at. */
  lemma RecordedCost(reference: seq<seq<int>>, current: seq<seq<int>>, b: int, s: int, mv: MotionVector)
    requires Matchable(reference, current, b) && BlockInFrame(current, b, mv.x, mv.y)
    requires IsBestMatch(reference, current, b, s, mv)
    requires mv.cost.Finite?
    ensures BlockInFrame(reference, b, mv.x + mv.u, mv.y + mv.v)
    ensures mv.cost.value == Sad(Block(current, mv.x, mv.y, b), Block(reference, mv.x + mv.u, mv.y + mv.v, b))
  {
  }

  /** Vector `k` of a field with a finite cost records the SAD between its
      block and the reference block it points at. */
  lemma FieldRecordedCost(reference: seq<seq<int>>, current: seq<seq<int>>, b: int, s: int,
                          vs: seq<MotionVector>, k: int)
    requires Matchable(reference, current, b)
    requires IsMotionField(reference, current, b, s, vs)
    requires 0 <= k < |vs| && vs[k].cost.Finite?
    ensures BlockInFrame(current, b, vs[k].x, vs[k].y)
    ensures BlockInFrame(reference, b, vs[k].x + vs[k].u, vs[k].y + vs[k].v)
    ensures vs[k].cost.value == Sad(Block(current, vs[k].x, vs[k].y, b), Block(reference, vs[k].x + vs[k].u, vs[k].y + vs[k].v, b))
  {
    assert GridVector(reference, current, b, s, Width(current) / b, k, vs[k]);
    RecordedCost(reference, current, b, s, vs[k]);
  }

  /** An empty window yields the sentinel `(0, 0)` with infinite cost; with a
      zero or negative search radius every window is empty. */
  lemma EmptyWindowSentinel(reference: seq<seq<int>>, current: seq<seq<int>>, b: int, s: int,
                            mv: MotionVector)
    requires Matchable(reference, current, b) && BlockInFrame(current, b, mv.x, mv.y)
    requires IsBestMatch(reference, current, b, s, mv)
    requires s <= 0 || Height(current) == b || Width(current) == b
    ensures mv.u == 0 && mv.v == 0 && mv.cost == Infinite
  {
    assert WindowEmpty(current, b, s, mv.x, mv.y);
  }

  /** A block anchored on the last possible row or column is never compared
      with its own position: the window's end is exclusive. */
  lemma EdgeBlockSkipsOwnAnchor(current: seq<seq<int>>, b: int, s: int, x: int, y: int)
    requires y == Height(current) - b || x == Width(current) - b
    ensures !IsCandidate(current, b, s, x, y, x, y)
  {
  }

  /** When both frames are equal and the block's own position is a candidate,
      the recorded cost is 0 (though the vector need not be `(0, 0)`). */
  lemma IdenticalFramesZeroCost(f: seq<seq<int>>, b: int, s: int, mv: MotionVector)
    requires Matchable(f, f, b) && BlockInFrame(f, b, mv.x, mv.y)
    requires IsBestMatch(f, f, b, s, mv)
    requires IsCandidate(f, b, s, mv.x, mv.y, mv.x, mv.y)
    ensures mv.cost == Finite(0)
  {
    SadZeroIff(Block(f, mv.x, mv.y, b), Block(f, mv.x, mv.y, b));
    assert CandidateCost(f, f, b, mv.x, mv.y, mv.x, mv.y) == 0;
  }

  /** In a frame of one flat colour, matched against itself, every candidate costs 0. */
  lemma FlatFrameZeroCost(f: seq<seq<int>>, c: int, b: int, x: int, y: int, rx: int, ry: int)
    requires Matchable(f, f, b) && BlockInFrame(f, b, x, y) && BlockInFrame(f, b, rx, ry)
    requires forall i, j :: 0 <= i < Height(f) && 0 <= j < Width(f) ==> f[i][j] == c
    ensures CandidateCost(f, f, b, x, y, rx, ry) == 0
  {
    GridExtensionality(Block(f, x, y, b), Block(f, rx, ry, b), b, b);
    SadZeroIff(Block(f, x, y, b), Block(f, rx, ry, b));
  }

  /** When the first anchor of a window costs 0 and no cost is negative,
      the first minimum is that anchor. */
  lemma FirstMinimumAtZero(cost: (int, int) -> int, y0: int, y1: int, x0: int, x1: int, mv: MotionVector)
    requires y0 < y1 && x0 < x1
    requires IsFirstMinimum(cost, y0, y1, x0, x1, mv)
    requires cost(x0, y0) == 0
    requires forall ry, rx :: y0 <= ry < y1 && x0 <= rx < x1 ==> cost(rx, ry) >= 0
    ensures mv.x + mv.u == x0 && mv.y + mv.v == y0 && mv.cost == Finite(0)
  {
    var cx, cy := mv.x + mv.u, mv.y + mv.v;
    if cx != x0 || cy != y0 {
      assert ScanBefore(y0, x0, cy, cx);
    }
  }

  /** Repeating content defeats the `(0, 0)` expectation: in a frame of one
      flat colour matched against itself, every block with a non-empty
      window points at the window's first anchor `(max(0, x - s), max(0, y - s))`
      at cost 0, not at its own position. */
  lemma FlatFramePicksFirstCandidate(f: seq<seq<int>>, c: int, b: int, s: int, mv: MotionVector)
    requires Matchable(f, f, b) && BlockInFrame(f, b, mv.x, mv.y)
    requires forall i, j :: 0 <= i < Height(f) && 0 <= j < Width(f) ==> f[i][j] == c
    requires IsBestMatch(f, f, b, s, mv)
    requires !WindowEmpty(f, b, s, mv.x, mv.y)
    ensures mv.u == WindowStart(mv.x, s) - mv.x && mv.v == WindowStart(mv.y, s) - mv.y
    ensures mv.cost == Finite(0)
  {
    var x, y := mv.x, mv.y;
    var cost := CostTable(f, f, b, x, y);
    var y0, y1 := WindowStart(y, s), WindowEnd(y, s, Height(f), b);
    var x0, x1 := WindowStart(x, s), WindowEnd(x, s, Width(f), b);
    forall ry, rx | y0 <= ry < y1 && x0 <= rx < x1
      ensures cost(rx, ry) >= 0
    {
      assert BlockInFrame(f, b, rx, ry);
    }
    assert BlockInFrame(f, b, x0, y0);
    FlatFrameZeroCost(f, c, b, x, y, x0, y0);
    FirstMinimumAtZero(cost, y0, y1, x0, x1, mv);
  }

  /** Raster indices map to block anchors in scan order, each a multiple of `b`. */
  lemma RasterIndexOrder(k1: int, k2: int, cols: int, b: int)
    requires 0 <= k1 < k2 && cols >= 1 && b >= 1
    ensures ScanBefore((k1 / cols) * b, (k1 % cols) * b, (k2 / cols) * b, (k2 % cols) * b)
    ensures ((k1 / cols) * b) % b == 0 && ((k1 % cols) * b) % b == 0
  {
    var q1, r1, q2, r2 := k1 / cols, k1 % cols, k2 / cols, k2 % cols;
    assert k1 == q1 * cols + r1 && k2 == q2 * cols + r2;
    if q1 > q2 {
      Arith.MulMonotone(q2 + 1, q1, cols);
      assert false;
    }
    CellScanOrder(q1, r1, q2, r2, b);
  }

  /** Grid cell `(q1, r1)` precedes cell `(q2, r2)` in raster order, so the
      anchor of the first is scanned before the anchor of the second. */
  lemma CellScanOrder(q1: int, r1: int, q2: int, r2: int, b: int)
    requires q1 < q2 || (q1 == q2 && r1 < r2)
    requires b >= 1
    ensures ScanBefore(q1 * b, r1 * b, q2 * b, r2 * b)
    ensures (q1 * b) % b == 0 && (r1 * b) % b == 0
  {
    if q1 < q2 {
      Arith.MulMonotone(q1 + 1, q2, b);
    } else {
      Arith.MulMonotone(r1 + 1, r2, b);
    }
    Arith.DivModUnique(q1 * b, q1, 0, b);
    Arith.DivModUnique(r1 * b, r1, 0, b);
  }

  /** Vectors of a field are in raster order: an earlier vector's anchor lies
      on an earlier block row, or on the same row further left; every anchor
      is a multiple of the block size. */
  lemma FieldRasterOrder(reference: seq<seq<int>>, current: seq<seq<int>>, b: int, s: int,
                         vs: seq<MotionVector>, k1: int, k2: int)
    requires Matchable(reference, current, b)
    requires IsMotionField(reference, current, b, s, vs)
    requires 0 <= k1 < k2 < |vs|
    ensures ScanBefore(vs[k1].y, vs[k1].x, vs[k2].y, vs[k2].x)
    ensures vs[k1].y % b == 0 && vs[k1].x % b == 0
  {
    var cols := Width(current) / b;
    assert GridVector(reference, current, b, s, cols, k1, vs[k1]);
    assert GridVector(reference, current, b, s, cols, k2, vs[k2]);
    RasterIndexOrder(k1, k2, cols, b);
  }
}
