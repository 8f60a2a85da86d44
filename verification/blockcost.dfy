/** The block-matching cost of `src/motion.py`: the sum of absolute
    differences (SAD) between two blocks of the same shape. */
module BlockCost {
  import opened Frames
  import Arith

  function Abs(d: int): (r: int)
    ensures r >= 0 && (r == d || r == -d)
  {
    if d < 0 then -d else d
  }

  /** Both operands have the same number of rows and each pair of rows the same length. */
  predicate Comparable(a: seq<seq<int>>, c: seq<seq<int>>) {
    |a| == |c| && forall i :: 0 <= i < |a| ==> |a[i]| == |c[i]|
  }

  function RowSad(r1: seq<int>, r2: seq<int>): (d: int)
    requires |r1| == |r2|
    ensures d >= 0
    decreases |r1|
  {
    if |r1| == 0 then 0 else Abs(r1[0] - r2[0]) + RowSad(r1[1..], r2[1..])
  }

  /** The SAD of two blocks, accumulated exactly (the source sums in float32,
      which is exact for these values; see SadFitsFloat32). */
  function Sad(a: seq<seq<int>>, c: seq<seq<int>>): (d: int)
    requires Comparable(a, c)
    ensures d >= 0
    decreases |a|
  {
    if |a| == 0 then 0 else RowSad(a[0], c[0]) + Sad(a[1..], c[1..])
  }

  lemma {:induction false} RowSadSymmetric(r1: seq<int>, r2: seq<int>)
    requires |r1| == |r2|
    ensures RowSad(r1, r2) == RowSad(r2, r1)
    decreases |r1|
  {
    if |r1| > 0 {
      RowSadSymmetric(r1[1..], r2[1..]);
    }
  }

  /** SAD does not depend on the order of its two blocks. */
  lemma {:induction false} SadSymmetric(a: seq<seq<int>>, c: seq<seq<int>>)
    requires Comparable(a, c)
    ensures Sad(a, c) == Sad(c, a)
    decreases |a|
  {
    if |a| > 0 {
      RowSadSymmetric(a[0], c[0]);
      SadSymmetric(a[1..], c[1..]);
    }
  }

  lemma {:induction false} RowSadZeroIff(r1: seq<int>, r2: seq<int>)
    requires |r1| == |r2|
    ensures RowSad(r1, r2) == 0 <==> r1 == r2
    decreases |r1|
  {
    if |r1| > 0 {
      RowSadZeroIff(r1[1..], r2[1..]);
      assert r1 == [r1[0]] + r1[1..];
      assert r2 == [r2[0]] + r2[1..];
    }
  }

  /** Two blocks cost nothing exactly when they are equal. */
  lemma {:induction false} SadZeroIff(a: seq<seq<int>>, c: seq<seq<int>>)
    requires Comparable(a, c)
    ensures Sad(a, c) == 0 <==> a == c
    decreases |a|
  {
    if |a| > 0 {
      RowSadZeroIff(a[0], c[0]);
      SadZeroIff(a[1..], c[1..]);
      assert a == [a[0]] + a[1..];
      assert c == [c[0]] + c[1..];
    }
  }

  lemma {:induction false} RowSadBound(r1: seq<int>, r2: seq<int>)
    requires |r1| == |r2|
    requires forall j :: 0 <= j < |r1| ==> IsSample(r1[j]) && IsSample(r2[j])
    ensures RowSad(r1, r2) <= 255 * |r1|
    decreases |r1|
  {
    if |r1| > 0 {
      RowSadBound(r1[1..], r2[1..]);
    }
  }

  /** An `h`-by-`w` pair of 8-bit blocks costs at most `255*(h*w)`. */
  lemma {:induction false} SadBound(a: seq<seq<int>>, c: seq<seq<int>>, h: nat, w: nat)
    requires IsGrid(a, h, w) && IsGrid(c, h, w)
    requires forall i, j :: 0 <= i < h && 0 <= j < w ==> IsSample(a[i][j]) && IsSample(c[i][j])
    ensures Sad(a, c) <= 255 * (h * w)
    decreases h
  {
    if h > 0 {
      RowSadBound(a[0], c[0]);
      SadBound(a[1..], c[1..], h - 1, w);
      Arith.MulSucc(h - 1, w);
    }
  }

  /** Every partial sum of the float32 accumulator is a non-negative integer
      no larger than the full SAD, so it is exact in float32 (24-bit
      significand) as long as the block side is at most 256. */
  lemma SadFitsFloat32(a: seq<seq<int>>, c: seq<seq<int>>, b: nat)
    requires b <= 256
    requires IsGrid(a, b, b) && IsGrid(c, b, b)
    requires forall i, j :: 0 <= i < b && 0 <= j < b ==> IsSample(a[i][j]) && IsSample(c[i][j])
    ensures Sad(a, c) <= 0x100_0000
  {
    SadBound(a, c, b, b);
    Arith.MulMonotone(b, 256, b);
    Arith.MulMonotone(b, 256, 256);
  }
}
