/** Grayscale frames as they flow through the codec simulator: a rectangular
    grid of unsigned 8-bit samples, indexed `f[row][column]` like a numpy
    array of shape (height, width). */
module Frames {

  /** One unsigned 8-bit sample. */
  predicate IsSample(p: int) {
    0 <= p <= 255
  }

  function Height(f: seq<seq<int>>): nat {
    |f|
  }

  /** The width of a frame is the length of its first row (0 for an empty frame). */
  function Width(f: seq<seq<int>>): nat {
    if |f| == 0 then 0 else |f[0]|
  }

  /** `g` has `h` rows of exactly `w` values each. */
  predicate IsGrid(g: seq<seq<int>>, h: int, w: int) {
    && |g| == h
    && forall i :: 0 <= i < |g| ==> |g[i]| == w
  }

  /** A well-formed frame: rectangular, every sample 8-bit. */
  predicate IsFrame(f: seq<seq<int>>) {
    && IsGrid(f, Height(f), Width(f))
    && forall i, j :: 0 <= i < |f| && 0 <= j < |f[i]| ==> IsSample(f[i][j])
  }

  predicate SameShape(a: seq<seq<int>>, b: seq<seq<int>>) {
    Height(a) == Height(b) && Width(a) == Width(b)
  }

  /** The `b`-by-`b` block whose top-left corner is column `x`, row `y`
      (the numpy slice `f[y:y+b, x:x+b]` of a block that lies inside `f`). */
  function Block(f: seq<seq<int>>, x: int, y: int, b: nat): (blk: seq<seq<int>>)
    requires IsFrame(f)
    requires 0 <= x && x + b <= Width(f) && 0 <= y && y + b <= Height(f)
    ensures IsGrid(blk, b, b)
    ensures forall i, j :: 0 <= i < b && 0 <= j < b ==> blk[i][j] == f[y + i][x + j]
  {
    seq(b, i requires 0 <= i < b => f[y + i][x .. x + b])
  }

  /** The all-zero `h`-by-`w` frame (`np.zeros((h, w), dtype=np.uint8)`). */
  function Zeros(h: nat, w: nat): (z: seq<seq<int>>)
    ensures IsGrid(z, h, w)
    ensures forall i, j :: 0 <= i < h && 0 <= j < w ==> z[i][j] == 0
  {
    seq(h, _ => seq(w, _ => 0))
  }

  /** Two grids of the same shape are equal when they agree on every sample. */
  lemma {:induction false} GridExtensionality(a: seq<seq<int>>, c: seq<seq<int>>, h: nat, w: nat)
    requires IsGrid(a, h, w) && IsGrid(c, h, w)
    requires forall i, j :: 0 <= i < h && 0 <= j < w ==> a[i][j] == c[i][j]
    ensures a == c
  {
    forall i | 0 <= i < h
      ensures a[i] == c[i]
    {
      assert forall j :: 0 <= j < w ==> a[i][j] == c[i][j];
    }
  }

  /** The block of `g` at `(x, y)` equals the block of `f` displaced by
      `(du, dv)` when the two frames agree at every displaced position of it. */
  lemma BlocksAgree(g: seq<seq<int>>, f: seq<seq<int>>, x: int, y: int, du: int, dv: int, b: nat)
    requires IsFrame(g) && IsFrame(f)
    requires 0 <= x && x + b <= Width(g) && 0 <= y && y + b <= Height(g)
    requires 0 <= x + du && x + du + b <= Width(f) && 0 <= y + dv && y + dv + b <= Height(f)
    requires forall i, j :: y <= i < y + b && x <= j < x + b ==> g[i][j] == f[i + dv][j + du]
    ensures Block(g, x, y, b) == Block(f, x + du, y + dv, b)
  {
    forall di, dj | 0 <= di < b && 0 <= dj < b
      ensures Block(g, x, y, b)[di][dj] == Block(f, x + du, y + dv, b)[di][dj]
    {
      assert g[y + di][x + dj] == f[y + di + dv][x + dj + du];
      assert (y + dv) + di == y + di + dv && (x + du) + dj == x + dj + du;
    }
    GridExtensionality(Block(g, x, y, b), Block(f, x + du, y + dv, b), b, b);
  }
}
