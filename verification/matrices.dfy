/**
 * Dense two-dimensional arrays as the motion-deblur pipeline handles them:
 * an explicit row count, column count and row-major cells, like OpenCV's `Mat`.
 * Every stage (PSF, spectrum planes, Wiener transfer function, image) is one.
 */
module Matrices {

  /** A matrix header with its cells. `rows` is the height, `cols` the width. */
  datatype Mat<T> = Mat(rows: nat, cols: nat, cells: seq<seq<T>>) {

    /** The cells really form a `rows` by `cols` rectangle. */
    predicate Valid() {
      |cells| == rows && forall i :: 0 <= i < |cells| ==> |cells[i]| == cols
    }
  }

  /** Only rectangular matrices exist. */
  type Matrix<T> = m: Mat<T> | m.Valid() witness Mat(0, 0, [])

  /** Two matrices have the same width and height. */
  predicate SameShape<T, U>(a: Matrix<T>, b: Matrix<U>) {
    a.rows == b.rows && a.cols == b.cols
  }

  /** Two matrices of one shape agree at every index. */
  lemma SameCellsEqual<T>(a: Matrix<T>, b: Matrix<T>)
    requires SameShape(a, b)
    requires forall i, j :: 0 <= i < a.rows && 0 <= j < a.cols ==> a.cells[i][j] == b.cells[i][j]
    ensures a == b
  {
    forall i | 0 <= i < a.rows
      ensures a.cells[i] == b.cells[i]
    {
    }
  }

  /**
   * The `h` by `w` sub-matrix whose top-left corner is at row `r0`, column `c0`:
   * what copying a `Rect(c0, r0, w, h)` region of interest out of `m` produces.
   */
  function Block<T>(m: Matrix<T>, r0: nat, c0: nat, h: nat, w: nat): (b: Matrix<T>)
    requires r0 + h <= m.rows && c0 + w <= m.cols
    ensures b.rows == h && b.cols == w
    ensures forall i, j {:trigger b.cells[i][j]} :: 0 <= i < h && 0 <= j < w ==> b.cells[i][j] == m.cells[r0 + i][c0 + j]
  {
    Mat(h, w, seq(h, i requires 0 <= i < h => seq(w, j requires 0 <= j < w => m.cells[r0 + i][c0 + j])))
  }

  /** Whether cell (i, j) lies in the `h` by `w` region whose corner is (r0, c0). */
  predicate InRegion(i: int, j: int, r0: nat, c0: nat, h: nat, w: nat) {
    r0 <= i < r0 + h && c0 <= j < c0 + w
  }

  /**
   * `dst` with the block `b` written over the region whose top-left corner is
   * (r0, c0): what copying `b` into a region of interest of `dst` does.
   * Cells outside the region keep their values.
   */
  function Paste<T>(dst: Matrix<T>, b: Matrix<T>, r0: nat, c0: nat): (p: Matrix<T>)
    requires r0 + b.rows <= dst.rows && c0 + b.cols <= dst.cols
    ensures SameShape(p, dst)
    ensures forall i, j {:trigger p.cells[i][j]} :: 0 <= i < dst.rows && 0 <= j < dst.cols ==>
              p.cells[i][j] == if InRegion(i, j, r0, c0, b.rows, b.cols) then b.cells[i - r0][j - c0] else dst.cells[i][j]
  {
    Mat(dst.rows, dst.cols,
        seq(dst.rows, i requires 0 <= i < dst.rows =>
          seq(dst.cols, j requires 0 <= j < dst.cols =>
            if InRegion(i, j, r0, c0, b.rows, b.cols) then b.cells[i - r0][j - c0] else dst.cells[i][j])))
  }

  /** Reading back the region just written gives the block that was written. */
  lemma PasteReadsBack<T>(dst: Matrix<T>, b: Matrix<T>, r0: nat, c0: nat)
    requires r0 + b.rows <= dst.rows && c0 + b.cols <= dst.cols
    ensures Block(Paste(dst, b, r0, c0), r0, c0, b.rows, b.cols) == b
  {
    SameCellsEqual(Block(Paste(dst, b, r0, c0), r0, c0, b.rows, b.cols), b);
  }

  /** Writing a region back with what it already holds changes nothing. */
  lemma PasteOwnBlock<T>(m: Matrix<T>, r0: nat, c0: nat, h: nat, w: nat)
    requires r0 + h <= m.rows && c0 + w <= m.cols
    ensures Paste(m, Block(m, r0, c0, h, w), r0, c0) == m
  {
    SameCellsEqual(Paste(m, Block(m, r0, c0, h, w), r0, c0), m);
  }

  /** The cells of a matrix in row-major order. */
  function Flatten<T>(rows: seq<seq<T>>): (s: seq<T>)
  {
    if |rows| == 0 then [] else rows[0] + Flatten(rows[1..])
  }

  lemma {:induction false} FlattenAppend<T>(a: seq<seq<T>>, b: seq<seq<T>>)
    ensures Flatten(a + b) == Flatten(a) + Flatten(b)
  {
    if |a| == 0 {
      assert a + b == b;
    } else {
      assert (a + b)[1..] == a[1..] + b;
      FlattenAppend(a[1..], b);
    }
  }

  /** Exchanging two leading groups of rows keeps the multiset of cells. */
  lemma FlattenSwapMultiset<T>(a: seq<seq<T>>, b: seq<seq<T>>, c: seq<seq<T>>)
    ensures multiset(Flatten((b + a) + c)) == multiset(Flatten((a + b) + c))
  {
    var fa, fb, fc := Flatten(a), Flatten(b), Flatten(c);
    FlattenAppend(b + a, c);
    FlattenAppend(b, a);
    FlattenAppend(a + b, c);
    FlattenAppend(a, b);
    assert Flatten((b + a) + c) == (fb + fa) + fc;
    assert Flatten((a + b) + c) == (fa + fb) + fc;
  }

  /** The multiset of all entries of a matrix. */
  function Entries<T>(m: Matrix<T>): multiset<T>
  {
    multiset(Flatten(m.cells))
  }
}
