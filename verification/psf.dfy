/**
 * The normalisation step of `calcPSF`: a kernel of the filter size holding a
 * rasterised line is divided by the sum of all its entries, so that filtering
 * with it keeps the overall brightness. The rasterised line itself comes from
 * OpenCV's `ellipse` and enters the model as an input matrix.
 */
module Psf {
  import opened Matrices

  /** An OpenCV size: `width` columns by `height` rows. */
  datatype Size = Size(width: nat, height: nat)

  /** The normalised kernel, or `ZeroMass` when the drawn kernel sums to zero and every division would be by zero. */
  datatype PsfResult = Normalized(psf: Matrix<real>) | ZeroMass

  function RowSum(s: seq<real>): real
  {
    if |s| == 0 then 0.0 else s[0] + RowSum(s[1..])
  }

  function RowsSum(rows: seq<seq<real>>): real
  {
    if |rows| == 0 then 0.0 else RowSum(rows[0]) + RowsSum(rows[1..])
  }

  /** `sum(h)[0]`: the total of all entries of a single-channel matrix. A matrix without entries sums to zero. */
  function Sum(m: Matrix<real>): (s: real)
    ensures m.rows == 0 || m.cols == 0 ==> s == 0.0
  {
    assert m.cols == 0 ==> RowsSum(m.cells) == 0.0 by {
      if m.cols == 0 {
        EmptyRowsSum(m.cells);
      }
    }
    RowsSum(m.cells)
  }

  predicate AllZero(m: Matrix<real>) {
    forall i, j :: 0 <= i < m.rows && 0 <= j < m.cols ==> m.cells[i][j] == 0.0
  }

  /** A matrix of zeros sums to zero, and a non-negative matrix to a non-negative total. */
  lemma SumSigns(m: Matrix<real>)
    ensures AllZero(m) ==> Sum(m) == 0.0
    ensures NonNegative(m) ==> Sum(m) >= 0.0
  {
    if AllZero(m) {
      ScaledSum(m, m, 0.0);
    }
    if NonNegative(m) {
      RowsSumNonNegative(m.cells);
    }
  }

  /** Every entry divided by `d`. */
  function DivideRow(s: seq<real>, d: real): (r: seq<real>)
    requires d != 0.0
    ensures |r| == |s|
    ensures forall k {:trigger r[k]} :: 0 <= k < |s| ==> r[k] * d == s[k]
  {
    seq(|s|, k requires 0 <= k < |s| => s[k] / d)
  }

  /** Every entry of every row divided by `d`: each row keeps its length, and each entry times `d` gives back the original. */
  function DivideRows(rows: seq<seq<real>>, d: real): (r: seq<seq<real>>)
    requires d != 0.0
    ensures |r| == |rows|
    ensures forall i {:trigger r[i]} :: 0 <= i < |rows| ==> r[i] == DivideRow(rows[i], d)
    ensures forall i, k {:trigger r[i][k]} :: 0 <= i < |rows| && 0 <= k < |rows[i]| ==> |r[i]| == |rows[i]| && r[i][k] * d == rows[i][k]
  {
    seq(|rows|, i requires 0 <= i < |rows| => DivideRow(rows[i], d))
  }

  /** Dividing every entry by `d` divides the row total by `d`. */
  lemma {:induction false} RowSumDivide(s: seq<real>, d: real)
    requires d != 0.0
    ensures RowSum(DivideRow(s, d)) * d == RowSum(s)
  {
    if |s| > 0 {
      assert DivideRow(s, d)[1..] == DivideRow(s[1..], d);
      RowSumDivide(s[1..], d);
    }
  }

  lemma {:induction false} RowsSumDivide(rows: seq<seq<real>>, d: real)
    requires d != 0.0
    ensures RowsSum(DivideRows(rows, d)) * d == RowsSum(rows)
  {
    if |rows| > 0 {
      assert DivideRows(rows, d)[1..] == DivideRows(rows[1..], d);
      RowsSumDivide(rows[1..], d);
      RowSumDivide(rows[0], d);
    }
  }

  /** A non-zero factor cancels. */
  lemma Cancel(a: real, b: real, c: real)
    requires c != 0.0 && a * c == b * c
    ensures a == b
  {
    assert (a - b) * c == 0.0;
  }

  /**
   * `h / sum(h)[0]`: each entry divided by the total. A non-zero total gives a
   * kernel of the same size that sums to one and is proportional to `h`; a zero
   * total leaves nothing to divide by.
   */
  function Normalize(h: Matrix<real>): (r: PsfResult)
    ensures r.ZeroMass? <==> Sum(h) == 0.0
    ensures r.Normalized? ==> SameShape(r.psf, h) && Sum(r.psf) == 1.0
    ensures r.Normalized? ==> forall i, j {:trigger r.psf.cells[i][j]} :: 0 <= i < h.rows && 0 <= j < h.cols ==>
              r.psf.cells[i][j] * Sum(h) == h.cells[i][j]
  {
    var total := Sum(h);
    if total == 0.0 then ZeroMass
    else
      NormalizedSumsToOne(h.cells, total);
      Normalized(Mat(h.rows, h.cols, DivideRows(h.cells, total)))
  }

  /** Rows divided by their own non-zero total sum to one. */
  lemma NormalizedSumsToOne(rows: seq<seq<real>>, total: real)
    requires total != 0.0 && RowsSum(rows) == total
    ensures RowsSum(DivideRows(rows, total)) == 1.0
  {
    var sum := RowsSum(DivideRows(rows, total));
    RowsSumDivide(rows, total);
    assert sum * total == 1.0 * total;
    Cancel(sum, 1.0, total);
  }

  /** The value `ellipse` writes into every pixel of the line. */
  const LINE_VALUE: real := 255.0

  /**
   * `Mat h(filterSize, CV_32F, Scalar(0))` after the line is drawn: `LINE_VALUE`
   * at every lit pixel (x, y) inside the kernel, zero elsewhere. Which pixels the
   * rasteriser lights is its own business; `lit` stands for them.
   */
  function DrawnKernel(filterSize: Size, lit: set<(int, int)>): (h: Matrix<real>)
    ensures h.rows == filterSize.height && h.cols == filterSize.width
    ensures forall i, j {:trigger h.cells[i][j]} :: 0 <= i < h.rows && 0 <= j < h.cols ==>
              h.cells[i][j] == if (j, i) in lit then LINE_VALUE else 0.0
    ensures Sum(h) == LINE_VALUE * (LitCount(filterSize, lit) as real)
  {
    var h: Matrix<real> := Mat(filterSize.height, filterSize.width,
      seq(filterSize.height, i requires 0 <= i < filterSize.height =>
        seq(filterSize.width, j requires 0 <= j < filterSize.width =>
          if (j, i) in lit then LINE_VALUE else 0.0)));
    RowsMass(h.cells, lit, 0, filterSize);
    h
  }

  /** Whether the rasterised line lights at least one pixel inside the kernel. */
  predicate LightsKernel(filterSize: Size, lit: set<(int, int)>) {
    exists x, y :: 0 <= y < filterSize.height && 0 <= x < filterSize.width && (x, y) in lit
  }

  /** How many pixels (x, y) of row `y` with `x0 <= x < width` the line lights. */
  function LitInRow(lit: set<(int, int)>, y: int, x0: nat, width: nat): nat
    decreases width - x0
  {
    if x0 >= width then 0
    else (if (x0, y) in lit then 1 else 0) + LitInRow(lit, y, x0 + 1, width)
  }

  /** How many pixels of the kernel rows `y0 <= y < height` the line lights. */
  function LitInRows(lit: set<(int, int)>, y0: nat, filterSize: Size): nat
    decreases filterSize.height - y0
  {
    if y0 >= filterSize.height then 0
    else LitInRow(lit, y0, 0, filterSize.width) + LitInRows(lit, y0 + 1, filterSize)
  }

  /** The number of pixels inside the kernel that the line lights. */
  function LitCount(filterSize: Size, lit: set<(int, int)>): nat
  {
    LitInRows(lit, 0, filterSize)
  }

  /** A row holding `LINE_VALUE` at the lit pixels and zero elsewhere sums to `LINE_VALUE` per lit pixel. */
  lemma {:induction false} RowMass(s: seq<real>, lit: set<(int, int)>, y: int, x0: nat, width: nat)
    requires x0 + |s| == width
    requires forall k :: 0 <= k < |s| ==> s[k] == if (x0 + k, y) in lit then LINE_VALUE else 0.0
    ensures RowSum(s) == LINE_VALUE * (LitInRow(lit, y, x0, width) as real)
  {
    if |s| > 0 {
      RowMass(s[1..], lit, y, x0 + 1, width);
    }
  }

  /** The rows `y0..` of a drawn kernel sum to `LINE_VALUE` per lit pixel in them. */
  lemma {:induction false} RowsMass(rows: seq<seq<real>>, lit: set<(int, int)>, y0: nat, filterSize: Size)
    requires y0 + |rows| == filterSize.height
    requires forall i :: 0 <= i < |rows| ==> |rows[i]| == filterSize.width
    requires forall i, k :: 0 <= i < |rows| && 0 <= k < |rows[i]| ==>
               rows[i][k] == if (k, y0 + i) in lit then LINE_VALUE else 0.0
    ensures RowsSum(rows) == LINE_VALUE * (LitInRows(lit, y0, filterSize) as real)
  {
    if |rows| > 0 {
      RowMass(rows[0], lit, y0, 0, filterSize.width);
      RowsMass(rows[1..], lit, y0 + 1, filterSize);
    }
  }

  /** The line lights some pixel of the kernel exactly when the count of lit pixels is positive. */
  lemma LitCountPositive(filterSize: Size, lit: set<(int, int)>)
    ensures LitCount(filterSize, lit) > 0 <==> LightsKernel(filterSize, lit)
  {
    DrawnKernelMass(filterSize, lit);
  }

  /**
   * `calcPSF`: draw the line into a zero kernel of the filter size, then divide
   * by the total. When the line lights some pixel of the kernel, the PSF has the
   * filter size, sums to one, and is uniform along the line: every lit pixel
   * weighs the same positive amount and every other pixel is zero. When it
   * lights none, the total is zero and there is no PSF.
   */
  function CalcPsf(filterSize: Size, lit: set<(int, int)>): (r: PsfResult)
    ensures r.ZeroMass? <==> !LightsKernel(filterSize, lit)
    ensures r.ZeroMass? <==> LitCount(filterSize, lit) == 0
    ensures r.Normalized? <==> Sum(DrawnKernel(filterSize, lit)) > 0.0
    ensures r.Normalized? ==> r.psf.rows == filterSize.height && r.psf.cols == filterSize.width
    ensures r.Normalized? ==> Sum(r.psf) == 1.0
    ensures r.Normalized? ==>
              var weight := 1.0 / (LitCount(filterSize, lit) as real);
              && weight > 0.0
              && forall i, j {:trigger r.psf.cells[i][j]} :: 0 <= i < filterSize.height && 0 <= j < filterSize.width ==>
                   r.psf.cells[i][j] == if (j, i) in lit then weight else 0.0
  {
    DrawnKernelMass(filterSize, lit);
    if LightsKernel(filterSize, lit) then
      UniformAlongLine(filterSize, lit);
      LineWeight(LitCount(filterSize, lit) as real);
      Normalize(DrawnKernel(filterSize, lit))
    else
      Normalize(DrawnKernel(filterSize, lit))
  }

  /** `LINE_VALUE` spread over `n` lit pixels of total `LINE_VALUE * n` gives each `1 / n`. */
  lemma LineWeight(n: real)
    requires n > 0.0
    ensures LINE_VALUE / (LINE_VALUE * n) == 1.0 / n > 0.0
  {
    Quotient(1.0 / n, LINE_VALUE, LINE_VALUE * n);
  }

  /** Normalising the drawn kernel gives every lit pixel the weight `LINE_VALUE / total`. */
  lemma UniformAlongLine(filterSize: Size, lit: set<(int, int)>)
    requires Sum(DrawnKernel(filterSize, lit)) > 0.0
    ensures Normalize(DrawnKernel(filterSize, lit)).Normalized?
    ensures var p := Normalize(DrawnKernel(filterSize, lit)).psf;
            var weight := LINE_VALUE / Sum(DrawnKernel(filterSize, lit));
            forall i, j {:trigger p.cells[i][j]} :: 0 <= i < filterSize.height && 0 <= j < filterSize.width ==>
              p.cells[i][j] == if (j, i) in lit then weight else 0.0
  {
    var h := DrawnKernel(filterSize, lit);
    var p := Normalize(h).psf;
    var total := Sum(h);
    forall i, j | 0 <= i < filterSize.height && 0 <= j < filterSize.width
      ensures p.cells[i][j] == if (j, i) in lit then LINE_VALUE / total else 0.0
    {
      var x := h.cells[i][j];
      assert p.cells[i][j] * total == x;
      assert x == if (j, i) in lit then LINE_VALUE else 0.0;
      Quotient(p.cells[i][j], x, total);
    }
  }

  /** The one number that times `t` gives `x`. */
  lemma Quotient(p: real, x: real, t: real)
    requires t != 0.0 && p * t == x
    ensures p == x / t
  {
    Cancel(p, x / t, t);
  }

  /** The drawn kernel has positive mass exactly when the line lights one of its pixels. */
  lemma DrawnKernelMass(filterSize: Size, lit: set<(int, int)>)
    ensures LightsKernel(filterSize, lit) ==> Sum(DrawnKernel(filterSize, lit)) > 0.0
    ensures !LightsKernel(filterSize, lit) ==> Sum(DrawnKernel(filterSize, lit)) == 0.0
  {
    var h := DrawnKernel(filterSize, lit);
    if LightsKernel(filterSize, lit) {
      var x, y :| 0 <= y < filterSize.height && 0 <= x < filterSize.width && (x, y) in lit;
      assert h.cells[y][x] > 0.0;
      RowsSumPositive(h.cells, y, x);
    } else {
      ScaledSum(h, h, 0.0);
    }
  }

  /**
   * The point the motion line is drawn around, `Point(width / 2, height / 2)`,
   * given as (row, column).
   */
  function Anchor(filterSize: Size): (rc: (nat, nat))
    ensures filterSize.height > 0 ==> rc.0 < filterSize.height
    ensures filterSize.width > 0 ==> rc.1 < filterSize.width
  {
    (filterSize.height / 2, filterSize.width / 2)
  }

  predicate NonNegative(m: Matrix<real>) {
    forall i, j :: 0 <= i < m.rows && 0 <= j < m.cols ==> m.cells[i][j] >= 0.0
  }

  lemma {:induction false} RowSumNonNegative(s: seq<real>)
    requires forall k :: 0 <= k < |s| ==> s[k] >= 0.0
    ensures RowSum(s) >= 0.0
  {
    if |s| > 0 {
      RowSumNonNegative(s[1..]);
    }
  }

  lemma {:induction false} RowsSumNonNegative(rows: seq<seq<real>>)
    requires forall i, k :: 0 <= i < |rows| && 0 <= k < |rows[i]| ==> rows[i][k] >= 0.0
    ensures RowsSum(rows) >= 0.0
  {
    if |rows| > 0 {
      RowSumNonNegative(rows[0]);
      RowsSumNonNegative(rows[1..]);
    }
  }

  lemma {:induction false} RowSumPositive(s: seq<real>, k: nat)
    requires forall x :: 0 <= x < |s| ==> s[x] >= 0.0
    requires k < |s| && s[k] > 0.0
    ensures RowSum(s) > 0.0
  {
    RowSumNonNegative(s[1..]);
    if k > 0 {
      RowSumPositive(s[1..], k - 1);
    }
  }

  lemma {:induction false} RowsSumPositive(rows: seq<seq<real>>, i: nat, k: nat)
    requires forall a, x :: 0 <= a < |rows| && 0 <= x < |rows[a]| ==> rows[a][x] >= 0.0
    requires i < |rows| && k < |rows[i]| && rows[i][k] > 0.0
    ensures RowsSum(rows) > 0.0
  {
    RowsSumNonNegative(rows[1..]);
    RowSumNonNegative(rows[0]);
    if i == 0 {
      RowSumPositive(rows[0], k);
    } else {
      RowsSumPositive(rows[1..], i - 1, k);
    }
  }

  /**
   * A drawn kernel has no negative entries; normalising it keeps every entry
   * non-negative, keeps zero entries zero and positive entries positive.
   */
  lemma NormalizeKeepsSigns(h: Matrix<real>)
    requires NonNegative(h)
    requires Normalize(h).Normalized?
    ensures NonNegative(Normalize(h).psf)
    ensures forall i, j :: 0 <= i < h.rows && 0 <= j < h.cols ==>
              (Normalize(h).psf.cells[i][j] == 0.0 <==> h.cells[i][j] == 0.0)
  {
    RowsSumNonNegative(h.cells);
    var p := Normalize(h).psf;
    var total := Sum(h);
    assert total > 0.0;
    forall i, j | 0 <= i < h.rows && 0 <= j < h.cols
      ensures p.cells[i][j] >= 0.0
      ensures p.cells[i][j] == 0.0 <==> h.cells[i][j] == 0.0
    {
      assert p.cells[i][j] * total == h.cells[i][j];
    }
  }

  /** q = y / u and p = x / t agree when y = k x and u = k t. */
  lemma ScaledQuotient(q: real, p: real, x: real, y: real, t: real, u: real, k: real)
    requires k != 0.0 && t != 0.0
    requires y == k * x && u == k * t
    requires q * u == y && p * t == x
    ensures q == p
  {
    assert p * u == y;
    Cancel(q, p, u);
  }

  /** The drawing intensity does not matter: scaling the drawn kernel by k > 0 gives the same PSF. */
  lemma NormalizeIgnoresScale(h: Matrix<real>, g: Matrix<real>, k: real)
    requires k > 0.0 && SameShape(g, h)
    requires forall i, j :: 0 <= i < h.rows && 0 <= j < h.cols ==> g.cells[i][j] == k * h.cells[i][j]
    ensures Normalize(g) == Normalize(h)
  {
    ScaledSum(h, g, k);
    if Normalize(h).Normalized? {
      var p, q := Normalize(h).psf, Normalize(g).psf;
      forall i, j | 0 <= i < h.rows && 0 <= j < h.cols
        ensures q.cells[i][j] == p.cells[i][j]
      {
        ScaledCell(h, g, k, i, j);
      }
      SameCellsEqual(q, p);
    }
  }

  /** One entry of `NormalizeIgnoresScale`. */
  lemma ScaledCell(h: Matrix<real>, g: Matrix<real>, k: real, i: nat, j: nat)
    requires k > 0.0 && SameShape(g, h) && i < h.rows && j < h.cols
    requires g.cells[i][j] == k * h.cells[i][j]
    requires Sum(g) == k * Sum(h) && Sum(h) != 0.0
    ensures Normalize(g).Normalized? && Normalize(h).Normalized?
    ensures Normalize(g).psf.cells[i][j] == Normalize(h).psf.cells[i][j]
  {
    var t, u := Sum(h), Sum(g);
    NonZeroProduct(k, t);
    var p, q := Normalize(h).psf, Normalize(g).psf;
    var x, y := h.cells[i][j], g.cells[i][j];
    assert p.cells[i][j] * t == x;
    assert q.cells[i][j] * u == y;
    ScaledQuotient(q.cells[i][j], p.cells[i][j], x, y, t, u, k);
  }

  lemma NonZeroProduct(a: real, b: real)
    requires a != 0.0 && b != 0.0
    ensures a * b != 0.0
  {
  }

  lemma {:induction false} ScaledRowSum(s: seq<real>, t: seq<real>, k: real)
    requires |s| == |t|
    requires forall x :: 0 <= x < |s| ==> t[x] == k * s[x]
    ensures RowSum(t) == k * RowSum(s)
  {
    if |s| > 0 {
      ScaledRowSum(s[1..], t[1..], k);
    }
  }

  /** Row `t` is row `s` with every entry multiplied by `k`. */
  predicate ScaledRow(s: seq<real>, t: seq<real>, k: real) {
    |s| == |t| && forall x :: 0 <= x < |s| ==> t[x] == k * s[x]
  }

  lemma {:induction false} ScaledRowsSum(rows: seq<seq<real>>, scaled: seq<seq<real>>, k: real)
    requires |rows| == |scaled|
    requires forall i :: 0 <= i < |rows| ==> ScaledRow(rows[i], scaled[i], k)
    ensures RowsSum(scaled) == k * RowsSum(rows)
  {
    if |rows| > 0 {
      ScaledRowSum(rows[0], scaled[0], k);
      ScaledRowsSum(rows[1..], scaled[1..], k);
    }
  }

  lemma ScaledSum(h: Matrix<real>, g: Matrix<real>, k: real)
    requires SameShape(g, h)
    requires forall i, j :: 0 <= i < h.rows && 0 <= j < h.cols ==> g.cells[i][j] == k * h.cells[i][j]
    ensures Sum(g) == k * Sum(h)
  {
    forall i | 0 <= i < h.rows
      ensures ScaledRow(h.cells[i], g.cells[i], k)
    {
    }
    ScaledRowsSum(h.cells, g.cells, k);
  }

  /** Rows without entries sum to zero. */
  lemma {:induction false} EmptyRowsSum(rows: seq<seq<real>>)
    requires forall i :: 0 <= i < |rows| ==> |rows[i]| == 0
    ensures RowsSum(rows) == 0.0
  {
    if |rows| > 0 {
      EmptyRowsSum(rows[1..]);
    }
  }

  /** A kernel that already sums to one is its own normalisation. */
  lemma NormalizeIdempotent(h: Matrix<real>)
    requires Normalize(h).Normalized?
    ensures Normalize(Normalize(h).psf) == Normalize(h)
  {
    var p := Normalize(h).psf;
    var q := Normalize(p).psf;
    forall i, j | 0 <= i < p.rows && 0 <= j < p.cols
      ensures q.cells[i][j] == p.cells[i][j]
    {
      assert q.cells[i][j] * 1.0 == p.cells[i][j];
    }
    SameCellsEqual(q, p);
  }
}
