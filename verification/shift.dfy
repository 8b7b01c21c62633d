/**
 * The quadrant swap `fftshift` of Project1/motion_deblur_filter.cpp: the
 * output is a clone of the input in which the top-left quadrant is exchanged
 * with the bottom-right one and the top-right with the bottom-left, each
 * quadrant being `cols / 2` wide and `rows / 2` high.
 */
module Shift {
  import opened Matrices

  /**
   * The index an output row (or column) `k` reads from when the first `2 * half`
   * indices are split into two halves that trade places. Indices from
   * `2 * half` on (the last row or column of an odd-sized matrix) stay put.
   */
  function SourceIndex(k: nat, half: nat): (s: nat)
    ensures k < 2 * half ==> s < 2 * half
    ensures k >= 2 * half ==> s == k
  {
    if k < half then k + half else if k < 2 * half then k - half else k
  }

  /**
   * Whether cell (i, j) of `m` lies in one of the four quadrants, that is in
   * the leading even part of each dimension; an odd last row or column does not.
   */
  predicate Swapped<T>(i: int, j: int, m: Matrix<T>) {
    InRegion(i, j, 0, 0, 2 * (m.rows / 2), 2 * (m.cols / 2))
  }

  /**
   * One `q.copyTo(tmp); p.copyTo(q); tmp.copyTo(p)` exchange of two `h` by `w`
   * regions of interest, region A (corner rA, cA) lying above region B
   * (corner rB, cB).
   */
  function SwapBlocks<T>(m: Matrix<T>, rA: nat, cA: nat, rB: nat, cB: nat, h: nat, w: nat): (r: Matrix<T>)
    requires rA + h <= rB && rB + h <= m.rows
    requires cA + w <= m.cols && cB + w <= m.cols
    ensures SameShape(r, m)
    ensures forall i, j {:trigger r.cells[i][j]} :: 0 <= i < m.rows && 0 <= j < m.cols ==>
              r.cells[i][j] == (if InRegion(i, j, rA, cA, h, w) then m.cells[i - rA + rB][j - cA + cB]
                                else if InRegion(i, j, rB, cB, h, w) then m.cells[i - rB + rA][j - cB + cA]
                                else m.cells[i][j])
  {
    var tmp := Block(m, rA, cA, h, w);
    var m1 := Paste(m, Block(m, rB, cB, h, w), rA, cA);
    Paste(m1, tmp, rB, cB)
  }

  /**
   * The value the quadrant swap puts at cell (i, j) of `m`: inside the
   * quadrants it reads the cell half a height and half a width away, cyclically
   * within the even part; an odd last row or column is read in place.
   */
  function ShiftedCell<T>(m: Matrix<T>, i: nat, j: nat): T
    requires i < m.rows && j < m.cols
  {
    if Swapped(i, j, m) then m.cells[SourceIndex(i, m.rows / 2)][SourceIndex(j, m.cols / 2)] else m.cells[i][j]
  }

  /**
   * The quadrant swap as the source performs it: clone, then exchange
   * q0 <-> q3 and q1 <-> q2 through a temporary, where the quadrants are
   * `cx = cols / 2` wide and `cy = rows / 2` high with top-left corners
   * q0 = (row 0, col 0), q1 = (0, cx), q2 = (cy, 0), q3 = (cy, cx).
   * The contract is the closed-form index map the exchanges add up to.
   */
  function FftShift<T>(input: Matrix<T>): (output: Matrix<T>)
    ensures SameShape(output, input)
    ensures forall i, j {:trigger output.cells[i][j]} :: 0 <= i < output.rows && 0 <= j < output.cols ==>
              output.cells[i][j] == ShiftedCell(input, i, j)
  {
    var cx := input.cols / 2;
    var cy := input.rows / 2;
    var output := SwapBlocks(SwapBlocks(input, 0, 0, cy, cx, cy, cx), 0, cx, cy, 0, cy, cx);
    assert forall i, j :: 0 <= i < output.rows && 0 <= j < output.cols ==> output.cells[i][j] == ShiftedCell(input, i, j) by {
      forall i, j | 0 <= i < output.rows && 0 <= j < output.cols
        ensures output.cells[i][j] == ShiftedCell(input, i, j)
      {
        QuadrantExchangesCell(input, i, j);
      }
    }
    output
  }

  /** What the two exchanges of `FftShift` leave at one cell. */
  lemma QuadrantExchangesCell<T>(input: Matrix<T>, i: nat, j: nat)
    requires i < input.rows && j < input.cols
    ensures var cx, cy := input.cols / 2, input.rows / 2;
            SwapBlocks(SwapBlocks(input, 0, 0, cy, cx, cy, cx), 0, cx, cy, 0, cy, cx).cells[i][j] == ShiftedCell(input, i, j)
  {
    ExchangesCell(input, input.cols / 2, input.rows / 2, i, j);
  }

  /**
   * The two exchanges for quadrants `cx` wide and `cy` high, stated without
   * division: inside the `2 * cy` by `2 * cx` part a cell reads the cell half
   * a height and half a width away, elsewhere it keeps its value.
   */
  lemma ExchangesCell<T>(input: Matrix<T>, cx: nat, cy: nat, i: nat, j: nat)
    requires 2 * cy <= input.rows && 2 * cx <= input.cols
    requires i < input.rows && j < input.cols
    ensures SwapBlocks(SwapBlocks(input, 0, 0, cy, cx, cy, cx), 0, cx, cy, 0, cy, cx).cells[i][j]
            == if InRegion(i, j, 0, 0, 2 * cy, 2 * cx) then input.cells[SourceIndex(i, cy)][SourceIndex(j, cx)]
               else input.cells[i][j]
  {
    // Each of the five cases follows from `SwapBlocks`'s contract applied twice.
  }

  /** Exchange the first two length-`h` pieces of `s`, keeping the rest in place. */
  function HalfSwap<T>(s: seq<T>, h: nat): (r: seq<T>)
    requires 2 * h <= |s|
    ensures |r| == |s|
    ensures forall k {:trigger r[k]} :: 0 <= k < |s| ==> r[k] == s[SourceIndex(k, h)]
  {
    s[h..2 * h] + s[..h] + s[2 * h..]
  }

  /** Every row with its two leading halves of length `h` exchanged. */
  function SwapEachRow<T>(rows: seq<seq<T>>, h: nat): (r: seq<seq<T>>)
    requires forall i :: 0 <= i < |rows| ==> 2 * h <= |rows[i]|
    ensures |r| == |rows|
    ensures forall i {:trigger r[i]} :: 0 <= i < |rows| ==> r[i] == HalfSwap(rows[i], h)
  {
    seq(|rows|, i requires 0 <= i < |rows| => HalfSwap(rows[i], h))
  }

  /** `SourceIndex` undoes itself, which is why the quadrant swap does. */
  lemma SourceIndexInvolutive(k: nat, half: nat)
    ensures SourceIndex(SourceIndex(k, half), half) == k
  {
  }

  /** A value below twice the modulus wraps at most once. */
  lemma WrapOnce(x: int, n: int)
    requires 0 <= x < 2 * n
    ensures x % n == if x < n then x else x - n
  {
  }

  /** Index `k` moved forward by half of `n`, cyclically: the classic definition of fftshift on one axis. */
  function Rotate(k: nat, n: nat): (r: nat)
    requires k < n
    ensures r < n
  {
    (k + n / 2) % n
  }

  /** Inside the swapped span, `SourceIndex` is a rotation by `half` modulo `n = 2 * half`. */
  lemma SourceIndexIsRotation(k: nat, half: nat, n: nat)
    requires n == 2 * half && k < n
    ensures SourceIndex(k, half) == Rotate(k, n)
  {
    WrapOnce(k + half, n);
  }

  /**
   * For even dimensions, the swap is the cyclic shift by half the size along
   * each axis.
   */
  lemma FftShiftIsCyclicShift<T>(m: Matrix<T>)
    requires m.rows % 2 == 0 && m.cols % 2 == 0
    ensures var out := FftShift(m);
            forall i, j :: 0 <= i < m.rows && 0 <= j < m.cols ==>
              out.cells[i][j] == m.cells[Rotate(i, m.rows)][Rotate(j, m.cols)]
  {
    var out := FftShift(m);
    forall i, j | 0 <= i < m.rows && 0 <= j < m.cols
      ensures out.cells[i][j] == m.cells[Rotate(i, m.rows)][Rotate(j, m.cols)]
    {
      CyclicShiftCell(m, m.rows / 2, m.cols / 2, i, j);
    }
  }

  /** One cell of the cyclic-shift form, with the halves named. */
  lemma CyclicShiftCell<T>(m: Matrix<T>, cy: nat, cx: nat, i: nat, j: nat)
    requires m.rows == 2 * cy && m.cols == 2 * cx
    requires i < m.rows && j < m.cols
    ensures FftShift(m).cells[i][j] == m.cells[Rotate(i, m.rows)][Rotate(j, m.cols)]
  {
    assert m.rows / 2 == cy && m.cols / 2 == cx;
    assert Swapped(i, j, m);
    SourceIndexIsRotation(i, cy, m.rows);
    SourceIndexIsRotation(j, cx, m.cols);
  }

  /**
   * The centre element (rows / 2, cols / 2), where the PSF is drawn, lands at the
   * origin, and the origin lands at the centre.
   */
  lemma FftShiftCentreToOrigin<T>(m: Matrix<T>)
    requires m.rows >= 2 && m.cols >= 2
    ensures FftShift(m).cells[0][0] == m.cells[m.rows / 2][m.cols / 2]
    ensures FftShift(m).cells[m.rows / 2][m.cols / 2] == m.cells[0][0]
  {
  }

  /**
   * An odd height or width leaves the last row or column where it was: the
   * quadrants cover only the leading even part.
   */
  lemma FftShiftKeepsOddEdge<T>(m: Matrix<T>)
    ensures m.rows % 2 == 1 ==> FftShift(m).cells[m.rows - 1] == m.cells[m.rows - 1]
    ensures m.cols % 2 == 1 ==> forall i :: 0 <= i < m.rows ==> FftShift(m).cells[i][m.cols - 1] == m.cells[i][m.cols - 1]
  {
    var out := FftShift(m);
    if m.rows % 2 == 1 {
      var last := m.rows - 1;
      forall j | 0 <= j < m.cols
        ensures out.cells[last][j] == m.cells[last][j]
      {
        assert !Swapped(last, j, m);
      }
    }
  }

  /** Applying the swap twice gives back the original matrix, exactly. */
  lemma FftShiftInvolution<T>(m: Matrix<T>)
    ensures FftShift(FftShift(m)) == m
  {
    var twice := FftShift(FftShift(m));
    forall i, j | 0 <= i < m.rows && 0 <= j < m.cols
      ensures twice.cells[i][j] == m.cells[i][j]
    {
      InvolutionCell(m, i, j);
    }
    SameCellsEqual(twice, m);
  }

  /** One cell of the involution: the second swap reads back what the first one moved. */
  lemma InvolutionCell<T>(m: Matrix<T>, i: nat, j: nat)
    requires i < m.rows && j < m.cols
    ensures FftShift(FftShift(m)).cells[i][j] == m.cells[i][j]
  {
    var once := FftShift(m);
    var twice := FftShift(once);
    var cy, cx := m.rows / 2, m.cols / 2;
    if Swapped(i, j, m) {
      var i', j' := SourceIndex(i, cy), SourceIndex(j, cx);
      SourceIndexInvolutive(i, cy);
      SourceIndexInvolutive(j, cx);
      assert Swapped(i', j', m);
      assert twice.cells[i][j] == once.cells[i'][j'] == m.cells[i][j];
    } else {
      assert twice.cells[i][j] == once.cells[i][j] == m.cells[i][j];
    }
  }

  /**
   * A reference definition for even dimensions: the swap exchanges the two
   * halves of every row, then the two halves of the sequence of rows.
   */
  lemma FftShiftSwapsHalves<T>(m: Matrix<T>)
    requires m.rows % 2 == 0 && m.cols % 2 == 0
    ensures FftShift(m).cells == HalfSwap(SwapEachRow(m.cells, m.cols / 2), m.rows / 2)
  {
    var rowsSwapped := SwapEachRow(m.cells, m.cols / 2);
    var reference := HalfSwap(rowsSwapped, m.rows / 2);
    var out := FftShift(m);
    forall i | 0 <= i < m.rows
      ensures out.cells[i] == reference[i]
    {
      var i' := SourceIndex(i, m.rows / 2);
      assert reference[i] == HalfSwap(m.cells[i'], m.cols / 2);
      forall j | 0 <= j < m.cols
        ensures out.cells[i][j] == reference[i][j]
      {
        assert Swapped(i, j, m);
      }
    }
  }

  lemma HalfSwapMultiset<T>(s: seq<T>, h: nat)
    requires 2 * h <= |s|
    ensures multiset(HalfSwap(s, h)) == multiset(s)
  {
    assert s == s[..h] + s[h..2 * h] + s[2 * h..];
  }

  /** A half swap regroups the same three pieces of `s`. */
  lemma HalfSwapPieces<T>(s: seq<T>, h: nat)
    requires 2 * h <= |s|
    ensures s == (s[..h] + s[h..2 * h]) + s[2 * h..]
    ensures HalfSwap(s, h) == (s[h..2 * h] + s[..h]) + s[2 * h..]
  {
  }

  lemma HalfSwapFlattenMultiset<T>(rows: seq<seq<T>>, h: nat)
    requires 2 * h <= |rows|
    ensures multiset(Flatten(HalfSwap(rows, h))) == multiset(Flatten(rows))
  {
    HalfSwapPieces(rows, h);
    FlattenSwapMultiset(rows[..h], rows[h..2 * h], rows[2 * h..]);
  }

  lemma {:induction false} RowwiseHalfSwapMultiset<T>(rows: seq<seq<T>>, h: nat)
    requires forall i :: 0 <= i < |rows| ==> 2 * h <= |rows[i]|
    ensures multiset(Flatten(SwapEachRow(rows, h))) == multiset(Flatten(rows))
  {
    var swapped := SwapEachRow(rows, h);
    if |rows| > 0 {
      assert swapped[1..] == SwapEachRow(rows[1..], h);
      RowwiseHalfSwapMultiset(rows[1..], h);
      HalfSwapMultiset(rows[0], h);
    }
  }

  /** For even dimensions the swap is a permutation: the multiset of entries is unchanged. */
  lemma FftShiftPermutes<T>(m: Matrix<T>)
    requires m.rows % 2 == 0 && m.cols % 2 == 0
    ensures Entries(FftShift(m)) == Entries(m)
  {
    var out := FftShift(m);
    var rowsSwapped := SwapEachRow(m.cells, m.cols / 2);
    calc {
      Entries(out);
      multiset(Flatten(out.cells));
      { FftShiftSwapsHalves(m); }
      multiset(Flatten(HalfSwap(rowsSwapped, m.rows / 2)));
      { HalfSwapFlattenMultiset(rowsSwapped, m.rows / 2); }
      multiset(Flatten(rowsSwapped));
      { RowwiseHalfSwapMultiset(m.cells, m.cols / 2); }
      multiset(Flatten(m.cells));
    }
  }
}
