/**
 * The even-size region of interest `main` cuts from the loaded image before
 * filtering: `Rect(0, 0, cols & -2, rows & -2)`. The quadrant swap needs an
 * exact half split, so both dimensions are rounded down to even numbers by
 * clearing bit 0 of the C `int`.
 */
module EvenCrop {
  import opened Matrices

  /** The largest value of a 32-bit C `int`; image dimensions are `int`s. */
  const INT_MAX: nat := 0x7FFF_FFFF

  /** The 32-bit two's-complement bit pattern of the `int` literal `-2`: every bit but bit 0. */
  const MINUS_TWO_BITS: nat := 0xFFFF_FFFE

  function Pow2(k: nat): (p: nat)
    ensures p >= 1
  {
    if k == 0 then 1 else 2 * Pow2(k - 1)
  }

  lemma {:induction false} Pow2Add(a: nat, b: nat)
    ensures Pow2(a + b) == Pow2(a) * Pow2(b)
  {
    if a > 0 {
      Pow2Add(a - 1, b);
    }
  }

  lemma Pow2Of31()
    ensures Pow2(31) == 0x8000_0000
  {
    var p8 := Pow2(8);
    assert p8 == 256;
    Pow2Add(8, 8);
    var p16 := Pow2(16);
    assert p16 == 65536;
    Pow2Add(16, 8);
    assert Pow2(24) == 16777216;
    Pow2Add(24, 7);
    assert Pow2(7) == 128;
  }

  /**
   * Bitwise AND of two non-negative numbers, taken bit by bit from the lowest:
   * never above either operand, bit 0 set exactly when it is set in both, and
   * a number ANDed with itself is unchanged.
   */
  function BitAnd(a: nat, b: nat): (r: nat)
    ensures r <= a && r <= b
    ensures r % 2 == 1 <==> a % 2 == 1 && b % 2 == 1
    ensures a == b ==> r == a
  {
    if a == 0 || b == 0 then 0
    else 2 * BitAnd(a / 2, b / 2) + (if a % 2 == 1 && b % 2 == 1 then 1 else 0)
  }

  /** AND with a mask of `k` one-bits keeps every number below `2^k` unchanged. */
  lemma {:induction false} BitAndLowOnes(x: nat, k: nat)
    requires x < Pow2(k)
    ensures BitAnd(x, Pow2(k) - 1) == x
  {
    if x > 0 {
      assert k > 0;
      assert (Pow2(k) - 1) / 2 == Pow2(k - 1) - 1;
      assert (Pow2(k) - 1) % 2 == 1;
      BitAndLowOnes(x / 2, k - 1);
    }
  }

  /** AND with an even mask whose upper bits are all ones clears bit 0 of `n` and keeps the rest. */
  lemma AndClearsLowBit(n: nat, k: nat)
    requires n / 2 < Pow2(k)
    ensures BitAnd(n, 2 * (Pow2(k) - 1)) == n - n % 2
    ensures BitAnd(n, 2 * (Pow2(k) - 1)) % 2 == 0
  {
    var mask := 2 * (Pow2(k) - 1);
    if n > 0 && mask > 0 {
      assert mask / 2 == Pow2(k) - 1 && mask % 2 == 0;
      BitAndLowOnes(n / 2, k);
      assert BitAnd(n, mask) == 2 * (n / 2);
    }
  }

  /** For a non-negative `int`, `n & -2` clears bit 0 and keeps the rest. */
  lemma AndMinusTwoClearsLowBit(n: nat)
    requires n <= INT_MAX
    ensures BitAnd(n, MINUS_TWO_BITS) == n - n % 2
    ensures BitAnd(n, MINUS_TWO_BITS) % 2 == 0
  {
    Pow2Of31();
    AndClearsLowBit(n, 31);
  }

  /**
   * `n & -2` for an image dimension `n`: the largest even number not above `n`.
   */
  function EvenFloor(n: nat): (e: nat)
    requires n <= INT_MAX
    ensures e % 2 == 0
    ensures e <= n < e + 2
  {
    AndMinusTwoClearsLowBit(n);
    BitAnd(n, MINUS_TWO_BITS)
  }

  /** No even number not above `n` exceeds `EvenFloor(n)`. */
  lemma EvenFloorIsGreatest(n: nat, k: nat)
    requires n <= INT_MAX
    requires k % 2 == 0 && k <= n
    ensures k <= EvenFloor(n)
  {
  }

  /** Rounding down to even is idempotent, and even numbers are left alone. */
  lemma EvenFloorIdempotent(n: nat)
    requires n <= INT_MAX
    ensures EvenFloor(EvenFloor(n)) == EvenFloor(n)
    ensures n % 2 == 0 ==> EvenFloor(n) == n
  {
  }

  /** An OpenCV rectangle: top-left corner (x, y), then width and height. */
  datatype Rect = Rect(x: int, y: int, width: int, height: int)

  /** The region of interest `main` builds from the loaded image's size. */
  function EvenRoi<T>(image: Matrix<T>): (roi: Rect)
    requires image.rows <= INT_MAX && image.cols <= INT_MAX
    ensures roi.x == 0 && roi.y == 0
    ensures roi.width % 2 == 0 && roi.height % 2 == 0
    ensures 0 <= roi.width <= image.cols < roi.width + 2
    ensures 0 <= roi.height <= image.rows < roi.height + 2
  {
    Rect(0, 0, EvenFloor(image.cols), EvenFloor(image.rows))
  }

  /** Whether a rectangle lies inside the image, as OpenCV demands of a region of interest. */
  predicate InsideImage<T>(roi: Rect, image: Matrix<T>) {
    0 <= roi.x && 0 <= roi.y && 0 <= roi.width && 0 <= roi.height
    && roi.x + roi.width <= image.cols && roi.y + roi.height <= image.rows
  }

  /**
   * `image(roi)`: the part of the image the rectangle covers. OpenCV makes the
   * view of a rectangle with a zero side a 0 by 0 matrix, whatever the other side.
   */
  function View<T>(image: Matrix<T>, roi: Rect): (v: Matrix<T>)
    requires InsideImage(roi, image)
    ensures roi.width > 0 && roi.height > 0 ==> v.rows == roi.height && v.cols == roi.width
    ensures roi.width == 0 || roi.height == 0 ==> v.rows == 0 && v.cols == 0
    ensures forall i, j {:trigger v.cells[i][j]} :: 0 <= i < v.rows && 0 <= j < v.cols ==>
              v.cells[i][j] == image.cells[roi.y + i][roi.x + j]
  {
    if roi.width == 0 || roi.height == 0 then Mat(0, 0, [])
    else Block(image, roi.y, roi.x, roi.height, roi.width)
  }

  /**
   * `imgIn(roi)` with the even region of interest: both dimensions even, at
   * most one row and one column dropped, and every kept pixel at its
   * original position, because the region is anchored at the origin. An
   * image under 2 pixels high or wide has an empty region and crops to 0 by 0.
   */
  function CropToEven<T>(image: Matrix<T>): (cropped: Matrix<T>)
    requires image.rows <= INT_MAX && image.cols <= INT_MAX
    ensures cropped.rows % 2 == 0 && cropped.cols % 2 == 0
    ensures image.rows >= 2 && image.cols >= 2 ==>
              && cropped.rows <= image.rows < cropped.rows + 2
              && cropped.cols <= image.cols < cropped.cols + 2
    ensures image.rows < 2 || image.cols < 2 ==> cropped.rows == 0 && cropped.cols == 0
    ensures forall i, j {:trigger cropped.cells[i][j]} :: 0 <= i < cropped.rows && 0 <= j < cropped.cols ==>
              cropped.cells[i][j] == image.cells[i][j]
  {
    View(image, EvenRoi(image))
  }

  /**
   * An image whose dimensions are already even is not cropped at all, unless
   * it has no pixels, in which case the crop is the 0 by 0 matrix.
   */
  lemma CropToEvenKeepsEvenImage<T>(image: Matrix<T>)
    requires image.rows <= INT_MAX && image.cols <= INT_MAX
    requires image.rows % 2 == 0 && image.cols % 2 == 0
    ensures image.rows > 0 && image.cols > 0 ==> CropToEven(image) == image
    ensures image.rows == 0 || image.cols == 0 ==> CropToEven(image) == Mat(0, 0, [])
  {
    var cropped := CropToEven(image);
    if image.rows > 0 && image.cols > 0 {
      assert SameShape(cropped, image);
      SameCellsEqual(cropped, image);
    }
  }

  /** Cropping twice is cropping once. */
  lemma CropToEvenIdempotent<T>(image: Matrix<T>)
    requires image.rows <= INT_MAX && image.cols <= INT_MAX
    ensures CropToEven(CropToEven(image)) == CropToEven(image)
  {
    var cropped := CropToEven(image);
    CropToEvenKeepsEvenImage(cropped);
    if cropped.rows == 0 || cropped.cols == 0 {
      assert cropped.rows == 0 && cropped.cols == 0;
      assert cropped == Mat(0, 0, []);
    }
  }
}
