# Motion deblur: a Dafny model of the Wiener filter preparation

`motion_deblur_filter.cpp` restores a motion-blurred grayscale image. `main`:

1. Crops the image to an even region of interest, `Rect(0, 0, cols & -2, rows & -2)`.
2. Builds the point-spread function (PSF) of a linear motion (`calcPSF`).
3. Turns the PSF into a Wiener transfer function with noise-to-signal ratio `1.0 / snr` (`calcWnrFilter`).
4. Multiplies the image spectrum by that filter (`filter2DFreq`).

This project models the deterministic core of steps 1 to 3 and proves properties about it:

- the quadrant swap `fftshift`;
- the even crop;
- the sum normalisation of the PSF;
- the pointwise Wiener step `G = Re / (|Re|^2 + nsr)`.

Modules, one file each:

- `Matrices` (`matrices.dfy`): OpenCV-style matrices as `rows`, `cols` and row-major `cells`. Also region-of-interest copies (`Block`) and writes (`Paste`), and the multiset of all entries.
- `Shift` (`shift.dfy`): `fftshift` built from the same two exchanges the source performs (`q0 <-> q3`, then `q1 <-> q2`, each through a temporary). Its contract is the closed-form index map those exchanges add up to. Lemmas cover:
  - the cyclic-shift form;
  - centre to origin;
  - the involution;
  - a reference definition by half swaps;
  - the permutation of entries.
- `EvenCrop` (`crop.dfy`): `n & -2` on a 32-bit `int`, modelled as a bitwise AND with the pattern `0xFFFF_FFFE`, and proved to be the largest even number not above `n`. Also the region of interest anchored at the origin and the crop `imgIn(roi)` OpenCV turns a region with a zero side into a 0 by 0 view, so an image under 2 pixels high or wide crops to 0 by 0.
- `Psf` (`psf.dfy`): the kernel the rasterised line is drawn into, and its division by its own sum.
- `Wiener` (`wiener.dfy`): the Wiener gain per frequency bin and the `calcWnrFilter` composition, with the forward transform as a function parameter.
- `Deblur` (`deblur.dfy`): the part of `main` that ties the three steps together. It proves the filter has exactly the size of the cropped image that `filter2DFreq` multiplies it with.

Floating-point values are modelled as mathematical reals. Where the source divides by zero:

- `Psf.PsfResult.ZeroMass` stands for a kernel with zero total, which the source would divide by zero everywhere.
- `Wiener.Value.NonFinite` stands for the infinity or NaN that IEEE division by zero gives, as OpenCV 4's `divide` computes it (see `Wiener.Gain` under "## Left out").
- `Wiener.Nsr.PosInfinity` stands for `1.0 / 0` when `snr == 0`.

Two behaviours of the code deserve a note:

- `fftshift` also runs on odd dimensions. Its quadrants are `cols / 2` by `rows / 2`, so an odd last row or column stays where it is. `Shift.FftShift` models that, and `Shift.FftShiftKeepsOddEdge` states it.
- `calcPSF` divides by the sum without checking it. When the line lights no pixel of the kernel, the sum is zero and the code carries on with a kernel of NaN entries. The model does not follow it there: it returns `ZeroMass`, which `Deblur.PrepareFilter` reports as `NoPsf` (see "## Left out").

## Model

| member | source | states |
|---|---|---|
| Matrices.PasteReadsBack | Project1/motion_deblur_filter.cpp:107-113 | Copying a block into a region and then reading that region back gives the block: the `copyTo` into a quadrant and the quadrant header read the same cells. |
| Matrices.PasteOwnBlock | Project1/motion_deblur_filter.cpp:103-113 | Writing a region back with the block read from it leaves the matrix unchanged: a quadrant copied out and back in changes nothing. |
| Shift.FftShift | Project1/motion_deblur_filter.cpp:98-114 | The output has the input's size. Every cell of the leading even part reads the cell half a height and half a width away, cyclically within that part. An odd last row or column is read in place. |
| Shift.SwapBlocks | Project1/motion_deblur_filter.cpp:107-113 | One exchange through a temporary: region A receives B's cells, region B receives A's original cells, and every other cell is unchanged. |
| Shift.ExchangesCell | Project1/motion_deblur_filter.cpp:103-113 | For quadrants `cx` wide and `cy` high, a cell inside the `2cy` by `2cx` part reads the cell half a height and half a width away after the two exchanges. Every other cell keeps its value. |
| Shift.QuadrantExchangesCell | Project1/motion_deblur_filter.cpp:101-113 | The two exchanges `q0 <-> q3` and `q1 <-> q2` with `cx = cols / 2`, `cy = rows / 2` leave at each cell exactly the value of the closed-form quadrant map. |
| Shift.FftShiftIsCyclicShift | Project1/motion_deblur_filter.cpp:101-113 | For even dimensions, `out[i][j] == in[Rotate(i, rows)][Rotate(j, cols)]`, where `Rotate(k, n) = (k + n/2) % n` is the textbook fftshift index map. |
| Shift.CyclicShiftCell | Project1/motion_deblur_filter.cpp:101-113 | The same cyclic-shift equation for one cell, with the halves `cy`, `cx` named. |
| Shift.FftShiftCentreToOrigin | Project1/motion_deblur_filter.cpp:101-113 | The centre element `(rows/2, cols/2)` lands at the origin and the origin lands at the centre. |
| Shift.FftShiftKeepsOddEdge | Project1/motion_deblur_filter.cpp:101-106 | An odd height leaves the last row unchanged. An odd width leaves the last column unchanged. |
| Shift.FftShiftInvolution | Project1/motion_deblur_filter.cpp:98-114 | Swapping twice gives back the input exactly, for any dimensions. |
| Shift.InvolutionCell | Project1/motion_deblur_filter.cpp:98-114 | At each cell, the second swap reads back the value the first one moved away. |
| Shift.SourceIndexInvolutive | Project1/motion_deblur_filter.cpp:101-102 | The per-axis index map undoes itself. |
| Shift.SourceIndexIsRotation | Project1/motion_deblur_filter.cpp:101-102 | On an even length `n = 2 * half`, the per-axis index map equals `Rotate`. |
| Shift.FftShiftSwapsHalves | Project1/motion_deblur_filter.cpp:103-113 | For even dimensions, the swap equals an independent reference: exchange the two halves of every row, then the two halves of the list of rows. |
| Shift.FftShiftPermutes | Project1/motion_deblur_filter.cpp:100-113 | For even dimensions, the multiset of entries is unchanged: the swap only moves values. |
| Shift.HalfSwap | Project1/motion_deblur_filter.cpp:107-113 | Exchanging the two leading halves of a sequence: position `k` reads the mirrored source index, the tail stays, and the length is kept. |
| Shift.RowwiseHalfSwapMultiset | Project1/motion_deblur_filter.cpp:103-113 | Exchanging the halves of every row keeps the multiset of all entries. |
| EvenCrop.BitAnd | Project1/motion_deblur_filter.cpp:59 | The AND is never above either operand, has bit 0 set exactly when both operands do, and `x & x == x`. |
| EvenCrop.AndMinusTwoClearsLowBit | Project1/motion_deblur_filter.cpp:59 | For `0 <= n <= INT_MAX`, the bitwise AND with the 32-bit pattern of `-2` is `n - n % 2`. |
| EvenCrop.AndClearsLowBit | Project1/motion_deblur_filter.cpp:59 | AND with an even mask whose upper `k` bits are all ones clears bit 0 of any `n` below `2^(k+1)` and keeps the other bits. |
| EvenCrop.BitAndLowOnes | Project1/motion_deblur_filter.cpp:59 | AND with a mask of `k` one-bits keeps every number below `2^k`. |
| EvenCrop.EvenFloor | Project1/motion_deblur_filter.cpp:59 | `n & -2` is even and `e <= n < e + 2`. |
| EvenCrop.EvenFloorIsGreatest | Project1/motion_deblur_filter.cpp:59 | Every even `k <= n` is at most `n & -2`. |
| EvenCrop.EvenFloorIdempotent | Project1/motion_deblur_filter.cpp:59 | Rounding twice is rounding once, and an even `n` is unchanged. |
| EvenCrop.EvenRoi | Project1/motion_deblur_filter.cpp:59 | The rectangle is anchored at `(0, 0)`. Its width and height are even, fit inside the image, and drop at most one column and one row. |
| EvenCrop.View | Project1/motion_deblur_filter.cpp:68 | `imgIn(roi)` has the rectangle's size when both sides are positive, and is 0 by 0 when either side is 0. Each cell is the image cell offset by the rectangle's corner. |
| EvenCrop.CropToEven | Project1/motion_deblur_filter.cpp:59-68 | The crop has even dimensions and keeps every remaining pixel at its original index. An image at least 2 by 2 loses at most one row and one column; a narrower or shorter one crops to 0 by 0. |
| EvenCrop.CropToEvenKeepsEvenImage | Project1/motion_deblur_filter.cpp:59-68 | An image with even, non-zero dimensions is not changed. An image with no pixels crops to 0 by 0. |
| EvenCrop.CropToEvenIdempotent | Project1/motion_deblur_filter.cpp:59 | Cropping twice equals cropping once. |
| Psf.Normalize | Project1/motion_deblur_filter.cpp:92-93 | The result is `ZeroMass` exactly when the sum is zero. Otherwise the kernel has the input's size, sums to 1, and each entry times the total gives back the input entry. |
| Psf.Sum | Project1/motion_deblur_filter.cpp:92 | A matrix without entries sums to 0. |
| Psf.SumSigns | Project1/motion_deblur_filter.cpp:92 | A matrix of zeros sums to 0, and a matrix without negative entries has a non-negative sum. |
| Psf.DivideRow | Project1/motion_deblur_filter.cpp:93 | The row keeps its length, and every entry times `d` gives back the original entry. |
| Psf.DivideRows | Project1/motion_deblur_filter.cpp:93 | Every row keeps its length, and every entry times `d` gives back the original entry. |
| Psf.NormalizedSumsToOne | Project1/motion_deblur_filter.cpp:92-93 | Rows divided by their own non-zero total sum to 1. |
| Psf.RowsSumDivide | Project1/motion_deblur_filter.cpp:92-93 | Dividing every entry by `d` divides the total by `d`. |
| Psf.DrawnKernel | Project1/motion_deblur_filter.cpp:88-92 | The kernel has the filter size and holds 255 at every lit pixel and 0 elsewhere. Its sum is 255 times the number of lit pixels inside it (`LitCount`). |
| Psf.RowsMass | Project1/motion_deblur_filter.cpp:88-92 | The rows of a drawn kernel sum to 255 for each lit pixel they contain. |
| Psf.RowMass | Project1/motion_deblur_filter.cpp:88-92 | One row of a drawn kernel sums to 255 for each lit pixel in it. |
| Psf.LitCountPositive | Project1/motion_deblur_filter.cpp:88-92 | The number of lit pixels is positive exactly when the line lights some pixel of the kernel. |
| Psf.CalcPsf | Project1/motion_deblur_filter.cpp:86-94 | There is no PSF exactly when the line lights no pixel of the kernel, that is when `LitCount` is 0. Otherwise the PSF has the filter size, sums to 1, and weighs every lit pixel by `1 / LitCount` and every other pixel by 0. |
| Psf.UniformAlongLine | Project1/motion_deblur_filter.cpp:91-93 | After division, every lit pixel holds `255 / total` and every other pixel holds 0. |
| Psf.DrawnKernelMass | Project1/motion_deblur_filter.cpp:88-92 | The drawn kernel's total is positive when some pixel is lit and zero when none is. |
| Psf.Anchor | Project1/motion_deblur_filter.cpp:89 | The centre `(height/2, width/2)` lies inside a non-empty kernel. |
| Psf.NormalizeKeepsSigns | Project1/motion_deblur_filter.cpp:92-93 | A non-negative kernel stays non-negative, and an entry is zero after normalising exactly when it was zero before. |
| Psf.NormalizeIgnoresScale | Project1/motion_deblur_filter.cpp:91-93 | Scaling the drawn kernel by any `k > 0` gives the same PSF, so the drawing value does not matter. |
| Psf.ScaledCell | Project1/motion_deblur_filter.cpp:92-93 | One entry of the scaling law: the scaled and unscaled kernels normalise to the same value at that entry. |
| Psf.NormalizeIdempotent | Project1/motion_deblur_filter.cpp:92-93 | Normalising a normalised kernel changes nothing. |
| Psf.RowsSumPositive | Project1/motion_deblur_filter.cpp:92 | A non-negative kernel with one positive entry has a positive total. |
| Psf.ScaledSum | Project1/motion_deblur_filter.cpp:92 | Scaling every entry by `k` scales the total by `k`. |
| Wiener.NsrOfSnr | Project1/motion_deblur_filter.cpp:64 | `1.0 / snr` is `+inf` exactly when `snr == 0`, and otherwise the number whose product with `snr` is 1. It is positive and finite exactly when `snr > 0`. |
| Wiener.Gain | Project1/motion_deblur_filter.cpp:148-150 | An infinite ratio gives gain 0. With a finite ratio, the bin is non-finite exactly when `Re^2 + nsr == 0`, and otherwise the gain times `Re^2 + nsr` gives `Re`. |
| Wiener.GainFinite | Project1/motion_deblur_filter.cpp:147-150 | A positive ratio keeps the denominator `Re^2 + nsr` positive, so every bin is finite. |
| Wiener.WienerFilter | Project1/motion_deblur_filter.cpp:146-150 | The filter has the real plane's size, each bin is the gain of that bin's real part, and with a positive ratio every bin is finite. |
| Wiener.GainQuotient | Project1/motion_deblur_filter.cpp:147-150 | With a positive ratio, the gain times `Re^2 + nsr` gives `Re`. |
| Wiener.GainSign | Project1/motion_deblur_filter.cpp:147-150 | With a positive ratio, the gain has the sign of `Re` and is zero exactly where `Re` is. |
| Wiener.GainBelowInverse | Project1/motion_deblur_filter.cpp:147-150 | `0 <= G * Re < 1`: the regularised filter always attenuates compared with the inverse filter `1 / Re`. |
| Wiener.BelowInverse | Project1/motion_deblur_filter.cpp:147-150 | Any `v` with `v * (Re^2 + n) == Re` and `n > 0` satisfies `0 <= v * Re < 1`. |
| Wiener.GainBounded | Project1/motion_deblur_filter.cpp:147-150 | `4 * nsr * G^2 <= 1` for every `Re`, so `|G| <= 1 / (2 sqrt(nsr))`. |
| Wiener.QuadraticBound | Project1/motion_deblur_filter.cpp:147-150 | Any `v` with `v * (Re^2 + n) == Re` satisfies `4 n v^2 <= 1`. |
| Wiener.GainMonotoneInNsr | Project1/motion_deblur_filter.cpp:149-150 | A larger positive ratio never increases the gain's magnitude. |
| Wiener.WienerIgnoresImaginary | Project1/motion_deblur_filter.cpp:146-150 | Two spectra with the same real plane give the same filter, whatever their imaginary planes. |
| Wiener.CalcWnrFilter | Project1/motion_deblur_filter.cpp:138-151 | The filter has the size of the transform's real plane, and with a positive ratio every bin is finite. |
| Wiener.CalcWnrFilterShape | Project1/motion_deblur_filter.cpp:138-151 | With a size-preserving transform, the filter has the PSF's size and is finite everywhere when the ratio is positive. |
| Deblur.RoiSize | Project1/motion_deblur_filter.cpp:59-63 | The filter size passed to `calcPSF` is even in both axes and drops at most one row and one column of the image. |
| Deblur.PrepareFilter | Project1/motion_deblur_filter.cpp:59-68 | There is no filter exactly when the line lights no pixel of the even region. Otherwise the cropped input is even, is anchored at the origin, keeps every pixel, and with `snr > 0` the filter is finite everywhere. |
| Deblur.FilterFitsInput | Project1/motion_deblur_filter.cpp:59-68 | With a size-preserving transform, the filter has exactly the cropped input's size, as multiplying their spectra requires. |
| Deblur.AnchorMovedToOrigin | Project1/motion_deblur_filter.cpp:138-141 | The transform sees the PSF's anchor, the centre `point` the line is drawn around at line 89, at the origin. That value is the lit-pixel weight `1 / LitCount` when the line passes through the anchor, and 0 otherwise. |

## Left out

- `dft`, `idft`, `merge`, `split` and `mulSpectrums` are OpenCV's. The forward transform is a function parameter, and `Wiener.KeepsShape` states the one property used: its real plane has its input's size.
- `ellipse` rasterisation is OpenCV's. The set of pixels the line lights is an input of `Psf.CalcPsf`, so `LEN` and `THETA` appear only through it.
- `filter2DFreq` (lines 118-134) is made only of the transforms above and a spectrum product, so it is not modelled. `Deblur.FilterFitsInput` proves the size agreement it needs.
- 32-bit float arithmetic (rounding, `CV_32F` storage) is not modelled: values are reals. Division by zero is represented by `NonFinite`, `ZeroMass` or `PosInfinity` instead of IEEE infinities and NaN.
- The command-line parser, `help`, `imread`, the empty-image check, `convertTo`, `normalize` and `imwrite` are input and output, and are left out.
- Shift.FftShiftPermutes: stated for even dimensions only. For odd dimensions the swap is still a permutation, but not one the half-swap reference describes. `Shift.FftShiftInvolution` covers all dimensions. `main` only passes even ones.
- Shift.FftShiftSwapsHalves: stated for even dimensions only. With an odd width, the last column does not move with its row.
- Shift.FftShiftIsCyclicShift: stated for even dimensions only. With odd dimensions the last row or column stays in place, which `Shift.FftShift` itself states.
- Wiener.Gain: follows OpenCV 4's `divide`, where a zero denominator gives infinity or NaN. OpenCV 3.x `divide` writes 0 for a zero divisor instead. The two differ only when `snr < 0` and `Re^2 == -1 / snr`. With `snr > 0` the denominator is never zero.
- Psf.Normalize: does not follow the code past a zero total. There `h / summa[0]` gives a kernel of NaN entries, which the code passes on to `calcWnrFilter` and `filter2DFreq`. The model returns `ZeroMass` and says nothing about that output.
- Deblur.PrepareFilter: returns `NoPsf` where the code carries on with the NaN kernel, or with an empty kernel when the image is under 2 pixels high or wide. The filtered output in those cases is not modelled.
- `fftshift` leaving its input untouched, which follows from `const Mat&` and the clone, holds by value semantics and needs no statement.
