/**
 * The part of `main` between loading the image and filtering it: cut the
 * even region of interest, build the PSF of that size, and turn it into the
 * Wiener transfer function with `nsr = 1 / snr`. The filter is then applied
 * to the cropped image spectrum by spectrum, which only makes sense when the
 * two have the same size.
 */
module Deblur {
  import opened Matrices
  import EvenCrop
  import Psf
  import Shift
  import Wiener

  /** The cropped image and its Wiener filter, or `NoPsf` when the line misses the kernel. */
  datatype Prepared<T> = Prepared(input: Matrix<T>, filter: Matrix<Wiener.Value>) | NoPsf

  /** `roi.size()`: the filter size is the even region's width and height. */
  function RoiSize<T>(image: Matrix<T>): (size: Psf.Size)
    requires image.rows <= EvenCrop.INT_MAX && image.cols <= EvenCrop.INT_MAX
    ensures size.width % 2 == 0 && size.height % 2 == 0
    ensures size.width <= image.cols < size.width + 2
    ensures size.height <= image.rows < size.height + 2
  {
    var roi := EvenCrop.EvenRoi(image);
    Psf.Size(roi.width, roi.height)
  }

  /**
   * `calcPSF(h, roi.size(), LEN, THETA)` then `calcWnrFilter(h, Hw, 1.0 / double(snr))`,
   * paired with `imgIn(roi)`. `lit` is the set of pixels the rasterised motion
   * line covers; `dft` is the forward transform.
   */
  function PrepareFilter<T>(image: Matrix<T>, lit: set<(int, int)>, snr: int,
                            dft: Matrix<real> -> Wiener.Spectrum): (p: Prepared<T>)
    requires image.rows <= EvenCrop.INT_MAX && image.cols <= EvenCrop.INT_MAX
    ensures p.NoPsf? <==> !Psf.LightsKernel(RoiSize(image), lit)
    ensures p.Prepared? ==> p.input.rows % 2 == 0 && p.input.cols % 2 == 0
    ensures p.Prepared? ==> p.input.rows <= image.rows < p.input.rows + 2
    ensures p.Prepared? ==> p.input.cols <= image.cols < p.input.cols + 2
    ensures p.Prepared? ==> forall i, j {:trigger p.input.cells[i][j]} :: 0 <= i < p.input.rows && 0 <= j < p.input.cols ==>
              p.input.cells[i][j] == image.cells[i][j]
    ensures p.Prepared? && snr > 0 ==> Wiener.AllFinite(p.filter)
  {
    var size := RoiSize(image);
    match Psf.CalcPsf(size, lit)
    case ZeroMass => NoPsf
    case Normalized(h) =>
      Prepared(EvenCrop.CropToEven(image), Wiener.CalcWnrFilter(h, dft, Wiener.NsrOfSnr(snr)))
  }

  /**
   * With a size-preserving transform the filter has exactly the size of the
   * cropped image, so the spectra `filter2DFreq` multiplies agree in size.
   */
  lemma FilterFitsInput<T>(image: Matrix<T>, lit: set<(int, int)>, snr: int,
                           dft: Matrix<real> -> Wiener.Spectrum)
    requires image.rows <= EvenCrop.INT_MAX && image.cols <= EvenCrop.INT_MAX
    requires Wiener.KeepsShape(dft)
    ensures var p := PrepareFilter(image, lit, snr, dft);
            p.Prepared? ==> SameShape(p.filter, p.input)
  {
    var size := RoiSize(image);
    var r := Psf.CalcPsf(size, lit);
    if r.Normalized? {
      Wiener.CalcWnrFilterShape(r.psf, dft, Wiener.NsrOfSnr(snr));
    }
  }

  /**
   * The transform sees the PSF with its anchor, the centre the line is drawn
   * around, moved to the origin: the value there is the weight `1 / LitCount`
   * of a lit pixel when the line passes through the anchor, and 0 otherwise.
   */
  lemma AnchorMovedToOrigin(filterSize: Psf.Size, lit: set<(int, int)>)
    requires filterSize.height >= 2 && filterSize.width >= 2
    requires Psf.LightsKernel(filterSize, lit)
    ensures Psf.CalcPsf(filterSize, lit).Normalized?
    ensures var psf := Psf.CalcPsf(filterSize, lit).psf;
            var anchor := Psf.Anchor(filterSize);
            Shift.FftShift(psf).cells[0][0] == psf.cells[anchor.0][anchor.1]
            == if (anchor.1, anchor.0) in lit then 1.0 / (Psf.LitCount(filterSize, lit) as real) else 0.0
  {
    var psf := Psf.CalcPsf(filterSize, lit).psf;
    Shift.FftShiftCentreToOrigin(psf);
  }
}
