/**
 * The pointwise part of `calcWnrFilter`: from the spectrum of the shifted PSF,
 * G = Re / (|Re|^2 + nsr) at every frequency bin, where Re is the real plane of
 * the spectrum and nsr the noise-to-signal ratio `1.0 / snr`. The Fourier
 * transform is OpenCV's and enters as a function parameter.
 */
module Wiener {
  import opened Matrices
  import Shift

  /** A complex spectrum as OpenCV splits it: a real plane and an imaginary plane. */
  datatype Spectrum = Spectrum(re: Matrix<real>, im: Matrix<real>)

  /**
   * One entry of a floating-point result: a finite number, or the infinity or
   * NaN that a division by zero produces.
   */
  datatype Value = Finite(v: real) | NonFinite

  /**
   * The noise-to-signal ratio `1.0 / double(snr)`: a real number for a non-zero
   * `snr`, positive infinity for `snr == 0`.
   */
  datatype Nsr = Ratio(r: real) | PosInfinity

  /** A finite, strictly positive ratio, which every `snr > 0` gives. */
  predicate Regularising(nsr: Nsr) {
    nsr.Ratio? && nsr.r > 0.0
  }

  /** `1.0 / double(snr)` from `main`. */
  function NsrOfSnr(snr: int): (nsr: Nsr)
    ensures nsr.PosInfinity? <==> snr == 0
    ensures nsr.Ratio? ==> nsr.r * (snr as real) == 1.0
    ensures snr > 0 <==> Regularising(nsr)
  {
    if snr == 0 then PosInfinity else Ratio(1.0 / (snr as real))
  }

  /**
   * The transfer function at one bin: `pow(abs(re), 2)`, plus nsr, then
   * `re` divided by that. An infinite nsr makes the denominator infinite and
   * the quotient zero; a zero denominator gives a non-finite value.
   */
  function Gain(re: real, nsr: Nsr): (g: Value)
    ensures nsr.PosInfinity? ==> g == Finite(0.0)
    ensures nsr.Ratio? ==> (g.NonFinite? <==> re * re + nsr.r == 0.0)
    ensures nsr.Ratio? && g.Finite? ==> g.v * (re * re + nsr.r) == re
  {
    match nsr
    case PosInfinity => Finite(0.0)
    case Ratio(n) =>
      var denom := re * re + n;
      if denom == 0.0 then NonFinite else Finite(re / denom)
  }

  predicate AllFinite(g: Matrix<Value>) {
    forall i, j :: 0 <= i < g.rows && 0 <= j < g.cols ==> g.cells[i][j].Finite?
  }

  /**
   * `calcWnrFilter` after the transform: the Wiener gain at every bin of the
   * spectrum. Only the real plane is read. The result has the spectrum's
   * dimensions, and with a positive finite nsr every bin is finite.
   */
  function WienerFilter(spectrum: Spectrum, nsr: Nsr): (g: Matrix<Value>)
    ensures SameShape(g, spectrum.re)
    ensures forall i, j {:trigger g.cells[i][j]} :: 0 <= i < g.rows && 0 <= j < g.cols ==>
              g.cells[i][j] == Gain(spectrum.re.cells[i][j], nsr)
    ensures Regularising(nsr) ==> AllFinite(g)
  {
    var re := spectrum.re;
    var g: Matrix<Value> := Mat(re.rows, re.cols,
      seq(re.rows, i requires 0 <= i < re.rows =>
        seq(re.cols, j requires 0 <= j < re.cols => Gain(re.cells[i][j], nsr))));
    assert Regularising(nsr) ==> AllFinite(g) by {
      if Regularising(nsr) {
        forall i, j | 0 <= i < g.rows && 0 <= j < g.cols
          ensures g.cells[i][j].Finite?
        {
          GainFinite(re.cells[i][j], nsr);
        }
      }
    }
    g
  }

  /** A positive nsr keeps the denominator positive, so the gain is finite. */
  lemma GainFinite(re: real, nsr: Nsr)
    ensures Regularising(nsr) ==> re * re + nsr.r > 0.0 && Gain(re, nsr).Finite?
  {
  }

  /** With a positive nsr the gain is the one number that times the denominator gives `re`. */
  lemma GainQuotient(re: real, nsr: Nsr)
    requires Regularising(nsr)
    ensures re * re + nsr.r > 0.0
    ensures Gain(re, nsr).Finite?
    ensures Gain(re, nsr).v * (re * re + nsr.r) == re
  {
  }

  /** With a positive nsr the gain has the sign of `re`, and is zero exactly where `re` is. */
  lemma GainSign(re: real, nsr: Nsr)
    requires Regularising(nsr)
    ensures Gain(re, nsr).Finite?
    ensures Gain(re, nsr).v > 0.0 <==> re > 0.0
    ensures Gain(re, nsr).v < 0.0 <==> re < 0.0
    ensures Gain(re, nsr).v == 0.0 <==> re == 0.0
  {
    GainQuotient(re, nsr);
    SignOfProduct(Gain(re, nsr).v, re * re + nsr.r, re);
  }

  /** `a * d == b` with `d > 0` gives `a` the sign of `b`. */
  lemma SignOfProduct(a: real, d: real, b: real)
    requires d > 0.0 && a * d == b
    ensures a > 0.0 <==> b > 0.0
    ensures a < 0.0 <==> b < 0.0
  {
  }

  /**
   * The gain never reaches the plain inverse filter 1 / re: 0 <= G * re < 1.
   * The regularisation always attenuates.
   */
  lemma GainBelowInverse(re: real, nsr: Nsr)
    requires Regularising(nsr)
    ensures Gain(re, nsr).Finite?
    ensures 0.0 <= Gain(re, nsr).v * re < 1.0
  {
    GainQuotient(re, nsr);
    var v := Gain(re, nsr).v;
    BelowInverse(nsr.r, v, re);
    assert Gain(re, nsr).v * re == v * re;
  }

  /**
   * A `v` with `v * (re^2 + n) == re` and `n > 0`: both `v * re` and
   * `1 - v * re` times the positive denominator give non-negative numbers,
   * `re^2` and `n`, so `v * re` lies in [0, 1).
   */
  lemma BelowInverse(n: real, v: real, re: real)
    requires n > 0.0 && v * (re * re + n) == re
    ensures 0.0 <= v * re < 1.0
  {
    var d := re * re + n;
    SquareNonNegative(re);
    assert d > 0.0;
    assert (v * re) * d == re * re by {
      assert (v * re) * (re * re + n) == re * (v * (re * re + n));
    }
    assert (1.0 - v * re) * d == n by {
      assert (1.0 - v * re) * (re * re + n) == (re * re + n) - (v * re) * (re * re + n);
    }
    SignOfProduct(v * re, d, re * re);
    SignOfProduct(1.0 - v * re, d, n);
  }

  lemma SquareNonNegative(x: real)
    ensures x * x >= 0.0
  {
  }

  /**
   * The gain is bounded whatever the spectrum: 4 * nsr * G^2 <= 1, that is
   * |G| <= 1 / (2 sqrt(nsr)). This is why the output stays finite and bounded
   * across a sweep of ratios.
   */
  lemma GainBounded(re: real, nsr: Nsr)
    requires Regularising(nsr)
    ensures Gain(re, nsr).Finite?
    ensures 4.0 * nsr.r * Gain(re, nsr).v * Gain(re, nsr).v <= 1.0
  {
    GainQuotient(re, nsr);
    QuadraticBound(nsr.r, Gain(re, nsr).v, re);
  }

  /**
   * A `v` with `v * (re^2 + n) == re` makes `re` a real root of
   * `v x^2 - x + v n`, so the discriminant `1 - 4 n v^2` is non-negative:
   * it equals `(1 - 2 v re)^2`.
   */
  lemma QuadraticBound(n: real, v: real, re: real)
    requires v * (re * re + n) == re
    ensures 4.0 * n * v * v <= 1.0
  {
    assert 4.0 * v * (v * (re * re + n)) == 4.0 * v * re;
    assert 1.0 - 4.0 * n * v * v == (1.0 - 2.0 * v * re) * (1.0 - 2.0 * v * re);
    SquareNonNegative(1.0 - 2.0 * v * re);
  }

  /** A larger nsr never increases the magnitude of the gain. */
  lemma GainMonotoneInNsr(re: real, n1: real, n2: real)
    requires 0.0 < n1 <= n2
    ensures Gain(re, Ratio(n1)).Finite? && Gain(re, Ratio(n2)).Finite?
    ensures Gain(re, Ratio(n2)).v * Gain(re, Ratio(n2)).v <= Gain(re, Ratio(n1)).v * Gain(re, Ratio(n1)).v
  {
    GainQuotient(re, Ratio(n1));
    GainQuotient(re, Ratio(n2));
    SmallerForLargerDenominator(Gain(re, Ratio(n1)).v, Gain(re, Ratio(n2)).v, re * re + n1, re * re + n2, re);
  }

  lemma PositiveProduct(a: real, b: real)
    requires a > 0.0 && b > 0.0
    ensures a * b > 0.0
  {
  }

  /** Squaring `v * d == re` gives `v^2 * d^2 == re^2`. */
  lemma SquaredQuotient(v: real, d: real, re: real)
    requires v * d == re
    ensures (v * v) * (d * d) == re * re
  {
  }

  /** Two quotients of one `re` by `0 < d1 <= d2`: the second is no larger in magnitude. */
  lemma SmallerForLargerDenominator(g1: real, g2: real, d1: real, d2: real, re: real)
    requires 0.0 < d1 <= d2 && g1 * d1 == re && g2 * d2 == re
    ensures g2 * g2 <= g1 * g1
  {
    SquaredQuotient(g1, d1, re);
    SquaredQuotient(g2, d2, re);
    PositiveProduct(d1, d1);
    assert d1 * d1 <= d1 * d2 <= d2 * d2;
    assert g2 * g2 >= 0.0;
    assert (g2 * g2) * (d1 * d1) <= (g2 * g2) * (d2 * d2);
    assert (g2 * g2) * (d1 * d1) <= (g1 * g1) * (d1 * d1);
    if g2 * g2 > g1 * g1 {
      PositiveProduct(g2 * g2 - g1 * g1, d1 * d1);
    }
  }

  /** The imaginary plane never matters: spectra with the same real plane give the same filter. */
  lemma WienerIgnoresImaginary(s1: Spectrum, s2: Spectrum, nsr: Nsr)
    requires s1.re == s2.re
    ensures WienerFilter(s1, nsr) == WienerFilter(s2, nsr)
  {
    SameCellsEqual(WienerFilter(s1, nsr), WienerFilter(s2, nsr));
  }

  /** A transform that returns planes of its input's size, as OpenCV's `dft` does. */
  ghost predicate KeepsShape(dft: Matrix<real> -> Spectrum) {
    forall m: Matrix<real> {:trigger dft(m)} :: SameShape(dft(m).re, m)
  }

  /**
   * `calcWnrFilter`: shift the PSF so its centre sits at the origin, transform
   * it, and take the Wiener gain of the real plane.
   */
  function CalcWnrFilter(psf: Matrix<real>, dft: Matrix<real> -> Spectrum, nsr: Nsr): (g: Matrix<Value>)
    ensures SameShape(g, dft(Shift.FftShift(psf)).re)
    ensures Regularising(nsr) ==> AllFinite(g)
  {
    WienerFilter(dft(Shift.FftShift(psf)), nsr)
  }

  /**
   * With a size-preserving transform the filter has the PSF's dimensions, and
   * with a positive nsr it is finite at every bin.
   */
  lemma CalcWnrFilterShape(psf: Matrix<real>, dft: Matrix<real> -> Spectrum, nsr: Nsr)
    requires KeepsShape(dft)
    ensures SameShape(CalcWnrFilter(psf, dft, nsr), psf)
    ensures Regularising(nsr) ==> AllFinite(CalcWnrFilter(psf, dft, nsr))
  {
    var shifted := Shift.FftShift(psf);
    assert SameShape(dft(shifted).re, shifted);
  }
}
