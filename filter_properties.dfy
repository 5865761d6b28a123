/**
  What the four filters promise: the stencils written out, the ranges of the
  intermediate sums, the behaviour on a flat plane, where each output pixel
  comes from, and the equality of the two blurs.
 */
module FilterProperties {
  import opened Raster
  import opened Kernels
  import opened Convolution
  import opened Filters

  // ---------------------------------------------------------------------
  // Gaussian and low-pass blur
  // ---------------------------------------------------------------------

  /**
    The blur's weighted sum lies in [0, 255*273], so the clamp never fires:
    the output is exactly the weighted sum divided by 273, rounded down.
   */
  lemma GaussianNeverClamps(gray: seq<byte>, w: nat, h: nat, x: nat, y: nat)
    requires |gray| == w * h && 2 <= x && x + 2 < w && 2 <= y && y + 2 < h
    ensures 0 <= GaussianSum(gray, w, h, x, y) <= 255 * GAUSSIAN_DIVISOR
    ensures GaussianAt(gray, w, h, x, y) == GaussianSum(gray, w, h, x, y) / GAUSSIAN_DIVISOR
  {
    GaussianWeights();
    WindowSumBounds(GAUSSIAN, gray, w, h, x - 2, y - 2, 5);
  }

  /** A flat plane of value c blurs to c: the weights sum to the divisor. */
  lemma GaussianFlat(gray: seq<byte>, w: nat, h: nat, x: nat, y: nat, c: byte)
    requires |gray| == w * h && 2 <= x && x + 2 < w && 2 <= y && y + 2 < h && Flat(gray, c)
    ensures GaussianAt(gray, w, h, x, y) == c
  {
    GaussianWeights();
    FlatWindowSum(GAUSSIAN, gray, w, h, x - 2, y - 2, 5, c);
  }

  /** The two blurs agree at every position. */
  lemma LowPassAtMatchesGaussian(gray: seq<byte>, w: nat, h: nat, x: nat, y: nat)
    requires |gray| == w * h && 2 <= x && x + 2 < w && 2 <= y && y + 2 < h
    ensures LowPassAt(gray, w, h, x, y) == GaussianAt(gray, w, h, x, y)
  {
    LowPassIsGaussianTable();
  }

  lemma LowPassRowMatch(gray: seq<byte>, w: nat, h: nat, y: nat)
    requires |gray| == w * h && 2 <= y && y + 2 < h
    ensures OutputRow(LowPass, gray, w, h, y) == OutputRow(Gaussian, gray, w, h, y)
  {
    var lp, g := OutputRow(LowPass, gray, w, h, y), OutputRow(Gaussian, gray, w, h, y);
    forall j | 0 <= j < |g|
      ensures lp[j] == g[j]
    {
      assert lp[j] == FromGray(At(LowPass, gray, w, h, j + 2, y));
      assert g[j] == FromGray(At(Gaussian, gray, w, h, j + 2, y));
      LowPassAtMatchesGaussian(gray, w, h, j + 2, y);
    }
  }

  lemma {:induction false} LowPassRowsMatch(gray: seq<byte>, w: nat, h: nat, n: nat)
    requires |gray| == w * h && n <= Interior(h, 2)
    ensures OutputRows(LowPass, gray, w, h, n) == OutputRows(Gaussian, gray, w, h, n)
  {
    if n > 0 {
      LowPassRowsMatch(gray, w, h, n - 1);
      LowPassRowMatch(gray, w, h, n + 1);
    }
  }

  /** compute_low_pass_filter and compute_gaussian produce the same pixels. */
  lemma LowPassMatchesGaussian(gray: seq<byte>, w: nat, h: nat)
    requires |gray| == w * h
    ensures Output(LowPass, gray, w, h) == Output(Gaussian, gray, w, h)
  {
    LowPassRowsMatch(gray, w, h, Interior(h, 2));
  }

  // ---------------------------------------------------------------------
  // Laplacian
  // ---------------------------------------------------------------------

  /** The Laplacian sum is nine times the centre minus its eight neighbours. */
  lemma LaplaceSharpen(gray: seq<byte>, w: nat, h: nat, x: nat, y: nat)
    requires |gray| == w * h && 1 <= x && x + 1 < w && 1 <= y && y + 1 < h
    ensures LaplaceAt(gray, w, h, x, y) == Clamp(
      9 * Pixel(gray, w, h, x, y)
      - (Pixel(gray, w, h, x - 1, y - 1) + Pixel(gray, w, h, x, y - 1) + Pixel(gray, w, h, x + 1, y - 1)
         + Pixel(gray, w, h, x - 1, y) + Pixel(gray, w, h, x + 1, y)
         + Pixel(gray, w, h, x - 1, y + 1) + Pixel(gray, w, h, x, y + 1) + Pixel(gray, w, h, x + 1, y + 1)))
  {
    LaplaceWeights();
    WindowSum3(LAPLACE, gray, w, h, x - 1, y - 1);
  }

  /** A flat plane of value c sharpens to c: the weights sum to 1. */
  lemma LaplaceFlat(gray: seq<byte>, w: nat, h: nat, x: nat, y: nat, c: byte)
    requires |gray| == w * h && 1 <= x && x + 1 < w && 1 <= y && y + 1 < h && Flat(gray, c)
    ensures LaplaceAt(gray, w, h, x, y) == c
  {
    LaplaceWeights();
    FlatWindowSum(LAPLACE, gray, w, h, x - 1, y - 1, 3, c);
  }

  // ---------------------------------------------------------------------
  // Sobel
  // ---------------------------------------------------------------------

  /**
    gx is the right column minus the left column, and gy the bottom row
    minus the top row, each weighted 1, 2, 1.
   */
  lemma SobelStencils(gray: seq<byte>, w: nat, h: nat, x: nat, y: nat)
    requires |gray| == w * h && 1 <= x && x + 1 < w && 1 <= y && y + 1 < h
    ensures SobelX(gray, w, h, x, y)
      == (Pixel(gray, w, h, x + 1, y - 1) + 2 * Pixel(gray, w, h, x + 1, y) + Pixel(gray, w, h, x + 1, y + 1))
       - (Pixel(gray, w, h, x - 1, y - 1) + 2 * Pixel(gray, w, h, x - 1, y) + Pixel(gray, w, h, x - 1, y + 1))
    ensures SobelY(gray, w, h, x, y)
      == (Pixel(gray, w, h, x - 1, y + 1) + 2 * Pixel(gray, w, h, x, y + 1) + Pixel(gray, w, h, x + 1, y + 1))
       - (Pixel(gray, w, h, x - 1, y - 1) + 2 * Pixel(gray, w, h, x, y - 1) + Pixel(gray, w, h, x + 1, y - 1))
  {
    SobelWeights();
    WindowSum3(SOBEL_X, gray, w, h, x - 1, y - 1);
    WindowSum3(SOBEL_Y, gray, w, h, x - 1, y - 1);
  }

  /**
    |gx|, |gy| <= 1020, so gx*gx + gy*gy <= 2080800: the gradient
    arithmetic of compute_sobel stays within i32.
   */
  lemma SobelFitsI32(gray: seq<byte>, w: nat, h: nat, x: nat, y: nat)
    requires |gray| == w * h && 1 <= x && x + 1 < w && 1 <= y && y + 1 < h
    ensures -1020 <= SobelX(gray, w, h, x, y) <= 1020
    ensures -1020 <= SobelY(gray, w, h, x, y) <= 1020
    ensures var gx, gy := SobelX(gray, w, h, x, y), SobelY(gray, w, h, x, y);
      0 <= gx * gx + gy * gy <= 2080800 < 0x8000_0000
  {
    SobelWeights();
    WindowSumBounds(SOBEL_X, gray, w, h, x - 1, y - 1, 3);
    WindowSumBounds(SOBEL_Y, gray, w, h, x - 1, y - 1, 3);
    var gx, gy := SobelX(gray, w, h, x, y), SobelY(gray, w, h, x, y);
    SquareBound(gx);
    SquareBound(gy);
  }

  lemma SquareBound(g: int)
    requires -1020 <= g <= 1020
    ensures 0 <= g * g <= 1020 * 1020
  {
    var a: nat := if g < 0 then -g else g;
    assert g * g == a * a;
    MulMonotonic(a, 1020, a);
    MulMonotonic(a, 1020, 1020);
  }

  /** A flat plane has no edges: both gradients vanish and the magnitude is 0. */
  lemma SobelFlat(gray: seq<byte>, w: nat, h: nat, x: nat, y: nat, c: byte)
    requires |gray| == w * h && 1 <= x && x + 1 < w && 1 <= y && y + 1 < h && Flat(gray, c)
    ensures SobelX(gray, w, h, x, y) == 0 && SobelY(gray, w, h, x, y) == 0
    ensures SobelAt(gray, w, h, x, y) == 0
  {
    SobelWeights();
    FlatWindowSum(SOBEL_X, gray, w, h, x - 1, y - 1, 3, c);
    FlatWindowSum(SOBEL_Y, gray, w, h, x - 1, y - 1, 3, c);
  }

  // ---------------------------------------------------------------------
  // Whole outputs on a flat plane
  // ---------------------------------------------------------------------

  /** What filter f makes of a flat plane of value c: c for the blurs and the Laplacian, 0 for Sobel. */
  function FlatResponse(f: Filter, c: byte): byte
  {
    if f.Sobel? then 0 else c
  }

  /** Every filter maps a flat plane of value c to its flat response at every position. */
  lemma AtFlat(f: Filter, gray: seq<byte>, w: nat, h: nat, x: nat, y: nat, c: byte)
    requires |gray| == w * h && Centred(f, w, h, x, y) && Flat(gray, c)
    ensures At(f, gray, w, h, x, y) == FlatResponse(f, c)
  {
    match f
    case Gaussian => GaussianFlat(gray, w, h, x, y, c);
    case LowPass => LowPassAtMatchesGaussian(gray, w, h, x, y); GaussianFlat(gray, w, h, x, y, c);
    case Laplace => LaplaceFlat(gray, w, h, x, y, c);
    case Sobel => SobelFlat(gray, w, h, x, y, c);
  }

  lemma {:induction false} OutputRowsFlat(f: Filter, gray: seq<byte>, w: nat, h: nat, n: nat, c: byte)
    requires |gray| == w * h && n <= Interior(h, Margin(f)) && Flat(gray, c)
    ensures forall i :: 0 <= i < |OutputRows(f, gray, w, h, n)| ==> OutputRows(f, gray, w, h, n)[i] == FromGray(FlatResponse(f, c))
  {
    if n > 0 {
      OutputRowsFlat(f, gray, w, h, n - 1, c);
      var row := OutputRow(f, gray, w, h, n - 1 + Margin(f));
      forall j | 0 <= j < |row|
        ensures row[j] == FromGray(FlatResponse(f, c))
      {
        AtFlat(f, gray, w, h, j + Margin(f), n - 1 + Margin(f), c);
      }
    }
  }

  /** On a flat plane of value c, every output pixel of every filter is its flat response. */
  lemma OutputFlat(f: Filter, gray: seq<byte>, w: nat, h: nat, c: byte)
    requires |gray| == w * h && Flat(gray, c)
    ensures forall i :: 0 <= i < |Output(f, gray, w, h)| ==> Output(f, gray, w, h)[i] == FromGray(FlatResponse(f, c))
  {
    OutputRowsFlat(f, gray, w, h, Interior(h, Margin(f)), c);
  }
}
