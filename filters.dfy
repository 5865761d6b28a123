/**
  The four fixed-kernel filters over the gray plane.

  Each filter visits the interior positions of the w×h plane row by row
  (y outer, x inner), computes one byte from the window around (x, y) and
  appends it to its output. The output is therefore the row-major listing of
  a (w - 2m)×(h - 2m) image, m being the kernel's margin (2 for the 5×5
  blurs, 1 for the 3×3 kernels).

  For each filter there is a per-pixel specification (GaussianAt, LaplaceAt,
  SobelAt), a whole-output specification (GaussianImage, ...) listing the
  per-pixel values in row-major order, and a method with the program's loops
  proved to produce exactly that output.
 */
module Filters {
  import opened Raster
  import opened Kernels
  import opened Convolution

  datatype Option<T> = None | Some(value: T)

  // ---------------------------------------------------------------------
  // Per-pixel specifications
  // ---------------------------------------------------------------------

  /**
    Gaussian blur at (x, y): the weighted sum of the 5×5 window centred on
    (x, y), divided by 273 (exact division, rounded down), clamped to a byte.
   */
  function GaussianAt(gray: seq<byte>, w: nat, h: nat, x: nat, y: nat): byte
    requires |gray| == w * h && 2 <= x && x + 2 < w && 2 <= y && y + 2 < h
  {
    Clamp(GaussianSum(gray, w, h, x, y) / GAUSSIAN_DIVISOR)
  }

  /** The Gaussian weighted sum (numerators only) of the 5×5 window centred on (x, y). */
  function GaussianSum(gray: seq<byte>, w: nat, h: nat, x: nat, y: nat): int
    requires |gray| == w * h && 2 <= x && x + 2 < w && 2 <= y && y + 2 < h
  {
    GaussianWeights();
    Convolve(GAUSSIAN, gray, w, h, x - 2, y - 2)
  }

  /** Low-pass blur at (x, y): the same computation over the low-pass table. */
  function LowPassAt(gray: seq<byte>, w: nat, h: nat, x: nat, y: nat): byte
    requires |gray| == w * h && 2 <= x && x + 2 < w && 2 <= y && y + 2 < h
  {
    LowPassWeights();
    Clamp(Convolve(LOW_PASS, gray, w, h, x - 2, y - 2) / GAUSSIAN_DIVISOR)
  }

  /** Laplacian sharpening at (x, y): the 3×3 weighted sum, clamped to a byte. */
  function LaplaceAt(gray: seq<byte>, w: nat, h: nat, x: nat, y: nat): byte
    requires |gray| == w * h && 1 <= x && x + 1 < w && 1 <= y && y + 1 < h
  {
    LaplaceWeights();
    Clamp(Convolve(LAPLACE, gray, w, h, x - 1, y - 1))
  }

  /** Horizontal Sobel gradient gx at (x, y). */
  function SobelX(gray: seq<byte>, w: nat, h: nat, x: nat, y: nat): int
    requires |gray| == w * h && 1 <= x && x + 1 < w && 1 <= y && y + 1 < h
  {
    SobelWeights();
    Convolve(SOBEL_X, gray, w, h, x - 1, y - 1)
  }

  /** Vertical Sobel gradient gy at (x, y). */
  function SobelY(gray: seq<byte>, w: nat, h: nat, x: nat, y: nat): int
    requires |gray| == w * h && 1 <= x && x + 1 < w && 1 <= y && y + 1 < h
  {
    SobelWeights();
    Convolve(SOBEL_Y, gray, w, h, x - 1, y - 1)
  }

  /** The integer square root, by halving: the root of n is twice the root of n / 4, or one more. */
  function ISqrt(n: nat): nat
  {
    if n < 4 then (if n == 0 then 0 else 1)
    else
      var s := 2 * ISqrt(n / 4);
      if (s + 1) * (s + 1) <= n then s + 1 else s
  }

  /** From the root t of n / 4, the root of n is 2t or 2t + 1. */
  lemma ISqrtStep(n: nat, t: nat)
    requires t * t <= n / 4 < (t + 1) * (t + 1)
    ensures (2 * t) * (2 * t) <= n < (2 * t + 2) * (2 * t + 2)
  {
    var q := n / 4;
    assert 4 * q <= n < 4 * q + 4;
    assert (2 * t) * (2 * t) == 4 * (t * t);
    assert (2 * t + 2) * (2 * t + 2) == 4 * ((t + 1) * (t + 1));
  }

  /** ISqrt(n) is the largest r with r*r <= n, i.e. the integer part of sqrt(n). */
  lemma {:induction false} ISqrtIsFloorRoot(n: nat)
    ensures ISqrt(n) * ISqrt(n) <= n < (ISqrt(n) + 1) * (ISqrt(n) + 1)
  {
    if n >= 4 {
      ISqrtIsFloorRoot(n / 4);
      ISqrtStep(n, ISqrt(n / 4));
    }
  }

  /**
    The gradient magnitude as a byte: sqrt(gx² + gy²), capped at 255 and
    truncated (MagnitudeIsCappedRoot states the result).
   */
  function Magnitude(gx: int, gy: int): byte
  {
    var r := ISqrt(gx * gx + gy * gy);
    if r > 255 then 255 else r
  }

  /** Below the cap the magnitude is the integer part of sqrt(gx² + gy²); the cap is reached from 255² on. */
  lemma MagnitudeIsCappedRoot(gx: int, gy: int)
    ensures var m, n := Magnitude(gx, gy), gx * gx + gy * gy;
      (m < 255 ==> m * m <= n < (m + 1) * (m + 1)) && (m == 255 <==> 255 * 255 <= n)
  {
    var n := gx * gx + gy * gy;
    var r := ISqrt(n);
    ISqrtIsFloorRoot(n);
    if r > 255 {
      MulMonotonic(255, r, 255);
      MulMonotonic(255, r, r);
    } else if r < 255 {
      MulMonotonic(r + 1, 255, r + 1);
      MulMonotonic(r + 1, 255, 255);
    }
  }

  /** Sobel edge magnitude at (x, y). */
  function SobelAt(gray: seq<byte>, w: nat, h: nat, x: nat, y: nat): byte
    requires |gray| == w * h && 1 <= x && x + 1 < w && 1 <= y && y + 1 < h
  {
    Magnitude(SobelX(gray, w, h, x, y), SobelY(gray, w, h, x, y))
  }

  // ---------------------------------------------------------------------
  // Whole-output specifications: the per-pixel values, row by row
  // ---------------------------------------------------------------------

  /** The four fixed-kernel filters. */
  datatype Filter = Gaussian | LowPass | Laplace | Sobel

  /** Positions cut off at each border: half the kernel width. */
  function Margin(f: Filter): nat
  {
    if f.Gaussian? || f.LowPass? then 2 else 1
  }

  /** The kernel window of f centred on (x, y) lies inside the w×h plane. */
  predicate Centred(f: Filter, w: nat, h: nat, x: nat, y: nat)
  {
    Margin(f) <= x && x + Margin(f) < w && Margin(f) <= y && y + Margin(f) < h
  }

  /** The byte filter f writes for position (x, y). */
  function At(f: Filter, gray: seq<byte>, w: nat, h: nat, x: nat, y: nat): byte
    requires |gray| == w * h && Centred(f, w, h, x, y)
  {
    match f
    case Gaussian => GaussianAt(gray, w, h, x, y)
    case LowPass => LowPassAt(gray, w, h, x, y)
    case Laplace => LaplaceAt(gray, w, h, x, y)
    case Sobel => SobelAt(gray, w, h, x, y)
  }

  /** Output row y of filter f: one gray pixel per interior column, left to right. */
  function OutputRow(f: Filter, gray: seq<byte>, w: nat, h: nat, y: nat): seq<Color32>
    requires |gray| == w * h && Margin(f) <= y && y + Margin(f) < h
  {
    var cols := Interior(w, Margin(f));
    seq(cols, j requires 0 <= j < cols => FromGray(At(f, gray, w, h, j + Margin(f), y)))
  }

  /** The first n interior rows of filter f's output, top to bottom. */
  function OutputRows(f: Filter, gray: seq<byte>, w: nat, h: nat, n: nat): seq<Color32>
    requires |gray| == w * h && n <= Interior(h, Margin(f))
  {
    if n == 0 then []
    else OutputRows(f, gray, w, h, n - 1) + OutputRow(f, gray, w, h, n - 1 + Margin(f))
  }

  /** Filter f's whole output: every interior row, top to bottom. */
  function Output(f: Filter, gray: seq<byte>, w: nat, h: nat): seq<Color32>
    requires |gray| == w * h
  {
    OutputRows(f, gray, w, h, Interior(h, Margin(f)))
  }

  lemma {:induction false} OutputRowsSize(f: Filter, gray: seq<byte>, w: nat, h: nat, n: nat)
    requires |gray| == w * h && n <= Interior(h, Margin(f))
    ensures |OutputRows(f, gray, w, h, n)| == n * Interior(w, Margin(f))
  {
    if n > 0 {
      OutputRowsSize(f, gray, w, h, n - 1);
    }
  }

  /** The output of f has (w - 2m)×(h - 2m) pixels, m being f's margin (none when a side is too short). */
  lemma OutputSize(f: Filter, gray: seq<byte>, w: nat, h: nat)
    requires |gray| == w * h
    ensures |Output(f, gray, w, h)| == Interior(w, Margin(f)) * Interior(h, Margin(f))
  {
    OutputRowsSize(f, gray, w, h, Interior(h, Margin(f)));
  }

  lemma {:induction false} OutputRowsAt(f: Filter, gray: seq<byte>, w: nat, h: nat, n: nat, x: nat, y: nat, i: nat)
    requires |gray| == w * h && n <= Interior(h, Margin(f)) && Centred(f, w, h, x, y) && y < n + Margin(f)
    requires i == (y - Margin(f)) * Interior(w, Margin(f)) + (x - Margin(f))
    ensures i < |OutputRows(f, gray, w, h, n)| && OutputRows(f, gray, w, h, n)[i] == FromGray(At(f, gray, w, h, x, y))
  {
    var m, cols := Margin(f), Interior(w, Margin(f));
    OutputRowsSize(f, gray, w, h, n - 1);
    if y < n - 1 + m {
      MulMonotonic(y - m + 1, n - 1, cols);
      OutputRowsAt(f, gray, w, h, n - 1, x, y, i);
    } else {
      assert (y - m) * cols == (n - 1) * cols;
    }
  }

  /**
    Row-major placement: output index i = (y - m)*(w - 2m) + (x - m) holds
    the value filter f computes for the plane position (x, y).
   */
  lemma OutputAt(f: Filter, gray: seq<byte>, w: nat, h: nat, x: nat, y: nat, i: nat)
    requires |gray| == w * h && Centred(f, w, h, x, y)
    requires i == (y - Margin(f)) * (w - 2 * Margin(f)) + (x - Margin(f))
    ensures i < |Output(f, gray, w, h)| && Output(f, gray, w, h)[i] == FromGray(At(f, gray, w, h, x, y))
  {
    OutputRowsAt(f, gray, w, h, Interior(h, Margin(f)), x, y, i);
  }

  /** Appending the value at (x, y) extends the listed prefix of row y by one. */
  lemma OutputRowStep(f: Filter, gray: seq<byte>, w: nat, h: nat, x: nat, y: nat)
    requires |gray| == w * h && Centred(f, w, h, x, y)
    ensures x - Margin(f) < |OutputRow(f, gray, w, h, y)|
    ensures OutputRow(f, gray, w, h, y)[..x - Margin(f) + 1]
      == OutputRow(f, gray, w, h, y)[..x - Margin(f)] + [FromGray(At(f, gray, w, h, x, y))]
  {
    var row := OutputRow(f, gray, w, h, y);
    assert row[x - Margin(f)] == FromGray(At(f, gray, w, h, x, y));
    assert row[..x - Margin(f) + 1] == row[..x - Margin(f)] + [row[x - Margin(f)]];
  }

  /** A completed row y extends the listed rows by one. */
  lemma OutputRowsStep(f: Filter, gray: seq<byte>, w: nat, h: nat, y: nat)
    requires |gray| == w * h && Margin(f) <= y && y + Margin(f) < h
    ensures OutputRows(f, gray, w, h, y - Margin(f) + 1)
      == OutputRows(f, gray, w, h, y - Margin(f)) + OutputRow(f, gray, w, h, y)[..Interior(w, Margin(f))]
  {
    var row := OutputRow(f, gray, w, h, y);
    assert row[..|row|] == row;
  }

  // ---------------------------------------------------------------------
  // The filter routines
  // ---------------------------------------------------------------------

  /**
    compute_gaussian. The requires says that the u32 bounds `height - 2`
    and, once the outer loop body runs, `width - 2` do not underflow.
   */
  method ComputeGaussian(gray: seq<byte>, w: nat, h: nat) returns (pixels: seq<Color32>)
    requires |gray| == w * h
    requires h >= 2 && (h > 4 ==> w >= 2)
    ensures pixels == Output(Gaussian, gray, w, h)
  {
    GaussianWeights();
    pixels := [];
    var y := 2;
    while y < h - 2
      invariant 2 <= y && (h >= 4 ==> y <= h - 2) && (h < 4 ==> y == 2)
      invariant pixels == OutputRows(Gaussian, gray, w, h, y - 2)
    {
      var x := 2;
      while x < w - 2
        invariant 2 <= x && (w >= 4 ==> x <= w - 2) && (w < 4 ==> x == 2)
        invariant pixels == OutputRows(Gaussian, gray, w, h, y - 2) + OutputRow(Gaussian, gray, w, h, y)[..x - 2]
      {
        // The weights k/273 are applied as one exact division of the integer sum.
        var weightedSum := ApplyKernel(GAUSSIAN, gray, w, h, x - 2, y - 2);
        var intensity := Clamp(weightedSum / GAUSSIAN_DIVISOR);
        OutputRowStep(Gaussian, gray, w, h, x, y);
        pixels := pixels + [FromGray(intensity)];
        x := x + 1;
      }
      OutputRowsStep(Gaussian, gray, w, h, y);
      y := y + 1;
    }
  }

  /** compute_low_pass_filter: the Gaussian loop over the low-pass table. */
  method ComputeLowPassFilter(gray: seq<byte>, w: nat, h: nat) returns (pixels: seq<Color32>)
    requires |gray| == w * h
    requires h >= 2 && (h > 4 ==> w >= 2)
    ensures pixels == Output(LowPass, gray, w, h)
  {
    LowPassWeights();
    pixels := [];
    var y := 2;
    while y < h - 2
      invariant 2 <= y && (h >= 4 ==> y <= h - 2) && (h < 4 ==> y == 2)
      invariant pixels == OutputRows(LowPass, gray, w, h, y - 2)
    {
      var x := 2;
      while x < w - 2
        invariant 2 <= x && (w >= 4 ==> x <= w - 2) && (w < 4 ==> x == 2)
        invariant pixels == OutputRows(LowPass, gray, w, h, y - 2) + OutputRow(LowPass, gray, w, h, y)[..x - 2]
      {
        var weightedSum := ApplyKernel(LOW_PASS, gray, w, h, x - 2, y - 2);
        var intensity := Clamp(weightedSum / GAUSSIAN_DIVISOR);
        OutputRowStep(LowPass, gray, w, h, x, y);
        pixels := pixels + [FromGray(intensity)];
        x := x + 1;
      }
      OutputRowsStep(LowPass, gray, w, h, y);
      y := y + 1;
    }
  }

  /**
    compute_laplace as the program writes it: the outer loop runs y over
    1..width-1 and the inner loop x over 1..height-1, while get_pixel reads
    column x and row y. get_pixel panics (here: None) on a tap outside the
    plane; the 3×3 window leaves the plane exactly when its far corner
    (x + 1, y + 1) does. The requires says that `width - 1` and, once the
    outer loop body runs, `height - 1` do not underflow. The ensures: the
    routine fails on every non-square plane of at least 3×3, and otherwise
    yields the Laplacian.
   */
  method ComputeLaplaceAsWritten(gray: seq<byte>, w: nat, h: nat) returns (r: Option<seq<Color32>>)
    requires |gray| == w * h
    requires w >= 1 && (w > 2 ==> h >= 1)
    ensures r.Some? <==> (w < 3 || h < 3 || w == h)
    ensures r.Some? ==> r.value == Output(Laplace, gray, w, h)
  {
    LaplaceWeights();
    var pixels := [];
    var y := 1;
    while y < w - 1
      invariant 1 <= y && (w >= 2 ==> y <= w - 1) && (w < 2 ==> y == 1)
      invariant y > 1 && h >= 3 ==> h <= w && y < h
      invariant w < 3 || h < 3 ==> pixels == []
      invariant w == h ==> pixels == OutputRows(Laplace, gray, w, h, y - 1)
    {
      var x := 1;
      while x < h - 1
        invariant 1 <= x && (h >= 2 ==> x <= h - 1) && (h < 2 ==> x == 1)
        invariant x > 1 ==> x < w && y + 1 < h
        invariant w < 3 || h < 3 ==> pixels == []
        invariant w == h ==> pixels == OutputRows(Laplace, gray, w, h, y - 1) + OutputRow(Laplace, gray, w, h, y)[..x - 1]
      {
        if !(x + 1 < w && y + 1 < h) {
          return None;
        }
        var weightedSum := ApplyKernel(LAPLACE, gray, w, h, x - 1, y - 1);
        var intensity := Clamp(weightedSum);
        OutputRowStep(Laplace, gray, w, h, x, y);
        pixels := pixels + [FromGray(intensity)];
        x := x + 1;
      }
      if w == h {
        OutputRowsStep(Laplace, gray, w, h, y);
      }
      y := y + 1;
    }
    OutputSize(Laplace, gray, w, h);
    return Some(pixels);
  }

  /**
    compute_laplace with the loops the ordinary row-major traversal needs:
    y over 1..height-1, x over 1..width-1 (the order compute_sobel uses).
   */
  method ComputeLaplace(gray: seq<byte>, w: nat, h: nat) returns (pixels: seq<Color32>)
    requires |gray| == w * h
    requires h >= 1 && (h > 2 ==> w >= 1)
    ensures pixels == Output(Laplace, gray, w, h)
  {
    LaplaceWeights();
    pixels := [];
    var y := 1;
    while y < h - 1
      invariant 1 <= y && (h >= 2 ==> y <= h - 1) && (h < 2 ==> y == 1)
      invariant pixels == OutputRows(Laplace, gray, w, h, y - 1)
    {
      var x := 1;
      while x < w - 1
        invariant 1 <= x && (w >= 2 ==> x <= w - 1) && (w < 2 ==> x == 1)
        invariant pixels == OutputRows(Laplace, gray, w, h, y - 1) + OutputRow(Laplace, gray, w, h, y)[..x - 1]
      {
        var weightedSum := ApplyKernel(LAPLACE, gray, w, h, x - 1, y - 1);
        var intensity := Clamp(weightedSum);
        OutputRowStep(Laplace, gray, w, h, x, y);
        pixels := pixels + [FromGray(intensity)];
        x := x + 1;
      }
      OutputRowsStep(Laplace, gray, w, h, y);
      y := y + 1;
    }
  }

  /** The ky/kx loop of compute_sobel: both gradient sums accumulated over one pass of the taps. */
  method SobelGradients(gray: seq<byte>, w: nat, h: nat, x0: nat, y0: nat) returns (gx: int, gy: int)
    requires |gray| == w * h && x0 + 3 <= w && y0 + 3 <= h
    ensures gx == Convolve(SOBEL_X, gray, w, h, x0, y0)
    ensures gy == Convolve(SOBEL_Y, gray, w, h, x0, y0)
  {
    SobelWeights();
    gx, gy := 0, 0;
    var ky := 0;
    while ky < 3
      invariant 0 <= ky <= 3
      invariant gx == WindowSum(SOBEL_X, gray, w, h, x0, y0, ky)
      invariant gy == WindowSum(SOBEL_Y, gray, w, h, x0, y0, ky)
    {
      var kx := 0;
      while kx < 3
        invariant 0 <= kx <= 3
        invariant gx == WindowSum(SOBEL_X, gray, w, h, x0, y0, ky) + RowSum(SOBEL_X[ky], gray, w, h, x0, y0 + ky, kx)
        invariant gy == WindowSum(SOBEL_Y, gray, w, h, x0, y0, ky) + RowSum(SOBEL_Y[ky], gray, w, h, x0, y0 + ky, kx)
      {
        var pixel := Pixel(gray, w, h, x0 + kx, y0 + ky);
        gx := gx + SOBEL_X[ky][kx] * pixel;
        gy := gy + SOBEL_Y[ky][kx] * pixel;
        kx := kx + 1;
      }
      ky := ky + 1;
    }
  }

  /**
    compute_sobel. The requires says that `height - 1` and, once the outer
    loop body runs, `width - 1` do not underflow.
   */
  method ComputeSobel(gray: seq<byte>, w: nat, h: nat) returns (pixels: seq<Color32>)
    requires |gray| == w * h
    requires h >= 1 && (h > 2 ==> w >= 1)
    ensures pixels == Output(Sobel, gray, w, h)
  {
    pixels := [];
    var y := 1;
    while y < h - 1
      invariant 1 <= y && (h >= 2 ==> y <= h - 1) && (h < 2 ==> y == 1)
      invariant pixels == OutputRows(Sobel, gray, w, h, y - 1)
    {
      var x := 1;
      while x < w - 1
        invariant 1 <= x && (w >= 2 ==> x <= w - 1) && (w < 2 ==> x == 1)
        invariant pixels == OutputRows(Sobel, gray, w, h, y - 1) + OutputRow(Sobel, gray, w, h, y)[..x - 1]
      {
        var gx, gy := SobelGradients(gray, w, h, x - 1, y - 1);
        var magnitude := Magnitude(gx, gy);
        OutputRowStep(Sobel, gray, w, h, x, y);
        pixels := pixels + [FromGray(magnitude)];
        x := x + 1;
      }
      OutputRowsStep(Sobel, gray, w, h, y);
      y := y + 1;
    }
  }
}
