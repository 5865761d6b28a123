/**
  Applying one fixed kernel to one window of a gray plane: the weighted sum
  over the window's taps, kernel rows first, then columns (the inner ky/kx
  loops of every compute_* routine).
 */
module Convolution {
  import opened Raster
  import opened Kernels

  /** The |k|×|k| window whose top-left tap is (x0, y0) lies inside the w×h plane. */
  predicate InPlane(k: Kernel, w: nat, h: nat, x0: nat, y0: nat)
  {
    x0 + |k| <= w && y0 + |k| <= h
  }

  /** Σ row[j] * pixel(x0 + j, y) over the first n taps of one kernel row. */
  function RowSum(row: seq<int>, gray: seq<byte>, w: nat, h: nat, x0: nat, y: nat, n: nat): int
    requires |gray| == w * h && n <= |row| && x0 + n <= w && y < h
  {
    if n == 0 then 0
    else RowSum(row, gray, w, h, x0, y, n - 1) + row[n - 1] * Pixel(gray, w, h, x0 + n - 1, y)
  }

  /** Σ over the first `rows` kernel rows of k[ky][kx] * pixel(x0 + kx, y0 + ky). */
  function WindowSum(k: Kernel, gray: seq<byte>, w: nat, h: nat, x0: nat, y0: nat, rows: nat): int
    requires |gray| == w * h && IsSquare(k) && rows <= |k| && InPlane(k, w, h, x0, y0)
  {
    if rows == 0 then 0
    else WindowSum(k, gray, w, h, x0, y0, rows - 1) + RowSum(k[rows - 1], gray, w, h, x0, y0 + rows - 1, |k|)
  }

  /** The full weighted sum of kernel k over the window at (x0, y0). */
  function Convolve(k: Kernel, gray: seq<byte>, w: nat, h: nat, x0: nat, y0: nat): int
    requires |gray| == w * h && IsSquare(k) && InPlane(k, w, h, x0, y0)
  {
    WindowSum(k, gray, w, h, x0, y0, |k|)
  }

  /**
    The ky/kx loops: accumulate kernel weight times sample over the window,
    row-major over the taps.
   */
  method ApplyKernel(k: Kernel, gray: seq<byte>, w: nat, h: nat, x0: nat, y0: nat) returns (sum: int)
    requires |gray| == w * h && IsSquare(k) && InPlane(k, w, h, x0, y0)
    ensures sum == Convolve(k, gray, w, h, x0, y0)
  {
    sum := 0;
    var ky := 0;
    while ky < |k|
      invariant 0 <= ky <= |k|
      invariant sum == WindowSum(k, gray, w, h, x0, y0, ky)
    {
      var kx := 0;
      while kx < |k|
        invariant 0 <= kx <= |k|
        invariant sum == WindowSum(k, gray, w, h, x0, y0, ky) + RowSum(k[ky], gray, w, h, x0, y0 + ky, kx)
      {
        sum := sum + k[ky][kx] * Pixel(gray, w, h, x0 + kx, y0 + ky);
        kx := kx + 1;
      }
      ky := ky + 1;
    }
  }

  /** Three taps of a row written out. */
  lemma RowSum3(row: seq<int>, gray: seq<byte>, w: nat, h: nat, x0: nat, y: nat)
    requires |gray| == w * h && |row| == 3 && x0 + 3 <= w && y < h
    ensures RowSum(row, gray, w, h, x0, y, 3)
      == row[0] * Pixel(gray, w, h, x0, y) + row[1] * Pixel(gray, w, h, x0 + 1, y) + row[2] * Pixel(gray, w, h, x0 + 2, y)
  {
    assert RowSum(row, gray, w, h, x0, y, 1) == row[0] * Pixel(gray, w, h, x0, y);
    assert RowSum(row, gray, w, h, x0, y, 2) == RowSum(row, gray, w, h, x0, y, 1) + row[1] * Pixel(gray, w, h, x0 + 1, y);
  }

  /** A 3×3 window sum written out tap by tap. */
  lemma WindowSum3(k: Kernel, gray: seq<byte>, w: nat, h: nat, x0: nat, y0: nat)
    requires |gray| == w * h && IsSquare(k) && |k| == 3 && InPlane(k, w, h, x0, y0)
    ensures Convolve(k, gray, w, h, x0, y0)
      == k[0][0] * Pixel(gray, w, h, x0, y0) + k[0][1] * Pixel(gray, w, h, x0 + 1, y0) + k[0][2] * Pixel(gray, w, h, x0 + 2, y0)
       + k[1][0] * Pixel(gray, w, h, x0, y0 + 1) + k[1][1] * Pixel(gray, w, h, x0 + 1, y0 + 1) + k[1][2] * Pixel(gray, w, h, x0 + 2, y0 + 1)
       + k[2][0] * Pixel(gray, w, h, x0, y0 + 2) + k[2][1] * Pixel(gray, w, h, x0 + 1, y0 + 2) + k[2][2] * Pixel(gray, w, h, x0 + 2, y0 + 2)
  {
    RowSum3(k[0], gray, w, h, x0, y0);
    RowSum3(k[1], gray, w, h, x0, y0 + 1);
    RowSum3(k[2], gray, w, h, x0, y0 + 2);
    assert WindowSum(k, gray, w, h, x0, y0, 1) == RowSum(k[0], gray, w, h, x0, y0, 3);
    assert WindowSum(k, gray, w, h, x0, y0, 2) == WindowSum(k, gray, w, h, x0, y0, 1) + RowSum(k[1], gray, w, h, x0, y0 + 1, 3);
  }

  lemma Distribute(c: int, a: int, b: int)
    ensures c * a + b * c == c * a + c * b == c * (a + b)
  {
  }

  /** On a flat plane of value c, a row of taps sums to c times the row's weights. */
  lemma {:induction false} FlatRowSum(row: seq<int>, gray: seq<byte>, w: nat, h: nat, x0: nat, y: nat, n: nat, c: byte)
    requires |gray| == w * h && n <= |row| && x0 + n <= w && y < h && Flat(gray, c)
    ensures RowSum(row, gray, w, h, x0, y, n) == c * RowTotal(row, n)
  {
    if n > 0 {
      FlatRowSum(row, gray, w, h, x0, y, n - 1, c);
      FlatPixel(gray, w, h, x0 + n - 1, y, c);
      Distribute(c, RowTotal(row, n - 1), row[n - 1]);
    }
  }

  /** On a flat plane of value c, the weighted sum is c times the kernel's total weight. */
  lemma {:induction false} FlatWindowSum(k: Kernel, gray: seq<byte>, w: nat, h: nat, x0: nat, y0: nat, rows: nat, c: byte)
    requires |gray| == w * h && IsSquare(k) && rows <= |k| && InPlane(k, w, h, x0, y0) && Flat(gray, c)
    ensures WindowSum(k, gray, w, h, x0, y0, rows) == c * Total(k, rows)
  {
    if rows > 0 {
      FlatWindowSum(k, gray, w, h, x0, y0, rows - 1, c);
      FlatRowSum(k[rows - 1], gray, w, h, x0, y0 + rows - 1, |k|, c);
      Distribute(c, Total(k, rows - 1), RowTotal(k[rows - 1], |k|));
    }
  }

  /** One tap: weight v times a byte p lies between 255*min(v, 0) and 255*max(v, 0). */
  lemma TapBounds(v: int, p: byte)
    ensures v > 0 ==> 0 <= v * p <= 255 * v
    ensures v <= 0 ==> 255 * v <= v * p <= 0
  {
    if v > 0 {
      MulMonotonic(p, 255, v);
    } else {
      MulMonotonic(p, 255, -v);
    }
  }

  /**
    A row of taps sums to at most 255 times its positive weights and at least
    255 times its negative weights, whatever the samples.
   */
  lemma {:induction false} RowSumBounds(row: seq<int>, gray: seq<byte>, w: nat, h: nat, x0: nat, y: nat, n: nat)
    requires |gray| == w * h && n <= |row| && x0 + n <= w && y < h
    ensures 255 * (RowTotal(row, n) - RowPositive(row, n)) <= RowSum(row, gray, w, h, x0, y, n)
    ensures RowSum(row, gray, w, h, x0, y, n) <= 255 * RowPositive(row, n)
  {
    if n > 0 {
      RowSumBounds(row, gray, w, h, x0, y, n - 1);
      TapBounds(row[n - 1], Pixel(gray, w, h, x0 + n - 1, y));
    }
  }

  /**
    The weighted sum of a window lies between 255 times the kernel's negative
    weights and 255 times its positive weights, whatever the samples.
   */
  lemma {:induction false} WindowSumBounds(k: Kernel, gray: seq<byte>, w: nat, h: nat, x0: nat, y0: nat, rows: nat)
    requires |gray| == w * h && IsSquare(k) && rows <= |k| && InPlane(k, w, h, x0, y0)
    ensures 255 * (Total(k, rows) - Positive(k, rows)) <= WindowSum(k, gray, w, h, x0, y0, rows)
    ensures WindowSum(k, gray, w, h, x0, y0, rows) <= 255 * Positive(k, rows)
  {
    if rows > 0 {
      WindowSumBounds(k, gray, w, h, x0, y0, rows - 1);
      RowSumBounds(k[rows - 1], gray, w, h, x0, y0 + rows - 1, |k|);
    }
  }
}
