/**
  The fixed kernel tables of the four filters, and their weight totals.

  A kernel is a square table of integer weights, read row by row (ky) and
  within a row column by column (kx). The 5×5 blur tables hold the numerators
  of weights k/273; the division by 273 is applied to the weighted sum.
 */
module Kernels {

  type Kernel = seq<seq<int>>

  /** Every row is as long as the table is high. */
  predicate IsSquare(k: Kernel)
  {
    forall i :: 0 <= i < |k| ==> |k[i]| == |k|
  }

  /** The table of compute_gaussian (numerators over GAUSSIAN_DIVISOR). */
  const GAUSSIAN: Kernel := [
    [1, 4, 7, 4, 1],
    [4, 16, 26, 16, 4],
    [7, 26, 41, 26, 7],
    [4, 16, 26, 16, 4],
    [1, 4, 7, 4, 1]
  ]

  /** The table of compute_low_pass_filter, declared separately in the program. */
  const LOW_PASS: Kernel := [
    [1, 4, 7, 4, 1],
    [4, 16, 26, 16, 4],
    [7, 26, 41, 26, 7],
    [4, 16, 26, 16, 4],
    [1, 4, 7, 4, 1]
  ]

  /** Both blur tables divide every weight by 273. */
  const GAUSSIAN_DIVISOR: int := 273

  /** The sharpening kernel of compute_laplace. */
  const LAPLACE: Kernel := [
    [-1, -1, -1],
    [-1, 9, -1],
    [-1, -1, -1]
  ]

  /** Horizontal gradient kernel (kernel_x) of compute_sobel. */
  const SOBEL_X: Kernel := [
    [-1, 0, 1],
    [-2, 0, 2],
    [-1, 0, 1]
  ]

  /** Vertical gradient kernel (kernel_y) of compute_sobel. */
  const SOBEL_Y: Kernel := [
    [-1, -2, -1],
    [0, 0, 0],
    [1, 2, 1]
  ]

  /** Sum of the first n weights of a row. */
  function RowTotal(row: seq<int>, n: nat): int
    requires n <= |row|
  {
    if n == 0 then 0 else RowTotal(row, n - 1) + row[n - 1]
  }

  /** Sum of the positive weights among the first n of a row. */
  function RowPositive(row: seq<int>, n: nat): int
    requires n <= |row|
  {
    if n == 0 then 0 else RowPositive(row, n - 1) + (if row[n - 1] > 0 then row[n - 1] else 0)
  }

  /** Sum of all weights in the first `rows` rows. */
  function Total(k: Kernel, rows: nat): int
    requires IsSquare(k) && rows <= |k|
  {
    if rows == 0 then 0 else Total(k, rows - 1) + RowTotal(k[rows - 1], |k|)
  }

  /** Sum of the positive weights in the first `rows` rows. */
  function Positive(k: Kernel, rows: nat): int
    requires IsSquare(k) && rows <= |k|
  {
    if rows == 0 then 0 else Positive(k, rows - 1) + RowPositive(k[rows - 1], |k|)
  }

  /** The blur weights are non-negative and add up to the divisor, 273. */
  lemma GaussianWeights()
    ensures IsSquare(GAUSSIAN) && |GAUSSIAN| == 5
    ensures Total(GAUSSIAN, 5) == GAUSSIAN_DIVISOR
    ensures Positive(GAUSSIAN, 5) == Total(GAUSSIAN, 5)
  {
    assert RowTotal(GAUSSIAN[0], 5) == 17 == RowPositive(GAUSSIAN[0], 5);
    assert RowTotal(GAUSSIAN[1], 5) == 66 == RowPositive(GAUSSIAN[1], 5);
    assert RowTotal(GAUSSIAN[2], 5) == 107 == RowPositive(GAUSSIAN[2], 5);
    assert RowTotal(GAUSSIAN[3], 5) == 66 == RowPositive(GAUSSIAN[3], 5);
    assert RowTotal(GAUSSIAN[4], 5) == 17 == RowPositive(GAUSSIAN[4], 5);
  }

  /** The low-pass weights are those of the Gaussian table. */
  lemma LowPassWeights()
    ensures IsSquare(LOW_PASS) && |LOW_PASS| == 5
    ensures Total(LOW_PASS, 5) == GAUSSIAN_DIVISOR
    ensures Positive(LOW_PASS, 5) == Total(LOW_PASS, 5)
  {
    LowPassIsGaussianTable();
    GaussianWeights();
  }

  /** The low-pass table is the Gaussian table, weight for weight. */
  lemma LowPassIsGaussianTable()
    ensures LOW_PASS == GAUSSIAN
  {
  }

  /** The Laplacian weights add up to 1 (9 at the centre, eight times -1); 9 of them are positive. */
  lemma LaplaceWeights()
    ensures IsSquare(LAPLACE) && |LAPLACE| == 3
    ensures Total(LAPLACE, 3) == 1
    ensures Positive(LAPLACE, 3) == 9
  {
    assert RowTotal(LAPLACE[0], 3) == -3 && RowPositive(LAPLACE[0], 3) == 0;
    assert RowTotal(LAPLACE[1], 3) == 7 && RowPositive(LAPLACE[1], 3) == 9;
    assert RowTotal(LAPLACE[2], 3) == -3 && RowPositive(LAPLACE[2], 3) == 0;
  }

  /** Each Sobel kernel sums to zero, with positive weights 1 + 2 + 1. */
  lemma SobelWeights()
    ensures IsSquare(SOBEL_X) && |SOBEL_X| == 3 && IsSquare(SOBEL_Y) && |SOBEL_Y| == 3
    ensures Total(SOBEL_X, 3) == 0 && Positive(SOBEL_X, 3) == 4
    ensures Total(SOBEL_Y, 3) == 0 && Positive(SOBEL_Y, 3) == 4
  {
    assert RowTotal(SOBEL_X[0], 3) == 0 && RowPositive(SOBEL_X[0], 3) == 1;
    assert RowTotal(SOBEL_X[1], 3) == 0 && RowPositive(SOBEL_X[1], 3) == 2;
    assert RowTotal(SOBEL_X[2], 3) == 0 && RowPositive(SOBEL_X[2], 3) == 1;
    assert RowTotal(SOBEL_Y[0], 3) == -4 && RowPositive(SOBEL_Y[0], 3) == 0;
    assert RowTotal(SOBEL_Y[1], 3) == 0 && RowPositive(SOBEL_Y[1], 3) == 0;
    assert RowTotal(SOBEL_Y[2], 3) == 4 && RowPositive(SOBEL_Y[2], 3) == 4;
  }
}
