/**
 * The strided pixel sampler of the main activity: from a captured frame it
 * keeps every fifth pixel of every fifth row, at most 10 rows of at most 20
 * pixels, for display as a small matrix.
 *
 * A bitmap is a two-dimensional array of packed pixels indexed
 * `[row, column]`: its `Length0` is the bitmap's height and its `Length1`
 * its width. `GetPixel(bitmap, x, y)` takes the column first, as the
 * platform's `getPixel` does.
 */
module Sampler {
  import opened Pixels

  /** Distance, in pixels, between two sampled rows or two sampled columns. */
  const MatrixSampleSize: nat := 5
  /** Cap on the number of sampled rows. */
  const MaxMatrixRows: nat := 10
  /** Cap on the number of sampled columns. */
  const MaxMatrixCols: nat := 20

  function Width(bitmap: array2<Int32>): nat { bitmap.Length1 }

  function Height(bitmap: array2<Int32>): nat { bitmap.Length0 }

  /** Kotlin's `min` on `Int`. */
  function Min(a: int, b: int): int { if a <= b then a else b }

  /**
   * `Bitmap.getPixel(x, y)`: the pixel in column `x` of row `y`. The platform
   * throws for a coordinate outside the bitmap; here that is a precondition,
   * so every call the sampler makes is proved to stay inside the bitmap.
   */
  function GetPixel(bitmap: array2<Int32>, x: int, y: int): Int32
    reads bitmap
    requires 0 <= x < Width(bitmap) && 0 <= y < Height(bitmap)
  {
    bitmap[y, x]
  }

  /**
   * Number of sampled columns for a bitmap `width` pixels wide: the number of
   * whole five-pixel strides that fit in the width, capped at twenty.
   */
  function SampleWidth(width: nat): (n: nat)
    ensures n <= MaxMatrixCols
    ensures n * MatrixSampleSize <= width
    ensures forall x :: 0 <= x < n ==> x * MatrixSampleSize < width
    ensures n == MaxMatrixCols || width < (n + 1) * MatrixSampleSize
  {
    Min(width / MatrixSampleSize, MaxMatrixCols)
  }

  /**
   * Number of sampled rows for a bitmap `height` pixels tall: the number of
   * whole five-pixel strides that fit in the height, capped at ten.
   */
  function SampleHeight(height: nat): (n: nat)
    ensures n <= MaxMatrixRows
    ensures n * MatrixSampleSize <= height
    ensures forall y :: 0 <= y < n ==> y * MatrixSampleSize < height
    ensures n == MaxMatrixRows || height < (n + 1) * MatrixSampleSize
  {
    Min(height / MatrixSampleSize, MaxMatrixRows)
  }

  /**
   * `getSampledImageMatrix`: a fresh matrix with `SampleHeight` rows and
   * `SampleWidth` columns whose cell `[y, x]` is the bitmap's pixel in column
   * `5 * x` of row `5 * y`. It has no `modifies` clause, so the bitmap is
   * left as it was.
   */
  method GetSampledImageMatrix(bitmap: array2<Int32>) returns (matrix: array2<Int32>)
    ensures fresh(matrix)
    ensures matrix.Length0 == SampleHeight(Height(bitmap))
    ensures matrix.Length1 == SampleWidth(Width(bitmap))
    ensures forall y, x :: 0 <= y < matrix.Length0 && 0 <= x < matrix.Length1 ==>
              matrix[y, x] == GetPixel(bitmap, x * MatrixSampleSize, y * MatrixSampleSize)
  {
    var width := Width(bitmap);
    var height := Height(bitmap);

    var sampleWidth := SampleWidth(width);
    var sampleHeight := SampleHeight(height);

    matrix := new Int32[sampleHeight, sampleWidth]((_, _) => 0);

    for y := 0 to sampleHeight
      invariant forall y', x :: 0 <= y' < y && 0 <= x < sampleWidth ==>
                  matrix[y', x] == GetPixel(bitmap, x * MatrixSampleSize, y' * MatrixSampleSize)
    {
      var originalY := y * MatrixSampleSize;
      for x := 0 to sampleWidth
        invariant forall y', x' :: 0 <= y' < y && 0 <= x' < sampleWidth ==>
                    matrix[y', x'] == GetPixel(bitmap, x' * MatrixSampleSize, y' * MatrixSampleSize)
        invariant forall x' :: 0 <= x' < x ==>
                    matrix[y, x'] == GetPixel(bitmap, x' * MatrixSampleSize, originalY)
      {
        var originalX := x * MatrixSampleSize;
        matrix[y, x] := GetPixel(bitmap, originalX, originalY);
      }
    }
  }

  /** The rows of a matrix, as the text formatter walks them. */
  function Rows(matrix: array2<Int32>): (rows: seq<seq<Int32>>)
    reads matrix
    ensures |rows| == matrix.Length0
    ensures forall y :: 0 <= y < |rows| ==> |rows[y]| == matrix.Length1
    ensures forall y, x :: 0 <= y < |rows| && 0 <= x < |rows[y]| ==> rows[y][x] == matrix[y, x]
  {
    seq(matrix.Length0, y requires 0 <= y < matrix.Length0 reads matrix =>
      seq(matrix.Length1, x requires 0 <= x < matrix.Length1 reads matrix => matrix[y, x]))
  }

  /** The sampled matrix a bitmap should give, as rows of pixels. */
  ghost function SampleGrid(bitmap: array2<Int32>): seq<seq<Int32>>
    reads bitmap
  {
    seq(SampleHeight(Height(bitmap)), y requires 0 <= y < SampleHeight(Height(bitmap)) reads bitmap =>
      seq(SampleWidth(Width(bitmap)), x requires 0 <= x < SampleWidth(Width(bitmap)) reads bitmap =>
        GetPixel(bitmap, x * MatrixSampleSize, y * MatrixSampleSize)))
  }

  /**
   * The sampler's output, read row by row, is exactly the sample grid: the
   * same shape, and every cell the strided pixel.
   */
  lemma SampledRowsAreGrid(bitmap: array2<Int32>, matrix: array2<Int32>)
    requires matrix.Length0 == SampleHeight(Height(bitmap))
    requires matrix.Length1 == SampleWidth(Width(bitmap))
    requires forall y, x :: 0 <= y < matrix.Length0 && 0 <= x < matrix.Length1 ==>
               matrix[y, x] == GetPixel(bitmap, x * MatrixSampleSize, y * MatrixSampleSize)
    ensures Rows(matrix) == SampleGrid(bitmap)
  {
    var rows, grid := Rows(matrix), SampleGrid(bitmap);
    forall y | 0 <= y < |rows| ensures rows[y] == grid[y] {
      forall x | 0 <= x < |rows[y]| ensures rows[y][x] == grid[y][x] {
      }
    }
  }

  /**
   * A bitmap less than one stride tall gives no rows, and one less than one
   * stride wide gives empty rows; otherwise the dimension is at least one.
   */
  lemma DegenerateDimensions(width: nat, height: nat)
    ensures SampleHeight(height) == 0 <==> height < MatrixSampleSize
    ensures SampleWidth(width) == 0 <==> width < MatrixSampleSize
  {
  }

  /**
   * A frame of the camera's target resolution, 640 by 480, is sampled to the
   * full 10 rows of 20 pixels.
   */
  lemma TargetResolutionIsCapped()
    ensures SampleWidth(640) == MaxMatrixCols && SampleHeight(480) == MaxMatrixRows
  {
  }

  /**
   * In a 100 by 50 bitmap, sampled row 2, column 5 is the pixel in column 25
   * of row 10.
   */
  lemma HundredByFiftyExample(bitmap: array2<Int32>)
    requires Width(bitmap) == 100 && Height(bitmap) == 50
    ensures |SampleGrid(bitmap)| == 10 && |SampleGrid(bitmap)[2]| == 20
    ensures SampleGrid(bitmap)[2][5] == GetPixel(bitmap, 25, 10)
  {
  }
}
