/**
 * The frame handler of the main activity, `processImage`: sample the frame
 * and render the sampled matrix as text for the matrix view. The UI thread
 * hand-off and the assignment to the text view are not modelled; the method
 * returns the text that is shown.
 */
module Activity {
  import opened Pixels
  import Sampler
  import MatrixText

  /**
   * The text shown for a frame is the formatted sample grid of the bitmap;
   * when the grid has at least one row, that text parses back to exactly
   * the red, green and blue channels of the sampled pixels.
   */
  method ProcessImage(bitmap: array2<Int32>) returns (text: string)
    ensures text == MatrixText.FormatMatrix(Sampler.SampleGrid(bitmap))
    ensures Sampler.SampleHeight(Sampler.Height(bitmap)) >= 1 ==>
              MatrixText.ParseMatrix(text) == MatrixText.Some(MatrixText.RgbMatrix(Sampler.SampleGrid(bitmap)))
  {
    var sampledMatrix := Sampler.GetSampledImageMatrix(bitmap);
    Sampler.SampledRowsAreGrid(bitmap, sampledMatrix);
    text := MatrixText.FormatMatrix(Sampler.Rows(sampledMatrix));
    if sampledMatrix.Length0 >= 1 {
      MatrixText.ParseFormatMatrix(Sampler.Rows(sampledMatrix));
    }
  }

  /**
   * In a 100 by 50 frame whose pixel in column 25 of row 10 has channels
   * (200, 100, 50), the sampled matrix shows those channels in row 2,
   * column 5.
   */
  lemma HundredByFiftyExample(bitmap: array2<Int32>)
    requires Sampler.Width(bitmap) == 100 && Sampler.Height(bitmap) == 50
    requires Sampler.GetPixel(bitmap, 25, 10) == Argb(0xFF, 200, 100, 50)
    ensures MatrixText.RgbMatrix(Sampler.SampleGrid(bitmap))[2][5] == MatrixText.Rgb(200, 100, 50)
  {
    Sampler.HundredByFiftyExample(bitmap);
    ChannelsOfArgb(0xFF, 200, 100, 50);
  }
}
