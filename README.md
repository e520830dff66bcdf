# ImageMatrixData in Dafny

ImageMatrixData is a single Android activity. It shows a live camera preview. Beside it, it shows a small matrix of pixel values sampled from each captured frame, and some simulated camera telemetry. This project models the three pieces of deterministic logic on the frame path of `MainActivity.kt`:

- **The pixel sampler** `getSampledImageMatrix` (module `Sampler`, file `sampler.dfy`). From a bitmap of W×H packed pixels it builds a fresh matrix of `min(H / 5, 10)` rows and `min(W / 5, 20)` columns. Cell `[y][x]` is the pixel in column `5x` of row `5y`. The bitmap is an `array2<Int32>` indexed `[row, column]`. `GetPixel(bitmap, x, y)` takes the column first, as the platform's `getPixel` does. The method is an imperative nested loop that fills the matrix in place.
- **The NV21 byte packing** at the start of `ImageProxy.toBitmap` (module `Nv21`, file `nv21.dfy`). The three plane buffers are `ByteBuffer` objects, each holding bytes and a read position. Their remaining bytes are copied into one fresh byte array: the Y plane first, then V, then U.
- **The matrix text** built in `processImage` (module `MatrixText`, file `matrix_text.dfy`). Rows are joined with a newline. Within a row, pixels are joined with a single space. Each pixel is shown as `(r,g,b)` in decimal. A parser is defined beside the formatter as its inverse, and a lemma proves the round trip.
- `Activity.ProcessImage` (file `activity.dfy`) composes the sampler and the formatter.

Packed pixels live in module `Pixels` (file `pixels.dfy`). The model assumes the platform's `Color.alpha/red/green/blue` are the standard ARGB extractions `(p shr 24) and 0xFF`, `(p shr 16) and 0xFF`, `(p shr 8) and 0xFF` and `p and 0xFF`. An arithmetic shift right is written as Dafny's flooring `/` by a power of two. The mask is written as Dafny's non-negative `%` by 256. `MainActivity.kt` calls only `Color.red`, `Color.green` and `Color.blue`. `Pixels.Alpha`, `Pixels.Argb` (the standard packing of `Color.argb`) and the lemmas `BytesOfPacked`, `PackedOfBytes`, `UnsignedInjective` and `ArgbOfChannels` are reference definitions on the model's side, not calls the app makes. They show that the channel extraction loses nothing and build the concrete pixels of the examples.

## Model

| member | source | states |
|---|---|---|
| `Sampler.SampleWidth` | app/src/main/java/com/example/imagemartixdata/MainActivity.kt:239 | The column count is the number of whole five-pixel strides in the width, capped at 20: it is at most 20, the strides fit (`5n <= W`), and it is 20 or one more stride would not fit (`W < 5(n+1)`). These clauses leave only `min(W/5, 20)`. So every sampled column `5x` lies inside the bitmap. |
| `Sampler.SampleHeight` | app/src/main/java/com/example/imagemartixdata/MainActivity.kt:240 | The same for rows, with the cap `MAX_MATRIX_ROWS` = 10: only `min(H/5, 10)` meets the clauses. |
| `Sampler.GetPixel` | app/src/main/java/com/example/imagemartixdata/MainActivity.kt:248 | `getPixel(x, y)` reads column `x` of row `y`. Its precondition is the platform's bounds check. It has no contract of its own; the sampler's contract states what it reads. |
| `Sampler.GetSampledImageMatrix` | app/src/main/java/com/example/imagemartixdata/MainActivity.kt:235-252 | Returns a fresh matrix with `min(H/5, 10)` rows and `min(W/5, 20)` columns. Every cell `[y, x]` is the bitmap pixel at column `5x`, row `5y`. Every `getPixel` call is inside the bitmap (its precondition). The bitmap is not modified. |
| `Sampler.SampledRowsAreGrid` | app/src/main/java/com/example/imagemartixdata/MainActivity.kt:242-250 | A matrix with the sampler's shape and cells, read row by row, is exactly the sample grid of the bitmap. |
| `Sampler.DegenerateDimensions` | app/src/main/java/com/example/imagemartixdata/MainActivity.kt:239-240 | There are zero rows exactly when H < 5, and zero columns exactly when W < 5. |
| `Sampler.TargetResolutionIsCapped` | app/src/main/java/com/example/imagemartixdata/MainActivity.kt:194 | A 640×480 frame, the requested analysis resolution, samples to the full 10 × 20 matrix. |
| `Sampler.HundredByFiftyExample` | app/src/main/java/com/example/imagemartixdata/MainActivity.kt:244-249 | In a 100×50 bitmap the grid is 10 × 20, and cell [2][5] is the pixel at column 25, row 10. |
| `Nv21.ByteBuffer.Remaining` | app/src/main/java/com/example/imagemartixdata/MainActivity.kt:270-272 | `remaining()` is the number of bytes from the position to the limit. It has no contract of its own; `ByteBuffer.RemainingBytes` has exactly that many bytes, and `PackNv21` states what the counts size. |
| `Nv21.ByteBuffer.Get` | app/src/main/java/com/example/imagemartixdata/MainActivity.kt:276-278 | A relative bulk read sets each `dst[offset + k]`, for `k < length`, to the byte `k` places past the position. Every other element of `dst` keeps its value. The position advances by `length`. |
| `Nv21.PackNv21` | app/src/main/java/com/example/imagemartixdata/MainActivity.kt:265-278 | Returns a fresh array of length `ySize + uSize + vSize`. `[0, ySize)` is the Y plane, `[ySize, ySize+vSize)` the V plane and `[ySize+vSize, end)` the U plane. Every read stays within its buffer and within the array. All three buffers end fully read. |
| `Pixels.Red` | app/src/main/java/com/example/imagemartixdata/MainActivity.kt:226 | `Color.red` is the second most significant byte of the pixel's unsigned 32-bit value, for negative pixels too. |
| `Pixels.Green` | app/src/main/java/com/example/imagemartixdata/MainActivity.kt:227 | `Color.green` is the third byte of the pixel's unsigned 32-bit value. |
| `Pixels.Blue` | app/src/main/java/com/example/imagemartixdata/MainActivity.kt:228 | `Color.blue` is the least significant byte of the pixel's unsigned 32-bit value. |
| `Pixels.ChannelsOfArgb` | app/src/main/java/com/example/imagemartixdata/MainActivity.kt:226-228 | Reading alpha, red, green and blue back from a packed pixel gives the packed channels. |
| `Pixels.BytesOfPacked` | app/src/main/java/com/example/imagemartixdata/MainActivity.kt:226-228 | The four bytes of `a·2^24 + r·2^16 + g·2^8 + b` are `a`, `r`, `g` and `b`. |
| `Pixels.PackedOfBytes` | app/src/main/java/com/example/imagemartixdata/MainActivity.kt:226-228 | Every 32-bit unsigned value is the packing of its four bytes. |
| `Pixels.UnsignedInjective` | app/src/main/java/com/example/imagemartixdata/MainActivity.kt:226-228 | Two pixels with the same 32 bits are equal. |
| `Pixels.ArgbOfChannels` | app/src/main/java/com/example/imagemartixdata/MainActivity.kt:226-228 | Every 32-bit pixel, negative ones included, is the packing of its own four channels. So the extraction loses nothing. |
| `MatrixText.Decimal` | app/src/main/java/com/example/imagemartixdata/MainActivity.kt:229 | A channel's numeral in the `($r,$g,$b)` template has at least one digit and only digits. It starts with `0` exactly when the number is 0. |
| `MatrixText.DecimalValue` | app/src/main/java/com/example/imagemartixdata/MainActivity.kt:229 | The numeral of `n` denotes `n`. |
| `MatrixText.ParseChannelOfDecimal` | app/src/main/java/com/example/imagemartixdata/MainActivity.kt:226-229 | Every channel value 0..255, written in decimal, reads back as itself. |
| `MatrixText.Join` | app/src/main/java/com/example/imagemartixdata/MainActivity.kt:224-225 | `joinToString` over parts that do not contain the separator puts exactly one separator between neighbours: one fewer than there are parts. |
| `MatrixText.SplitJoin` | app/src/main/java/com/example/imagemartixdata/MainActivity.kt:224-225 | Splitting at the separator undoes `joinToString` when no part contains the separator. |
| `MatrixText.JoinAvoids` | app/src/main/java/com/example/imagemartixdata/MainActivity.kt:224-225 | A joined text contains no character that is neither the separator nor in some part. |
| `MatrixText.JoinEmpty` | app/src/main/java/com/example/imagemartixdata/MainActivity.kt:224-225 | A joined text is empty exactly for no parts or a single empty part. |
| `MatrixText.PixelToken` | app/src/main/java/com/example/imagemartixdata/MainActivity.kt:225-230 | A pixel's token starts with `(` and ends with `)`. It contains no space and no newline. |
| `MatrixText.FormatRow` | app/src/main/java/com/example/imagemartixdata/MainActivity.kt:225-230 | A row's line contains no newline. It is empty exactly when the row is. |
| `MatrixText.FormatMatrix` | app/src/main/java/com/example/imagemartixdata/MainActivity.kt:224 | A matrix with rows prints with one line break fewer than it has rows. Its text is empty exactly when it has no rows or a single empty row. |
| `MatrixText.LinesOfFormatMatrix` | app/src/main/java/com/example/imagemartixdata/MainActivity.kt:224 | For a matrix with at least one row, the text splits at newlines into exactly one line per row, in order. |
| `MatrixText.TokensOfFormatRow` | app/src/main/java/com/example/imagemartixdata/MainActivity.kt:225 | A non-empty row's line splits at single spaces into exactly one `(r,g,b)` token per pixel, in order. |
| `MatrixText.EmptyMatrixTexts` | app/src/main/java/com/example/imagemartixdata/MainActivity.kt:224-225 | A matrix with no rows and a matrix with one empty row both print as the empty text. |
| `MatrixText.SplitThree` | app/src/main/java/com/example/imagemartixdata/MainActivity.kt:229 | The inside of a `(r,g,b)` token splits at commas into its three numerals. |
| `MatrixText.ParsePixelToken` | app/src/main/java/com/example/imagemartixdata/MainActivity.kt:226-229 | A pixel's token parses back to its red, green and blue channels, each in 0..255. |
| `MatrixText.ParseTokenOfFields` | app/src/main/java/com/example/imagemartixdata/MainActivity.kt:229 | A `(r,g,b)` token built from three comma-free numerals of channel values parses back to those three channels. |
| `MatrixText.DecimalExamples` | app/src/main/java/com/example/imagemartixdata/MainActivity.kt:229 | The numerals of 200, 100 and 50 are `200`, `100` and `50`. |
| `MatrixText.PixelTokenExample` | app/src/main/java/com/example/imagemartixdata/MainActivity.kt:226-229 | An opaque pixel with channels 200, 100 and 50 is shown as `(200,100,50)`. |
| `MatrixText.ParseTokensPointwise` | app/src/main/java/com/example/imagemartixdata/MainActivity.kt:225-230 | Tokens that each parse to a pixel parse together to the row of those pixels, in order. |
| `MatrixText.ParseFormatRow` | app/src/main/java/com/example/imagemartixdata/MainActivity.kt:225-230 | A row's line parses back to the channels of its pixels. The empty line gives the empty row. |
| `MatrixText.ParseRowsPointwise` | app/src/main/java/com/example/imagemartixdata/MainActivity.kt:224-230 | Lines that each parse to a row parse together to the matrix of those rows, in order. |
| `MatrixText.ParseFormatMatrix` | app/src/main/java/com/example/imagemartixdata/MainActivity.kt:224-231 | Round trip: the text of a matrix with at least one row parses back to the channels of all its pixels, row by row. |
| `Activity.ProcessImage` | app/src/main/java/com/example/imagemartixdata/MainActivity.kt:220-233 | The text shown for a frame is the formatted sample grid of the bitmap. When the grid has a row, the text parses back to exactly the sampled pixels' channels. |
| `Activity.HundredByFiftyExample` | app/src/main/java/com/example/imagemartixdata/MainActivity.kt:220-231 | In a 100×50 frame whose pixel at (25, 10) has channels (200, 100, 50), sampled cell [2][5] shows (200, 100, 50). |

## Left out

- The telemetry simulator `updateSimulatedParameters` (lines 102-127) is left out. It is floating-point `sin`/`cos` arithmetic, and its fields accumulate with `+=`.
- `updateDisplays` (lines 129-161) is left out. It formats floating-point values with locale-dependent `%.Nf`.
- The `isProcessing` atomic flag (lines 34, 199-202) is left out. It is concurrency control between the camera executor and the handler.
- The `Handler`/`Looper` timer and its cancellation (lines 92-100, 175-179) are left out. They are platform scheduling.
- Camera start-up, permissions and `onCreate` (lines 64-90, 163-173, 181-218) are left out. They are platform I/O and lifecycle code.
- The JPEG step of `toBitmap` (lines 280-297) is left out. `YuvImage.compressToJpeg` and `BitmapFactory.decodeByteArray` are opaque, lossy library calls, so `toBitmap`'s `null` result is not modelled either.
- `runOnUiThread` and the `TextView` assignment (line 223) are left out. `Activity.ProcessImage` returns the text instead of displaying it.
- `Sampler.GetSampledImageMatrix`: the source returns `Array<IntArray>`, one separate row array per row. The model returns one `array2`, so it does not capture that each row could be aliased or replaced on its own.
- `Nv21.PackNv21`: the planes' row strides and pixel strides are not modelled, because the source never consults them. So the model says which bytes land where, but not whether they form a well-formed NV21 image.
- `Nv21.PackNv21`: the array size `ySize + uSize + vSize` (line 274) is a 32-bit `Int` sum in the source and could wrap. The model adds unbounded integers. Each remaining count is itself a 32-bit value, and a frame's planes are far smaller than 2^31 bytes in total, so this matters only for buffers no camera delivers. With a wrapped sum the source would throw at the allocation or at a `get`.
- `Nv21.PackNv21` requires the three plane buffers to be distinct objects. The platform gives each plane its own buffer. All three sizes are read before any `get`, so with one object passed twice the second `get` would find too few bytes left and the platform would throw. The model does not describe that case.
- `Nv21.ByteBuffer.Get`: the platform's exceptions for a short buffer or an out-of-range destination slice are preconditions, not error results. The only caller never triggers them, and `PackNv21` proves this.
- `Sampler.GetPixel`: the platform's exception for an out-of-range coordinate is a precondition. The sampler proves that every call meets it.
- `MatrixText.ParseFormatMatrix` requires at least one row. A matrix with no rows and one with a single empty row print the same empty text (`MatrixText.EmptyMatrixTexts`), so no parser can recover both.
