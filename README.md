# CT head viewer — a Dafny model of its core

The viewer shows the CThead dataset: 113 slices of 256×256 signed 16-bit
samples, read from one raw file. The user picks a slice by hovering over a
500×500 image of thumbnails, and the viewer renders that slice at an output
size between 32 and 1024 by nearest-neighbour or bilinear resizing.

This project models the integer part of that pipeline in four modules.

- `Volume` (`volume.dfy`) covers the file format:
  - a sample is stored as two bytes, low-order byte first, and read back as a Java `short`;
  - samples are stored in slice, row, column order;
  - a running minimum and maximum is kept while the file is scanned.
- `Resample` (`resample.dfy`) covers the index arithmetic of `getSlice`:
  - the source sample that nearest neighbour reads for each output pixel;
  - the clamped relative coordinate of bilinear resizing, its floor and ceiling corners, and the branch chosen by which coordinates are integral.

  A `Tap` records which samples of a slice an output pixel is computed from and
  how they are combined. A rendered pixel is a `SlicePixel`, which pairs the
  slice it reads with its tap. The
  grey values themselves are floats and are not modelled.
- `Thumbnails` (`thumbnails.dfy`) covers the thumbnail window:
  - the white 500×500 image;
  - the 10×12 grid of 38×38 nearest-neighbour thumbnails with 4-pixel gaps, where cells past slice 112 stay white;
  - the hover rule that turns a mouse position into a slice number.
- `Viewer` (`viewer.dfy`) is the application object, a class with the fields
  `cthead`, `currentImage`, `currentSize`, `currentGamma` and
  `currentResizeMethod`. Its methods are:
  - `ReadData`: reads the file, given as a byte sequence, into a freshly allocated 3-D array;
  - `GetSlice`: fills a `currentSize`×`currentSize` array;
  - `OnMouseMoved`: the hover handler, which updates `currentImage` and renders again.

Two details of the code shape the model:

- The nearest-neighbour index truncates `x * (256 / (double) size)`, with no
  rounding and no clamp (src/application/Main.java:198-199).
  `NearestIndexInSlice` proves that no clamp is needed.
- Gamma correction is a `Math.pow` call for every pixel
  (src/application/Main.java:284). It is not modelled (see below).

## Model

| member | source | states |
|---|---|---|
| Volume.ToShort | src/application/Main.java:166 | the `(short)` cast keeps the value modulo 2^16 and leaves every value already in the short range unchanged |
| Volume.DecodeSample | src/application/Main.java:164-166 | the decoded sample equals b2·256 + b1 modulo 2^16, and it is negative exactly when the high-order byte b2 has its top bit set |
| Volume.DecodeEncode | src/application/Main.java:164-166 | decoding the two bytes that store a short gives that short back |
| Volume.EncodeDecode | src/application/Main.java:164-166 | every byte pair is the encoding of the sample it decodes to, so decoding is a bijection between byte pairs and shorts |
| Volume.DecodeExamples | src/application/Main.java:164-166 | bytes [0x01, 0x02] decode to 0x0201, [0xFF, 0xFF] to -1, [0x00, 0x80] to Short.MIN_VALUE |
| Volume.Decoded | src/application/Main.java:160-166 | the stream of samples: one sample per whole byte pair of the file |
| Volume.DecodedAt | src/application/Main.java:160-166 | sample n of the stream is decoded from bytes 2n (low) and 2n + 1 (high) |
| Volume.SampleIndex | src/application/Main.java:160-176 | the stream position of cell [k][j][i] lies below 113·256·256 for every cell of the volume |
| Volume.SampleIndexInjective | src/application/Main.java:160-176 | two distinct cells are filled from two distinct stream positions |
| Volume.SampleIndexOnto | src/application/Main.java:160-176 | every stream position below 113·256·256 fills some cell, so the storage order is a bijection |
| Volume.RunningMin | src/application/Main.java:148-170 | the minimum kept by the scan, starting at Short.MAX_VALUE and lowered by each smaller sample; it never exceeds the latest sample |
| Volume.RunningMax | src/application/Main.java:149-175 | the maximum kept by the scan, starting at Short.MIN_VALUE and raised by each larger sample; it is never below the latest sample |
| Volume.RunningMinIsMinimum | src/application/Main.java:148-170 | the minimum kept over the first n samples is at most each of them and equals one of them, and it is Short.MAX_VALUE when nothing was read |
| Volume.RunningMaxIsMaximum | src/application/Main.java:149-175 | the maximum kept over the first n samples is at least each of them and equals one of them, and it is Short.MIN_VALUE when nothing was read |
| Volume.RunningMinBelowMax | src/application/Main.java:168-175 | once a sample has been read, the running minimum never exceeds the running maximum |
| Viewer.ReadRow | src/application/Main.java:162-177 | reading one row succeeds exactly when the stream holds that whole row; it then stores each sample in its cell and extends the running min/max by the row |
| Viewer.Viewer.ReadData | src/application/Main.java:142-186 | allocates a fresh 113×256×256 array and succeeds exactly when the stream has at least 2·113·256·256 bytes; on success every cell holds the sample decoded at its stream position, and min/max are the minimum and maximum of all samples as the scan keeps them |
| Viewer.Viewer.constructor | src/application/Main.java:44-54 | the start-up state: slice 76, size 256, gamma 1, nearest neighbour, no volume |
| Resample.NearestTap | src/application/Main.java:195-201 | nearest neighbour reads one sample, at row floor(y·256/size) and column floor(x·256/size) |
| Resample.BilinearTap | src/application/Main.java:209-258 | the branch of bilinear resizing, chosen by which relative coordinates are integral; every sample it reads is inside the slice for any x and y, because of the clamp at 255 |
| Resample.TapAt | src/application/Main.java:193-258 | the tap of the selected resize method; for either method, a pixel inside the image that reads one sample directly reads the nearest-neighbour sample |
| Resample.NearestIndex | src/application/Main.java:198-199 | the index read for output coordinate x is the floor of x·256/size |
| Resample.NearestIndexInSlice | src/application/Main.java:198-201 | for every x inside the output image the index is inside the 256-wide slice, so the unclamped lookup never goes out of bounds |
| Resample.NearestIndexMonotone | src/application/Main.java:198-199 | a larger output coordinate never reads a smaller source index |
| Resample.NearestIndexIdentity | src/application/Main.java:198-199 | at size 256 the index is x itself |
| Resample.BilinearAxis | src/application/Main.java:212-225 | lo + frac/size is the relative coordinate x·256/size clamped at 255; lo is its floor and hi its ceiling, both inside the slice and at most one apart, and equal exactly when the coordinate is integral |
| Resample.TapReadsInSlice | src/application/Main.java:198-230 | every sample an output pixel reads, by either method and including all four bilinear corners, lies inside the 256×256 slice |
| Resample.BilinearReadsCorners | src/application/Main.java:227-258 | whichever branch is taken, the samples used are exactly the four corners a, b, c, d read before the branch: a branch leaves out only corners that coincide with ones it uses |
| Resample.BilinearFloorIsNearest | src/application/Main.java:198-225 | inside the image the floor corner of bilinear resizing is the nearest-neighbour index, the clamp at 255 included |
| Resample.BilinearPointIsNearest | src/application/Main.java:232-233 | when bilinear resizing reads a sample directly, it reads the sample nearest neighbour reads |
| Resample.ResizeIdentityAtSourceResolution | src/application/Main.java:193-237 | at size 256 both methods read sample [y][x] for output pixel (x, y) |
| Viewer.RenderReadsInVolume | src/application/Main.java:201-233 | every sample a pixel inside the image reads from slice s, by either method, is a cell [s][row][col] of the volume |
| Viewer.Viewer.GetSlice | src/application/Main.java:188-277 | returns a new currentSize×currentSize image in which pixel (x, y) reads slice currentImage, through the samples and branch that the selected resize method gives for (x, y) |
| Thumbnails.ThumbIndex | src/application/Main.java:322-323 | the thumbnail index is the floor of x·256/38, and it is at most 249 inside a 38-pixel thumbnail |
| Thumbnails.CreateThumbImage | src/application/Main.java:298-333 | returns a new 500×500 image in which every pixel is the thumbnail sample of its grid cell when it lies in a thumbnail of a slice, and white otherwise |
| Thumbnails.DrawnStep | src/application/Main.java:314-328 | one iteration of the tiling loop adds exactly the pixel it writes (when its cell holds a slice) to those already drawn |
| Thumbnails.DrawPixel | src/application/Main.java:319-328 | one pass of the innermost tiling loop for a cell holding a slice writes its pixel and extends the drawn part of the image by exactly that pixel |
| Thumbnails.TilePlacement | src/application/Main.java:319-328 | every pixel the tiling loop writes lies in the image and shows grey[row·12 + col][x·256/38][y·256/38] |
| Thumbnails.TilesDisjoint | src/application/Main.java:317-328 | two different iterations of the tiling loop never write the same pixel |
| Thumbnails.UnusedAreaStaysWhite | src/application/Main.java:304-333 | the gaps, the strip below the grid and the last row's cells from column 5 on stay white |
| Thumbnails.Pick | src/application/Main.java:347-355 | a selected slice is below 113, and its thumbnail's grid cell (slice / 12, slice % 12) is the cell under the hover |
| Thumbnails.PickSelectsShownSlice | src/application/Main.java:347-355 | hovering over any pixel of a thumbnail selects the slice that thumbnail shows |
| Thumbnails.PickedPixelIsShownOrGapEdge | src/application/Main.java:351 | a hover that selects a slice lies on a white pixel exactly when its offset in the 42-pixel pitch is 38 in either direction; otherwise it lies on that slice's thumbnail |
| Thumbnails.PickExamples | src/application/Main.java:347-355 | (0,0) selects slice 0, (41,0) selects nothing, (50,0) selects slice 1, (38,0) selects slice 0 from a white pixel, and hovers in the last grid row select slice 112 and nothing past it |
| Viewer.Viewer.OnMouseMoved | src/application/Main.java:342-363 | a hover that picks a slice makes it the current image and returns a newly allocated rendering whose every pixel reads the picked slice; any other hover leaves the state unchanged and renders nothing; the view state stays valid |

## Left out

- Grey normalisation is not modelled: `grey[k][j][i] = (sample - min) / (max - min)`
  (lines 178-179) is float arithmetic. The model keeps the running min and max it uses. With those, the first sample is normalised as 0/0,
  which is NaN in Java floats, as is every sample of a file whose samples are
  all equal.
- `lerp`, `Color.color` and the gamma pass of `getSlice` (lines 279-296) are
  floating point. They are not modelled.
- Viewer.Viewer.GetSlice: the returned image says which slice and which samples
  of it each pixel is computed from, and how (a `SlicePixel`). It does not say the grey value, the
  interpolated value, or the gamma-corrected value.
- Resample.NearestIndex: the source computes `x * (256 / (double) size)` in
  double precision and truncates. The model uses the exact floor of
  x·256/size, so a one-off difference from double rounding, for a size that does
  not divide 256, is not modelled.
- Resample.BilinearAxis: the relative coordinate is modelled as an exact
  rational, lo + frac/size. The double-precision value and the
  `relativeX - (int) relativeX == 0` test on it are not modelled bit for bit.
- Thumbnails.Pick: hover positions are modelled as whole pixel coordinates in
  [0, 500). The source receives doubles. A fractional position such as 38.5
  (which the source rejects as a gap) is not modelled.
- Viewer.Viewer.ReadData: the model covers a file that opens, given as its
  byte sequence. A missing file is not modelled: there `new FileInputStream`
  throws before `cthead` is allocated (lines 145-156), and the application
  exits. The `EOFException` of a short file is modelled as `ok` being false,
  with `cthead` already allocated as in the source. The cells left unwritten
  after a short file are not specified.
  The diagnostic `println` of min and max is modelled by returning them.
- Viewer.Viewer.OnMouseMoved: `imageView.setImage` is modelled by returning the new rendering.
- The JavaFX shell is not part of this model: the window, scene and layout
  code, the size and gamma sliders, the resize-method radio buttons,
  `createThumbWindow`'s placement at (atX, atY), and the handling of a failed
  load, which prints and exits. The slider and button handlers only set
  `currentSize`, `currentGamma` or `currentResizeMethod` within the ranges
  `Valid` states, and render again.
- Volume.EncodeSample has no contract of its own. It is the inverse that
  `DecodeEncode` and `EncodeDecode` are stated against; the source only reads
  samples and never writes them.
