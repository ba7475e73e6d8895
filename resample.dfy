/** The index arithmetic of the slice resampler: which source samples of the
    256x256 slice an output pixel of a size x size image is computed from, for
    nearest-neighbour and for bilinear resizing. The grey values themselves
    (floats) and the interpolation arithmetic on them are not modelled: a pixel
    is described by the samples it reads and by the branch that combines them. */
module Resample {

  /** Width and height of a source slice (DEFAULT_RESOLUTION). */
  const SOURCE_RESOLUTION := 256

  /** Bounds of the output size slider. */
  const MIN_RESOLUTION := 32
  const MAX_RESOLUTION := 1024

  datatype ResizeMethod = NearestNeighbour | BilinearInterpolation

  /** Nearest neighbour: the source index read for output coordinate x of a
      size-wide image, the truncation of x * (256 / size). */
  function NearestIndex(x: nat, size: nat): (r: nat)
    requires size > 0
    ensures r * size <= x * SOURCE_RESOLUTION < (r + 1) * size
  {
    x * SOURCE_RESOLUTION / size
  }

  /** Product a * c grows with a when c is positive. */
  lemma MulMonotone(a: int, b: int, c: nat)
    requires a <= b
    ensures a * c <= b * c
  {
  }

  /** For every output coordinate the index falls inside the source slice. */
  lemma {:induction false} NearestIndexInSlice(x: nat, size: nat)
    requires 0 < size && x < size
    ensures NearestIndex(x, size) < SOURCE_RESOLUTION
  {
    var r := NearestIndex(x, size);
    if r >= SOURCE_RESOLUTION {
      MulMonotone(SOURCE_RESOLUTION, r, size);
      assert false;
    }
  }

  /** Moving right (or down) in the output never moves left (or up) in the source. */
  lemma {:induction false} NearestIndexMonotone(x: nat, x': nat, size: nat)
    requires 0 < size && x <= x'
    ensures NearestIndex(x, size) <= NearestIndex(x', size)
  {
    var r, r' := NearestIndex(x, size), NearestIndex(x', size);
    if r > r' {
      MulMonotone(r' + 1, r, size);
      assert false;
    }
  }

  /** At the source resolution nearest neighbour reads every sample in place. */
  lemma NearestIndexIdentity(x: nat)
    ensures NearestIndex(x, SOURCE_RESOLUTION) == x
  {
  }

  /** One axis of a bilinear sample: the relative coordinate, clamped at 255, is
      lo + frac / size, and lo and hi are its floor and its ceiling. */
  datatype Axis = Axis(lo: nat, hi: nat, frac: nat)

  /** The bilinear axis for output coordinate x of a size-wide image. */
  function BilinearAxis(x: nat, size: nat): (a: Axis)
    requires size > 0
    ensures a.lo * size + a.frac == if x * SOURCE_RESOLUTION > (SOURCE_RESOLUTION - 1) * size
                                    then (SOURCE_RESOLUTION - 1) * size
                                    else x * SOURCE_RESOLUTION
    ensures a.frac < size
    ensures a.lo <= a.hi < SOURCE_RESOLUTION && a.hi - a.lo <= 1
    ensures a.lo == a.hi <==> a.frac == 0
  {
    // relative coordinate times size, after the clamp at 255
    var scaled := if x * SOURCE_RESOLUTION > (SOURCE_RESOLUTION - 1) * size
                  then (SOURCE_RESOLUTION - 1) * size
                  else x * SOURCE_RESOLUTION;
    var lo, frac := scaled / size, scaled % size;
    LowCornerInSlice(scaled, size);
    Axis(lo, if frac == 0 then lo else lo + 1, frac)
  }

  /** The floor of a clamped coordinate is at most 255, and below 255 whenever the
      coordinate is not integral. */
  lemma {:induction false} LowCornerInSlice(scaled: nat, size: nat)
    requires 0 < size && scaled <= (SOURCE_RESOLUTION - 1) * size
    ensures scaled / size <= SOURCE_RESOLUTION - 1
    ensures scaled % size != 0 ==> scaled / size < SOURCE_RESOLUTION - 1
  {
    var lo := scaled / size;
    if lo > SOURCE_RESOLUTION - 1 {
      MulMonotone(SOURCE_RESOLUTION, lo, size);
      assert false;
    }
    if scaled % size != 0 && lo == SOURCE_RESOLUTION - 1 {
      assert false;
    }
  }

  /** What an output pixel is computed from, for slice s = currentImage:
      Point reads grey[s][row][col] itself; AlongY interpolates between rows
      y.lo and y.hi of column col; AlongX between columns x.lo and x.hi of row
      row; Both interpolates along x on rows y.lo and y.hi and then along y. */
  datatype Tap =
    | Point(row: nat, col: nat)
    | AlongY(col: nat, y: Axis)
    | AlongX(row: nat, x: Axis)
    | Both(x: Axis, y: Axis)

  /** An output pixel of a rendering of slice `slice`: the tap names the
      samples of grey[slice] it is computed from. */
  datatype SlicePixel = SlicePixel(slice: nat, tap: Tap)

  /** Nearest neighbour reads one sample: row and column are the floors of
      y * 256 / size and x * 256 / size. */
  function NearestTap(x: nat, y: nat, size: nat): (t: Tap)
    requires size > 0
    ensures t.Point?
    ensures t.row * size <= y * SOURCE_RESOLUTION < (t.row + 1) * size
    ensures t.col * size <= x * SOURCE_RESOLUTION < (t.col + 1) * size
  {
    Point(NearestIndex(y, size), NearestIndex(x, size))
  }

  /** Bilinear: the branch is chosen by which relative coordinates are integral.
      Thanks to the clamp at 255 every sample it reads is inside the slice, for
      any x and y whatever. */
  function BilinearTap(x: nat, y: nat, size: nat): (t: Tap)
    requires size > 0
    ensures forall rc :: rc in Reads(t) ==> rc.0 < SOURCE_RESOLUTION && rc.1 < SOURCE_RESOLUTION
  {
    var ax, ay := BilinearAxis(x, size), BilinearAxis(y, size);
    if ax.frac == 0 && ay.frac == 0 then Point(ay.lo, ax.lo)
    else if ax.frac == 0 then AlongY(ax.lo, ay)
    else if ay.frac == 0 then AlongX(ay.lo, ax)
    else Both(ax, ay)
  }

  /** The tap of output pixel (x, y) for the selected resize method. Whichever
      the method, a pixel of the image that reads one sample directly reads the
      sample nearest neighbour reads. */
  function TapAt(resize: ResizeMethod, x: nat, y: nat, size: nat): (t: Tap)
    requires size > 0
    ensures x < size && y < size && t.Point? ==> t == NearestTap(x, y, size)
  {
    match resize
    case NearestNeighbour => NearestTap(x, y, size)
    case BilinearInterpolation =>
      var t := BilinearTap(x, y, size);
      if x < size && y < size && t.Point? then
        BilinearPointIsNearest(x, y, size);
        t
      else t
  }

  /** The source samples a tap reads. Bilinear resizing reads the four corners
      (x1, y1), (x1, y2), (x2, y2), (x2, y1) before choosing its branch. */
  function Reads(t: Tap): set<(nat, nat)>
  {
    match t
    case Point(row, col) => {(row, col)}
    case AlongY(col, y) => {(y.lo, col), (y.hi, col)}
    case AlongX(row, x) => {(row, x.lo), (row, x.hi)}
    case Both(x, y) => {(y.lo, x.lo), (y.hi, x.lo), (y.hi, x.hi), (y.lo, x.hi)}
  }

  /** Every sample any output pixel reads lies inside the 256x256 slice. */
  lemma TapReadsInSlice(resize: ResizeMethod, x: nat, y: nat, size: nat)
    requires 0 < size && x < size && y < size
    ensures forall rc :: rc in Reads(TapAt(resize, x, y, size)) ==>
              rc.0 < SOURCE_RESOLUTION && rc.1 < SOURCE_RESOLUTION
  {
    NearestIndexInSlice(x, size);
    NearestIndexInSlice(y, size);
  }

  /** Whichever branch it takes, bilinear resizing uses exactly the four corners
      a = (x1, y1), b = (x1, y2), c = (x2, y2) and d = (x2, y1) it reads: a branch
      leaves a corner out only where that corner coincides with one it uses. */
  lemma BilinearReadsCorners(x: nat, y: nat, size: nat)
    requires size > 0
    ensures var ax, ay := BilinearAxis(x, size), BilinearAxis(y, size);
            Reads(BilinearTap(x, y, size)) ==
              {(ay.lo, ax.lo), (ay.hi, ax.lo), (ay.hi, ax.hi), (ay.lo, ax.hi)}
  {
  }

  /** Inside the image the floor corner of bilinear resizing is the sample nearest
      neighbour reads, the clamp at 255 included. */
  lemma {:induction false} BilinearFloorIsNearest(x: nat, size: nat)
    requires 0 < size && x < size
    ensures BilinearAxis(x, size).lo == NearestIndex(x, size)
  {
    var a, r := BilinearAxis(x, size), NearestIndex(x, size);
    NearestIndexInSlice(x, size);
    if x * SOURCE_RESOLUTION > (SOURCE_RESOLUTION - 1) * size {
      // clamped: both indices are 255
      assert a.lo == SOURCE_RESOLUTION - 1 by {
        if a.lo < SOURCE_RESOLUTION - 1 {
          MulMonotone(a.lo + 1, SOURCE_RESOLUTION - 1, size);
        }
      }
      if r < SOURCE_RESOLUTION - 1 {
        MulMonotone(r + 1, SOURCE_RESOLUTION - 1, size);
        assert false;
      }
    } else {
      FloorUnique(x * SOURCE_RESOLUTION, size, a.lo, r);
    }
  }

  /** The floor of n / size is the one q with q * size <= n < (q + 1) * size. */
  lemma {:induction false} FloorUnique(n: nat, size: nat, q: nat, q': nat)
    requires 0 < size
    requires q * size <= n < (q + 1) * size
    requires q' * size <= n < (q' + 1) * size
    ensures q == q'
  {
    if q < q' {
      MulMonotone(q + 1, q', size);
    } else if q' < q {
      MulMonotone(q' + 1, q, size);
    }
  }

  /** So when bilinear resizing reads a sample directly, it reads the very sample
      nearest neighbour reads. */
  lemma BilinearPointIsNearest(x: nat, y: nat, size: nat)
    requires 0 < size && x < size && y < size
    requires BilinearTap(x, y, size).Point?
    ensures BilinearTap(x, y, size) == NearestTap(x, y, size)
  {
    BilinearFloorIsNearest(x, size);
    BilinearFloorIsNearest(y, size);
  }

  /** At the source resolution both methods reproduce the slice: output pixel
      (x, y) is grey[s][y][x]. */
  lemma ResizeIdentityAtSourceResolution(resize: ResizeMethod, x: nat, y: nat)
    requires x < SOURCE_RESOLUTION && y < SOURCE_RESOLUTION
    ensures TapAt(resize, x, y, SOURCE_RESOLUTION) == Point(y, x)
  {
  }
}
