/** The viewer's state and the operations that change it or read it: loading
    the volume, rendering the current slice at the current size, and picking a
    slice by hovering over the thumbnail image. */
module Viewer {
  import opened Volume
  import opened Resample
  import Thumbnails

  /** Slice shown at start-up. */
  const DEFAULT_IMAGE := 76

  /** Bounds of the gamma slider. */
  const MIN_GAMMA: real := 0.1
  const MAX_GAMMA: real := 4.0

  /** The first n cells of the volume in storage order hold the first n samples. */
  ghost predicate FilledUpTo(volume: array3<short>, samples: seq<short>, n: nat)
    reads volume
  {
    volume.Length0 == SLICES && volume.Length1 == ROWS && volume.Length2 == COLS &&
    forall k, j, i {:trigger volume[k, j, i]} :: InVolume(k, j, i) && SampleIndex(k, j, i) < n ==>
      SampleIndex(k, j, i) < |samples| && volume[k, j, i] == samples[SampleIndex(k, j, i)]
  }

  /** The state of the scan after n samples: pos bytes consumed, min and max the
      running minimum and maximum, and the first n cells filled. */
  ghost predicate ScannedUpTo(data: seq<byte>, samples: seq<short>, volume: array3<short>,
                              pos: int, min: int, max: int, n: nat)
    reads volume
  {
    pos == 2 * n <= |data| &&
    n <= |samples| && min == RunningMin(samples, n) && max == RunningMax(samples, n) &&
    FilledUpTo(volume, samples, n)
  }

  /** Storing sample n in the cell SampleIndex maps to n extends the filled prefix by one. */
  lemma FilledStep(volume: array3<short>, samples: seq<short>, k: int, j: int, i: int)
    requires InVolume(k, j, i) && SampleIndex(k, j, i) < |samples|
    requires FilledUpTo(volume, samples, SampleIndex(k, j, i))
    requires volume[k, j, i] == samples[SampleIndex(k, j, i)]
    ensures FilledUpTo(volume, samples, SampleIndex(k, j, i) + 1)
  {
    forall k', j', i' | InVolume(k', j', i') && SampleIndex(k', j', i') == SampleIndex(k, j, i)
      ensures k' == k && j' == j && i' == i
    {
      SampleIndexInjective(k, j, i, k', j', i');
    }
  }

  /** The column loop of ReadData: reads row j of slice k, sample by sample,
      from byte pos of the stream. ok is false when the stream ends first. */
  method ReadRow(data: seq<byte>, ghost samples: seq<short>, volume: array3<short>, k: nat, j: nat,
                 pos: nat, min: short, max: short)
    returns (ok: bool, pos': nat, min': short, max': short)
    requires samples == Decoded(data) && k < SLICES && j < ROWS
    requires ScannedUpTo(data, samples, volume, pos, min, max, SampleIndex(k, j, 0))
    modifies volume
    ensures ok <==> 2 * SampleIndex(k, j + 1, 0) <= |data|
    ensures ok ==> ScannedUpTo(data, samples, volume, pos', min', max', SampleIndex(k, j + 1, 0))
  {
    pos', min', max' := pos, min, max;
    ghost var n := SampleIndex(k, j, 0);  // samples read
    for i := 0 to COLS
      invariant n == SampleIndex(k, j, i)
      invariant ScannedUpTo(data, samples, volume, pos', min', max', n)
    {
      if |data| < pos' + 2 {
        // end of file before the last sample of the row
        return false, pos', min', max';
      }
      var b1, b2 := data[pos'], data[pos' + 1];
      pos' := pos' + 2;
      var read := DecodeSample(b1, b2);
      DecodedAt(data, n);
      if read < min' {
        min' := read;
      }
      if read > max' {
        max' := read;
      }
      volume[k, j, i] := read;
      FilledStep(volume, samples, k, j, i);
      n := n + 1;
    }
    ok := true;
  }

  /** Rendering slice `slice` of the volume reads only cells of the volume:
      every sample an output pixel inside the image is computed from is some
      cthead[slice][row][col]. */
  lemma RenderReadsInVolume(slice: nat, resize: ResizeMethod, x: nat, y: nat, size: nat)
    requires slice < SLICES && 0 < size && x < size && y < size
    ensures forall rc :: rc in Reads(TapAt(resize, x, y, size)) ==> InVolume(slice, rc.0, rc.1)
  {
    TapReadsInSlice(resize, x, y, size);
  }

  class Viewer {
    /** The volume, cthead[slice][row][column]; null until the file is read. */
    var cthead: array3?<short>
    var currentImage: int
    var currentSize: int
    var currentGamma: real
    var currentResizeMethod: ResizeMethod

    /** The view state stays within the ranges its controls allow. */
    ghost predicate Valid()
      reads this
    {
      0 <= currentImage < SLICES &&
      MIN_RESOLUTION <= currentSize <= MAX_RESOLUTION &&
      MIN_GAMMA <= currentGamma <= MAX_GAMMA
    }

    /** The default state: slice 76 at 256x256, gamma 1, nearest neighbour. */
    constructor ()
      ensures Valid()
      ensures cthead == null
      ensures currentImage == DEFAULT_IMAGE && currentSize == SOURCE_RESOLUTION
      ensures currentGamma == 1.0 && currentResizeMethod == NearestNeighbour
    {
      cthead := null;
      currentImage := DEFAULT_IMAGE;
      currentSize := SOURCE_RESOLUTION;
      currentGamma := 1.0;
      currentResizeMethod := NearestNeighbour;
    }

    /** Reads the volume from the byte stream data: sample after sample, two bytes
        each, into slice, row and column order, keeping the running minimum and
        maximum. ok is false when the stream ends early (the source then throws
        an IOException and the application exits); min and max are the values
        printed as a diagnostic at the end. */
    method ReadData(data: seq<byte>) returns (ok: bool, min: short, max: short)
      modifies this`cthead
      ensures cthead != null && fresh(cthead)
      ensures cthead.Length0 == SLICES && cthead.Length1 == ROWS && cthead.Length2 == COLS
      ensures ok <==> |data| >= 2 * SAMPLE_COUNT
      ensures ok ==> forall k, j, i :: InVolume(k, j, i) ==>
                cthead[k, j, i] == Decoded(data)[SampleIndex(k, j, i)]
      ensures ok ==> min == RunningMin(Decoded(data), SAMPLE_COUNT)
      ensures ok ==> max == RunningMax(Decoded(data), SAMPLE_COUNT)
    {
      min, max := SHORT_MAX, SHORT_MIN;
      var volume := new short[SLICES, ROWS, COLS];
      cthead := volume;
      ghost var samples := Decoded(data);
      var pos := 0;  // bytes consumed from the stream
      ghost var n := 0;  // samples read
      for k := 0 to SLICES
        modifies volume
        invariant n == SampleIndex(k, 0, 0)
        invariant ScannedUpTo(data, samples, volume, pos, min, max, n)
      {
        for j := 0 to ROWS
          modifies volume
          invariant n == SampleIndex(k, j, 0)
          invariant ScannedUpTo(data, samples, volume, pos, min, max, n)
        {
          ok, pos, min, max := ReadRow(data, samples, volume, k, j, pos, min, max);
          if !ok {
            return;
          }
          n := n + COLS;
        }
      }
      ok := true;
    }

    /** Renders the current slice at the current size with the current resize
        method: image[x, y] says which samples of grey[currentImage] output pixel
        (x, y) is computed from, and how. */
    method GetSlice() returns (image: array2<SlicePixel>)
      requires Valid()
      ensures fresh(image)
      ensures image.Length0 == currentSize && image.Length1 == currentSize
      ensures forall x, y :: 0 <= x < currentSize && 0 <= y < currentSize ==>
                image[x, y] == SlicePixel(currentImage, TapAt(currentResizeMethod, x, y, currentSize))
    {
      image := new SlicePixel[currentSize, currentSize];
      if currentResizeMethod == NearestNeighbour {
        for y := 0 to currentSize
          invariant forall x', y' :: 0 <= x' < currentSize && 0 <= y' < y ==>
                      image[x', y'] == SlicePixel(currentImage, TapAt(currentResizeMethod, x', y', currentSize))
        {
          for x := 0 to currentSize
            invariant forall x', y' :: 0 <= x' < currentSize && 0 <= y' < y ==>
                        image[x', y'] == SlicePixel(currentImage, TapAt(currentResizeMethod, x', y', currentSize))
            invariant forall x' :: 0 <= x' < x ==>
                        image[x', y] == SlicePixel(currentImage, TapAt(currentResizeMethod, x', y, currentSize))
          {
            var relativeX := NearestIndex(x, currentSize);
            var relativeY := NearestIndex(y, currentSize);
            image[x, y] := SlicePixel(currentImage, Point(relativeY, relativeX));
          }
        }
      } else {
        for y := 0 to currentSize
          invariant forall x', y' :: 0 <= x' < currentSize && 0 <= y' < y ==>
                      image[x', y'] == SlicePixel(currentImage, TapAt(currentResizeMethod, x', y', currentSize))
        {
          for x := 0 to currentSize
            invariant forall x', y' :: 0 <= x' < currentSize && 0 <= y' < y ==>
                        image[x', y'] == SlicePixel(currentImage, TapAt(currentResizeMethod, x', y', currentSize))
            invariant forall x' :: 0 <= x' < x ==>
                        image[x', y] == SlicePixel(currentImage, TapAt(currentResizeMethod, x', y, currentSize))
          {
            // relative positions, clamped at 255, with their floor and ceiling
            var ax := BilinearAxis(x, currentSize);
            var ay := BilinearAxis(y, currentSize);
            if ax.frac == 0 && ay.frac == 0 {
              image[x, y] := SlicePixel(currentImage, Point(ay.lo, ax.lo));
            } else if ax.frac == 0 {
              image[x, y] := SlicePixel(currentImage, AlongY(ax.lo, ay));
            } else if ay.frac == 0 {
              image[x, y] := SlicePixel(currentImage, AlongX(ay.lo, ax));
            } else {
              image[x, y] := SlicePixel(currentImage, Both(ax, ay));
            }
          }
        }
      }
    }

    /** The mouse moved to (hoverX, hoverY) over the thumbnail image: a hover that
        picks a slice makes it the current image and the slice is rendered again
        (shown is that new rendering); any other hover changes nothing. */
    method OnMouseMoved(hoverX: nat, hoverY: nat) returns (shown: array2?<SlicePixel>)
      requires Valid()
      requires hoverX < Thumbnails.IMAGE_SIZE && hoverY < Thumbnails.IMAGE_SIZE
      modifies this`currentImage
      ensures Valid()
      ensures currentImage == match Thumbnails.Pick(hoverX, hoverY)
                              case Some(p) => p
                              case None => old(currentImage)
      ensures shown != null <==> Thumbnails.Pick(hoverX, hoverY).Some?
      ensures shown != null ==> fresh(shown)
      ensures shown != null ==> shown.Length0 == currentSize && shown.Length1 == currentSize
      ensures shown != null ==> forall x, y :: 0 <= x < currentSize && 0 <= y < currentSize ==>
                shown[x, y] == SlicePixel(Thumbnails.Pick(hoverX, hoverY).value,
                                          TapAt(currentResizeMethod, x, y, currentSize))
    {
      shown := null;
      var selectedColumn, selectedRow := hoverX / Thumbnails.PITCH, hoverY / Thumbnails.PITCH;
      // offset within the 42-pixel pitch at most 38 on both axes
      if hoverX % Thumbnails.PITCH <= Thumbnails.THUMB_SIZE && hoverY % Thumbnails.PITCH <= Thumbnails.THUMB_SIZE {
        var selectedPicture := Thumbnails.SliceAt(selectedRow, selectedColumn);
        // the grid cell holds a slice
        if selectedPicture < SLICES {
          currentImage := selectedPicture;
          shown := GetSlice();
        }
      }
    }
  }
}
