/** The thumbnail window: a 500x500 image on which all 113 slices are drawn as
    38x38 nearest-neighbour thumbnails on a 10x12 grid with 4-pixel gaps, and
    the rule that turns a hover position into a slice number. */
module Thumbnails {
  import Volume

  const IMAGE_SIZE := 500
  const GRID_ROWS := 10
  const GRID_COLS := 12
  const THUMB_SIZE := 38
  const GAP := 4
  /** Distance between the left (top) edges of two neighbouring thumbnails. */
  const PITCH := THUMB_SIZE + GAP

  /** A pixel of the thumbnail image: not yet painted, white, or the grey value
      grey[slice][row][col] of the volume. */
  datatype Pixel = Transparent | White | Sample(slice: nat, row: nat, col: nat)

  datatype Option<T> = None | Some(value: T)

  /** Source row (or column) of the slice shown at offset x inside a thumbnail,
      the truncation of x * 256 / 38.0 where x * 256 is an int product. */
  function ThumbIndex(x: nat): (r: nat)
    ensures r * THUMB_SIZE <= x * 256 < (r + 1) * THUMB_SIZE
    ensures x < THUMB_SIZE ==> r <= 249
  {
    x * 256 / THUMB_SIZE
  }

  /** Thumbnail of slice p sits in grid row p / 12 and column p % 12. */
  function SliceAt(gridRow: nat, gridCol: nat): nat
  {
    gridRow * GRID_COLS + gridCol
  }

  /** What the finished thumbnail image shows at column px, row py: the pixel
      belongs to the thumbnail in grid cell (py / 42, px / 42) when it is not in
      a gap and that cell holds a slice; everything else is white. */
  function ThumbAt(px: nat, py: nat): Pixel
  {
    var gridRow, gridCol := py / PITCH, px / PITCH;
    if py % PITCH < THUMB_SIZE && px % PITCH < THUMB_SIZE && gridCol < GRID_COLS
       && SliceAt(gridRow, gridCol) < Volume.SLICES
    then Sample(SliceAt(gridRow, gridCol), ThumbIndex(py % PITCH), ThumbIndex(px % PITCH))
    else White
  }

  /** Writing offset o of grid column (or row) c goes to pixel o + c * 42, and
      that pixel decodes back to (c, o). */
  lemma TileCoordinate(c: nat, o: nat)
    requires o < PITCH
    ensures (o + c * PITCH) / PITCH == c && (o + c * PITCH) % PITCH == o
  {
  }

  /** The tiling loop has drawn thumbnail pixel (x, y) of grid cell (row, col)
      once it has passed the iteration (row, col, x, y) in its loop order. */
  predicate Drawn(px: nat, py: nat, row: nat, col: nat, x: nat, y: nat)
  {
    var pr, pc, xo, yo := py / PITCH, px / PITCH, py % PITCH, px % PITCH;
    ThumbAt(px, py).Sample? &&
    (pr < row || (pr == row && (pc < col || (pc == col && (xo < x || (xo == x && yo < y))))))
  }

  /** What the image holds while the tiling loop is at iteration (row, col, x, y). */
  ghost predicate TiledUpTo(thumb: array2<Pixel>, row: nat, col: nat, x: nat, y: nat)
    reads thumb
  {
    thumb.Length0 == IMAGE_SIZE && thumb.Length1 == IMAGE_SIZE &&
    forall px, py :: 0 <= px < IMAGE_SIZE && 0 <= py < IMAGE_SIZE ==>
      thumb[px, py] == if Drawn(px, py, row, col, x, y) then ThumbAt(px, py) else White
  }

  /** Builds the thumbnail image: paints it white, then draws every slice below
      113 into its grid cell, setColor(y + col * 42, x + row * 42) reading
      grey[row * 12 + col][x * 256 / 38][y * 256 / 38]. The image is indexed
      [column, row], as the pixel writer is. */
  method CreateThumbImage() returns (thumb: array2<Pixel>)
    ensures fresh(thumb)
    ensures thumb.Length0 == IMAGE_SIZE && thumb.Length1 == IMAGE_SIZE
    ensures forall px, py :: 0 <= px < IMAGE_SIZE && 0 <= py < IMAGE_SIZE ==>
              thumb[px, py] == ThumbAt(px, py)
  {
    thumb := new Pixel[IMAGE_SIZE, IMAGE_SIZE];
    // every pixel starts white
    for x := 0 to IMAGE_SIZE
      invariant forall px, py :: 0 <= px < x && 0 <= py < IMAGE_SIZE ==> thumb[px, py] == White
    {
      for y := 0 to IMAGE_SIZE
        invariant forall px, py :: 0 <= px < x && 0 <= py < IMAGE_SIZE ==> thumb[px, py] == White
        invariant forall py :: 0 <= py < y ==> thumb[x, py] == White
      {
        thumb[x, y] := White;
      }
    }
    // draw each thumbnail
    for row := 0 to GRID_ROWS
      invariant TiledUpTo(thumb, row, 0, 0, 0)
    {
      for col := 0 to GRID_COLS
        invariant TiledUpTo(thumb, row, col, 0, 0)
      {
        for x := 0 to THUMB_SIZE
          invariant TiledUpTo(thumb, row, col, x, 0)
        {
          for y := 0 to THUMB_SIZE
            invariant TiledUpTo(thumb, row, col, x, y)
          {
            var pictureNo := SliceAt(row, col);
            if pictureNo < Volume.SLICES {  // grid row 9 holds slices only up to column 4
              DrawPixel(thumb, row, col, x, y);
            } else {
              NothingDrawn(thumb, row, col, x, y);
            }
          }
        }
      }
    }
    forall px, py | 0 <= px < IMAGE_SIZE && 0 <= py < IMAGE_SIZE
      ensures thumb[px, py] == ThumbAt(px, py)
    {
      assert ThumbAt(px, py).Sample? ==> py / PITCH < GRID_ROWS;
    }
  }

  /** Passing iteration (row, col, x, y) of the tiling loop adds exactly the pixel
      that iteration writes, if its cell holds a slice, to the drawn ones. */
  lemma DrawnStep(px: nat, py: nat, row: nat, col: nat, x: nat, y: nat)
    requires row < GRID_ROWS && col < GRID_COLS && x < THUMB_SIZE && y < THUMB_SIZE
    ensures Drawn(px, py, row, col, x, y + 1) <==>
              Drawn(px, py, row, col, x, y) ||
              (px == y + col * PITCH && py == x + row * PITCH && SliceAt(row, col) < Volume.SLICES)
  {
    TileCoordinate(col, y);
    TileCoordinate(row, x);
  }

  /** The innermost tiling step for a cell that holds a slice: writes pixel
      (y + col * 42, x + row * 42) of the image. */
  method DrawPixel(thumb: array2<Pixel>, row: nat, col: nat, x: nat, y: nat)
    requires row < GRID_ROWS && col < GRID_COLS && x < THUMB_SIZE && y < THUMB_SIZE
    requires SliceAt(row, col) < Volume.SLICES
    requires TiledUpTo(thumb, row, col, x, y)
    modifies thumb
    ensures TiledUpTo(thumb, row, col, x, y + 1)
  {
    TilePlacement(row, col, x, y);
    thumb[y + col * PITCH, x + row * PITCH] := Sample(SliceAt(row, col), ThumbIndex(x), ThumbIndex(y));
    forall px, py | 0 <= px < IMAGE_SIZE && 0 <= py < IMAGE_SIZE
      ensures thumb[px, py] == if Drawn(px, py, row, col, x, y + 1) then ThumbAt(px, py) else White
    {
      DrawnStep(px, py, row, col, x, y);
    }
  }

  /** The innermost tiling step for a cell past the last slice draws nothing. */
  lemma NothingDrawn(thumb: array2<Pixel>, row: nat, col: nat, x: nat, y: nat)
    requires row < GRID_ROWS && col < GRID_COLS && x < THUMB_SIZE && y < THUMB_SIZE
    requires SliceAt(row, col) >= Volume.SLICES
    requires TiledUpTo(thumb, row, col, x, y)
    ensures TiledUpTo(thumb, row, col, x, y + 1)
  {
    forall px, py | 0 <= px < IMAGE_SIZE && 0 <= py < IMAGE_SIZE
      ensures Drawn(px, py, row, col, x, y + 1) == Drawn(px, py, row, col, x, y)
    {
      DrawnStep(px, py, row, col, x, y);
    }
  }

  /** Every pixel a thumbnail writes lies in the 500x500 image and shows the
      sample of its slice that the tiling loop reads for it. */
  lemma TilePlacement(row: nat, col: nat, x: nat, y: nat)
    requires row < GRID_ROWS && col < GRID_COLS && x < THUMB_SIZE && y < THUMB_SIZE
    requires SliceAt(row, col) < Volume.SLICES
    ensures y + col * PITCH < IMAGE_SIZE && x + row * PITCH < IMAGE_SIZE
    ensures ThumbAt(y + col * PITCH, x + row * PITCH) ==
              Sample(SliceAt(row, col), ThumbIndex(x), ThumbIndex(y))
    ensures ThumbIndex(x) < 256 && ThumbIndex(y) < 256
  {
    TileCoordinate(col, y);
    TileCoordinate(row, x);
  }

  /** Two different iterations of the tiling loop never write the same pixel,
      because a thumbnail (38) is narrower than the pitch (42). */
  lemma TilesDisjoint(row: nat, col: nat, x: nat, y: nat, row': nat, col': nat, x': nat, y': nat)
    requires x < THUMB_SIZE && y < THUMB_SIZE && x' < THUMB_SIZE && y' < THUMB_SIZE
    requires y + col * PITCH == y' + col' * PITCH && x + row * PITCH == x' + row' * PITCH
    ensures row == row' && col == col' && x == x' && y == y'
  {
    TileCoordinate(col, y);
    TileCoordinate(col', y');
    TileCoordinate(row, x);
    TileCoordinate(row', x');
  }

  /** The grid has room for 120 thumbnails but the volume has 113 slices, so the
      cells of the last row from column 5 on stay white, as do the gaps and the
      strip below the last row. */
  lemma UnusedAreaStaysWhite(px: nat, py: nat)
    requires px < IMAGE_SIZE && py < IMAGE_SIZE
    requires (py / PITCH == GRID_ROWS - 1 && px / PITCH >= 5) || py / PITCH >= GRID_ROWS
             || px % PITCH >= THUMB_SIZE || py % PITCH >= THUMB_SIZE
    ensures ThumbAt(px, py) == White
  {
  }

  /** The slice selected by hovering at (hoverX, hoverY) of the thumbnail image,
      if any: the hover must not lie in a gap (offset at most 38 within the
      42-pixel pitch, both ways) and its grid cell must hold a slice. */
  function Pick(hoverX: nat, hoverY: nat): (r: Option<nat>)
    requires hoverX < IMAGE_SIZE && hoverY < IMAGE_SIZE
    ensures r.Some? ==> r.value < Volume.SLICES
    ensures r.Some? ==> r.value / GRID_COLS == hoverY / PITCH && r.value % GRID_COLS == hoverX / PITCH
  {
    var selectedColumn, selectedRow := hoverX / PITCH, hoverY / PITCH;
    if hoverX % PITCH <= THUMB_SIZE && hoverY % PITCH <= THUMB_SIZE then
      var selectedPicture := SliceAt(selectedRow, selectedColumn);
      if selectedPicture < Volume.SLICES then Some(selectedPicture) else None
    else None
  }

  /** Hovering over any pixel of a thumbnail selects the slice it shows. */
  lemma PickSelectsShownSlice(px: nat, py: nat)
    requires px < IMAGE_SIZE && py < IMAGE_SIZE
    requires ThumbAt(px, py).Sample?
    ensures Pick(px, py) == Some(ThumbAt(px, py).slice)
  {
  }

  /** A hover that selects a slice is over a pixel of that slice's thumbnail, or
      on the first column or row of the gap next to it: `<= 38` admits offset 38,
      which the 38-pixel thumbnail (offsets 0 to 37) does not cover. */
  lemma PickedPixelIsShownOrGapEdge(px: nat, py: nat)
    requires px < IMAGE_SIZE && py < IMAGE_SIZE
    requires Pick(px, py).Some?
    ensures ThumbAt(px, py) == White <==> px % PITCH == THUMB_SIZE || py % PITCH == THUMB_SIZE
    ensures ThumbAt(px, py).Sample? ==> ThumbAt(px, py).slice == Pick(px, py).value
  {
  }

  /** Hover positions and what they select. */
  lemma PickExamples()
    ensures Pick(0, 0) == Some(0)
    ensures Pick(41, 0) == None
    ensures Pick(50, 0) == Some(1)
    ensures Pick(38, 0) == Some(0) && ThumbAt(38, 0) == White
    ensures Pick(4 * PITCH + 10, 9 * PITCH + 10) == Some(112)
    ensures Pick(5 * PITCH + 10, 9 * PITCH + 10) == None
  {
  }
}
