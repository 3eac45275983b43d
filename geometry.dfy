/** Image geometry of the prefilter (oceanprefilter/utils.go): integer
    rectangles with the semantics of Go's image.Rectangle, the edge scan that
    reads the horizon off a binary mask, and the tiling of the region below
    the horizon into a row-major grid that skips an excluded zone. */
module Geometry {
  import opened Wrappers

  datatype Point = Point(x: int, y: int)

  /** An image.Rectangle: min is inclusive, max is exclusive. */
  datatype Rect = Rect(min: Point, max: Point)

  /** image.Rectangle.Empty: no pixel lies inside. */
  predicate Empty(r: Rect) {
    r.min.x >= r.max.x || r.min.y >= r.max.y
  }

  /** image.Rectangle.Overlaps: both non-empty and a non-empty intersection
      (strict inequalities, because max is exclusive). */
  predicate Overlaps(r: Rect, s: Rect) {
    && !Empty(r) && !Empty(s)
    && r.min.x < s.max.x && s.min.x < r.max.x
    && r.min.y < s.max.y && s.min.y < r.max.y
  }

  /** Pixel p lies inside r. */
  predicate Contains(r: Rect, p: Point) {
    r.min.x <= p.x < r.max.x && r.min.y <= p.y < r.max.y
  }

  /** Two rectangles overlap exactly when some pixel lies in both. */
  lemma OverlapsIffSharedPixel(r: Rect, s: Rect)
    ensures Overlaps(r, s) <==> exists p :: Contains(r, p) && Contains(s, p)
  {
    if Overlaps(r, s) {
      var p := Point(if r.min.x >= s.min.x then r.min.x else s.min.x,
                     if r.min.y >= s.min.y then r.min.y else s.min.y);
      assert Contains(r, p) && Contains(s, p);
    }
  }

  /** Bounds().Dx() and Bounds().Dy(): the number of columns and rows, none
      for a rectangle given in decreasing order. */
  function Dx(r: Rect): nat {
    if r.max.x > r.min.x then r.max.x - r.min.x else 0
  }

  function Dy(r: Rect): nat {
    if r.max.y > r.min.y then r.max.y - r.min.y else 0
  }

  /** A rectangle that does not reach back to the origin of its own extent:
      the points (x, y) with 0 <= x < Dx and 0 <= y < Dy all lie outside it. */
  predicate OffOrigin(r: Rect) {
    r.min.x >= Dx(r) || r.min.y >= Dy(r)
  }

  /** image.Rect(x0, y0, x1, y1), which swaps the coordinates of each axis
      when they are given in decreasing order. */
  function MakeRect(x0: int, y0: int, x1: int, y1: int): (r: Rect)
    ensures r.min.x <= r.max.x && r.min.y <= r.max.y
    ensures x0 <= x1 ==> r.min.x == x0 && r.max.x == x1
    ensures x0 > x1 ==> r.min.x == x1 && r.max.x == x0
    ensures y0 <= y1 ==> r.min.y == y0 && r.max.y == y1
    ensures y0 > y1 ==> r.min.y == y1 && r.max.y == y0
  {
    var lx := if x0 > x1 then x1 else x0;
    var hx := if x0 > x1 then x0 else x1;
    var ly := if y0 > y1 then y1 else y0;
    var hy := if y0 > y1 then y0 else y1;
    Rect(Point(lx, ly), Point(hx, hy))
  }

  // ---------------------------------------------------------------------------
  // Horizon: the edge scan of findHorizonLine over the morphologically closed
  // binary mask (the blur, Otsu threshold and closing are done by OpenCV and
  // are an input here).
  // ---------------------------------------------------------------------------

  /** The mask value that marks foreground after Otsu thresholding. */
  const Foreground := 255

  /** The mask has one row per image row, each `width` columns wide. */
  predicate IsMask(mask: seq<seq<int>>, width: int) {
    forall y :: 0 <= y < |mask| ==> |mask[y]| == width
  }

  /** The lowest row whose value in column `col` is foreground, or 0 when the
      column holds no foreground at all. */
  function LastForeground(mask: seq<seq<int>>, col: int): (r: int)
    requires 0 <= col
    requires forall y :: 0 <= y < |mask| ==> col < |mask[y]|
    ensures 0 <= r && (|mask| > 0 ==> r < |mask|) && (|mask| == 0 ==> r == 0)
    ensures forall y :: r < y < |mask| ==> mask[y][col] != Foreground
    ensures (exists y :: 0 <= y < |mask| && mask[y][col] == Foreground) ==> mask[r][col] == Foreground
    ensures (forall y :: 0 <= y < |mask| ==> mask[y][col] != Foreground) ==> r == 0
    decreases |mask|
  {
    if |mask| == 0 then 0
    else if mask[|mask| - 1][col] == Foreground then |mask| - 1
    else LastForeground(mask[..|mask| - 1], col)
  }

  /** The scan loop of findHorizonLine: walks the rows top to bottom and
      remembers, for the leftmost and the rightmost column, the last row that
      is foreground. Always yields exactly two points. */
  method FindHorizonLine(mask: seq<seq<int>>, width: int) returns (points: seq<Point>)
    requires width >= 1 && IsMask(mask, width)
    ensures |points| == 2
    ensures points[0] == Point(0, LastForeground(mask, 0))
    ensures points[1] == Point(width - 1, LastForeground(mask, width - 1))
  {
    var horizonX1, horizonX2 := 0, width - 1;
    var horizonY1, horizonY2 := 0, 0;
    for y := 0 to |mask|
      invariant horizonY1 == LastForeground(mask[..y], horizonX1)
      invariant horizonY2 == LastForeground(mask[..y], horizonX2)
    {
      assert mask[..y + 1][..y] == mask[..y];
      if mask[y][horizonX1] == Foreground {
        horizonY1 := y;
      }
      if mask[y][horizonX2] == Foreground {
        horizonY2 := y;
      }
    }
    assert mask[..|mask|] == mask;
    points := [Point(horizonX1, horizonY1), Point(horizonX2, horizonY2)];
  }

  // ---------------------------------------------------------------------------
  // Tiling: splitUpImageConst, rectangles only (pixel copying and resampling
  // are left to the caller).
  // ---------------------------------------------------------------------------

  /** The bounds of a frame whose top-left corner is the origin. */
  datatype Size = Size(width: nat, height: nat)

  /** One emitted tile: its rectangle in the cropped image and whether it
      was clamped at an edge, and so is resized to the canonical w x h. */
  datatype Tile = Tile(bounds: Rect, resized: bool)

  datatype SplitError =
    | NilImage
    | NonPositiveHeight(h: int)
    | NonPositiveWidth(w: int)
    | CropOutsideImage(yValue: int)

  /** math.Ceil(a / b) for a non-negative a and a positive b. */
  function CeilDiv(a: nat, b: int): nat
    requires b > 0
  {
    (a + b - 1) / b
  }

  lemma BelowCeilDiv(j: int, a: nat, b: int)
    requires b > 0 && 0 <= j < CeilDiv(a, b)
    ensures j * b <= a - 1
  {
    var q := (a + b - 1) / b;
    assert a + b - 1 == q * b + (a + b - 1) % b;
    MulLeft(j + 1, q, b);
    assert (j + 1) * b == j * b + b;
  }

  /** The excluded zone moved into the coordinates of the image cropped at
      row yValue: the y coordinates move up by yValue, x is unchanged. */
  function Translate(zone: Rect, yValue: int): (box: Rect)
    ensures Dx(box) == Dx(zone) && Dy(box) == Dy(zone)
  {
    Rect(Point(zone.min.x, zone.min.y - yValue), Point(zone.max.x, zone.max.y - yValue))
  }

  /** The translated zone of the cropped image, when there is one. */
  function ExcludedBox(exZone: Option<Rect>, yValue: int): (box: Option<Rect>)
    ensures box.Some? <==> exZone.Some?
  {
    if exZone.Some? then Some(Translate(exZone.value, yValue)) else None
  }

  /** The excluded box covers exactly the pixels of the configured zone,
      moved up by the crop line into the cropped image's coordinates. */
  lemma ExcludedBoxCoversZone(exZone: Option<Rect>, yValue: int, p: Point)
    requires exZone.Some?
    ensures Contains(ExcludedBox(exZone, yValue).value, p) <==> Contains(exZone.value, Point(p.x, p.y + yValue))
  {
  }

  /** The tile whose top-left corner is (x0, y0) in a cropped image of
      edgeX x edgeY pixels: nominal bounds [x0, x0+w) x [y0, y0+h), where an
      end that reaches the edge is pulled back to edge - 1. */
  function TileFrom(x0: int, y0: int, h: int, w: int, edgeX: int, edgeY: int): Tile {
    var clampX := x0 + w >= edgeX;
    var clampY := y0 + h >= edgeY;
    var xEnd := if clampX then edgeX - 1 else x0 + w;
    var yEnd := if clampY then edgeY - 1 else y0 + h;
    Tile(MakeRect(x0, y0, xEnd, yEnd), clampX || clampY)
  }

  /** Tile (i, j) of the grid: the tile at (j*w, i*h). */
  function TileAt(i: int, j: int, h: int, w: int, edgeX: int, edgeY: int): Tile {
    TileFrom(j * w, i * h, h, w, edgeX, edgeY)
  }

  /** The first n tiles of row i of the grid, left to right. */
  function GridRow(i: int, n: nat, h: int, w: int, edgeX: int, edgeY: int): (row: seq<Tile>)
    ensures |row| == n
  {
    if n == 0 then [] else GridRow(i, n - 1, h, w, edgeX, edgeY) + [TileAt(i, n - 1, h, w, edgeX, edgeY)]
  }

  /** The first nv rows of the grid, concatenated in row-major order. */
  function Grid(nv: nat, nh: nat, h: int, w: int, edgeX: int, edgeY: int): seq<Tile> {
    if nv == 0 then [] else Grid(nv - 1, nh, h, w, edgeX, edgeY) + GridRow(nv - 1, nh, h, w, edgeX, edgeY)
  }

  /** A tile survives unless there is an excluded box and it overlaps it. */
  predicate Admitted(t: Tile, box: Option<Rect>) {
    box.None? || !Overlaps(t.bounds, box.value)
  }

  /** The admitted tiles, in their original order. */
  function Kept(tiles: seq<Tile>, box: Option<Rect>): seq<Tile> {
    if |tiles| == 0 then []
    else
      var last := tiles[|tiles| - 1];
      Kept(tiles[..|tiles| - 1], box) + (if Admitted(last, box) then [last] else [])
  }

  /** The full grid visited by splitUpImageConst for an image cropped at
      yValue: ceil(croppedHeight / h) rows of ceil(width / w) tiles. */
  function SplitGrid(img: Size, yValue: int, h: int, w: int): seq<Tile>
    requires h > 0 && w > 0 && yValue < img.height
  {
    var croppedHeight := img.height - yValue;
    Grid(CeilDiv(croppedHeight, h), CeilDiv(img.width, w), h, w, img.width, croppedHeight)
  }

  /** What splitUpImageConst returns, stated as a grid filtered by the
      excluded box. */
  function SplitPlan(img: Option<Size>, exZone: Option<Rect>, yValue: int, h: int, w: int): Result<seq<Tile>, SplitError> {
    if img.None? then Err(NilImage)
    else if h <= 0 then Err(NonPositiveHeight(h))
    else if w <= 0 then Err(NonPositiveWidth(w))
    else if img.value.height - yValue <= 0 then Err(CropOutsideImage(yValue))
    else
      Ok(Kept(SplitGrid(img.value, yValue, h, w), ExcludedBox(exZone, yValue)))
  }

  /** The body of splitUpImageConst's inner loop before the overlap test:
      tile (i, j), with an end that reaches the edge pulled back to edge - 1
      and the tile flagged for resizing. */
  method Band(i: nat, j: nat, h: int, w: int, edgeX: int, edgeY: int) returns (bandRect: Rect, flag: bool)
    ensures Tile(bandRect, flag) == TileAt(i, j, h, w, edgeX, edgeY)
  {
    flag := false;
    var xEnd: int := (j + 1) * w;
    var yEnd: int := (i + 1) * h;
    if xEnd >= edgeX {
      xEnd := edgeX - 1;
      flag := true;
    }
    if yEnd >= edgeY {
      yEnd := edgeY - 1;
      flag := true;
    }
    bandRect := MakeRect(j * w, i * h, xEnd, yEnd);
  }

  /** One pass of splitUpImageConst's inner loop: row i of the grid, left
      to right, collecting every tile that does not overlap the excluded
      box (the caller appends them to its `images`). An end that reaches
      the edge is pulled back to edge - 1 and the tile is flagged for
      resizing. */
  method SplitRow(i: nat, nh: nat, h: int, w: int, edgeX: int, edgeY: int, box: Option<Rect>)
    returns (kept: seq<Tile>)
    ensures kept == Kept(GridRow(i, nh, h, w, edgeX, edgeY), box)
  {
    kept := [];
    for j := 0 to nh
      invariant kept == Kept(GridRow(i, j, h, w, edgeX, edgeY), box)
    {
      var bandRect, flag := Band(i, j, h, w, edgeX, edgeY);
      RowStep(i, j, h, w, edgeX, edgeY, box, Tile(bandRect, flag));
      if box.Some? && Overlaps(bandRect, box.value) {
        continue;
      }
      kept := kept + [Tile(bandRect, flag)];
    }
  }

  /** splitUpImageConst: checks its arguments, moves the excluded zone into
      the cropped image's coordinates, then visits the grid row by row and
      emits every tile that does not overlap the zone. */
  method SplitUpImageConst(img: Option<Size>, exZone: Option<Rect>, yValue: int, h: int, w: int)
    returns (r: Result<seq<Tile>, SplitError>)
    ensures r == SplitPlan(img, exZone, yValue, h, w)
  {
    if img.None? {
      return Err(NilImage);
    }
    if h <= 0 {
      return Err(NonPositiveHeight(h));
    }
    if w <= 0 {
      return Err(NonPositiveWidth(w));
    }
    var croppedHeight := img.value.height - yValue;
    if croppedHeight <= 0 {
      return Err(CropOutsideImage(yValue));
    }
    var excludedBox := Rect(Point(0, 0), Point(0, 0));
    if exZone.Some? {
      excludedBox := excludedBox.(min := Point(exZone.value.min.x, exZone.value.min.y - yValue));
      excludedBox := excludedBox.(max := Point(exZone.value.max.x, exZone.value.max.y - yValue));
    }
    var box := if exZone.Some? then Some(excludedBox) else None;
    assert box == ExcludedBox(exZone, yValue);
    var edgeX, edgeY := img.value.width, croppedHeight;
    var nv := CeilDiv(croppedHeight, h);
    var nh := CeilDiv(edgeX, w);
    var images: seq<Tile> := [];
    for i := 0 to nv
      invariant images == Kept(Grid(i, nh, h, w, edgeX, edgeY), box)
    {
      KeptAppend(Grid(i, nh, h, w, edgeX, edgeY), GridRow(i, nh, h, w, edgeX, edgeY), box);
      var kept := SplitRow(i, nh, h, w, edgeX, edgeY, box);
      images := images + kept;
    }
    r := Ok(images);
  }

  // ---------------------------------------------------------------------------
  // Properties of the tiling
  // ---------------------------------------------------------------------------

  lemma KeptSnoc(tiles: seq<Tile>, t: Tile, box: Option<Rect>)
    ensures Kept(tiles + [t], box) == Kept(tiles, box) + (if Admitted(t, box) then [t] else [])
  {
    assert (tiles + [t])[..|tiles|] == tiles;
  }

  /** One step of the inner loop: tile (i, j) is appended to the kept part
      of row i exactly when it is admitted. */
  lemma RowStep(i: nat, j: nat, h: int, w: int, edgeX: int, edgeY: int, box: Option<Rect>, t: Tile)
    requires t == TileAt(i, j, h, w, edgeX, edgeY)
    ensures Kept(GridRow(i, j + 1, h, w, edgeX, edgeY), box)
         == Kept(GridRow(i, j, h, w, edgeX, edgeY), box) + (if Admitted(t, box) then [t] else [])
  {
    KeptSnoc(GridRow(i, j, h, w, edgeX, edgeY), t, box);
  }

  lemma {:induction false} KeptAppend(a: seq<Tile>, b: seq<Tile>, box: Option<Rect>)
    ensures Kept(a + b, box) == Kept(a, box) + Kept(b, box)
    decreases |b|
  {
    if |b| > 0 {
      var n := |b| - 1;
      KeptAppend(a, b[..n], box);
      assert (a + b)[..|a| + n] == a + b[..n];
      assert (a + b)[|a| + n] == b[n];
    } else {
      assert a + b == a;
    }
  }

  /** Every kept tile is admitted, and every admitted tile is kept. */
  lemma {:induction false} KeptAdmitted(tiles: seq<Tile>, box: Option<Rect>)
    ensures forall t :: t in Kept(tiles, box) <==> t in tiles && Admitted(t, box)
    decreases |tiles|
  {
    if |tiles| > 0 {
      var init := tiles[..|tiles| - 1];
      KeptAdmitted(init, box);
      assert tiles == init + [tiles[|tiles| - 1]];
    }
  }

  /** idx picks, in increasing order, the positions of b that make up a. */
  ghost predicate SubsequenceAt<T>(a: seq<T>, b: seq<T>, idx: seq<int>) {
    && |idx| == |a|
    && (forall k :: 0 <= k < |idx| ==> 0 <= idx[k] < |b| && a[k] == b[idx[k]])
    && (forall k, l :: 0 <= k < l < |idx| ==> idx[k] < idx[l])
  }

  /** Kept is an order-preserving subsequence of its input. */
  lemma {:induction false} KeptSubsequence(tiles: seq<Tile>, box: Option<Rect>) returns (idx: seq<int>)
    ensures SubsequenceAt(Kept(tiles, box), tiles, idx)
    decreases |tiles|
  {
    if |tiles| == 0 {
      idx := [];
    } else {
      var n := |tiles| - 1;
      var init := tiles[..n];
      var prev := KeptSubsequence(init, box);
      if Admitted(tiles[n], box) {
        idx := prev + [n];
      } else {
        idx := prev;
      }
    }
  }

  /** Without an excluded zone nothing is dropped. */
  lemma {:induction false} KeptAll(tiles: seq<Tile>)
    ensures Kept(tiles, None) == tiles
    decreases |tiles|
  {
    if |tiles| > 0 {
      KeptAll(tiles[..|tiles| - 1]);
    }
  }

  lemma {:induction false} GridLength(nv: nat, nh: nat, h: int, w: int, edgeX: int, edgeY: int)
    ensures |Grid(nv, nh, h, w, edgeX, edgeY)| == nv * nh
    decreases nv
  {
    if nv > 0 {
      GridLength(nv - 1, nh, h, w, edgeX, edgeY);
      assert (nv - 1) * nh + nh == nv * nh;
    }
  }

  lemma MulLeft(a: int, b: int, c: int)
    requires a <= b && c >= 0
    ensures a * c <= b * c
  {
    assert b * c - a * c == (b - a) * c;
  }

  /** Position j of a row holds tile (i, j). */
  lemma {:induction false} GridRowAt(i: int, n: nat, h: int, w: int, edgeX: int, edgeY: int, j: int)
    requires 0 <= j < n
    ensures GridRow(i, n, h, w, edgeX, edgeY)[j] == TileAt(i, j, h, w, edgeX, edgeY)
    decreases n
  {
    if j < n - 1 {
      GridRowAt(i, n - 1, h, w, edgeX, edgeY, j);
    }
  }

  /** The grid is row-major: position i*nh + j holds tile (i, j). */
  lemma {:induction false} GridRowMajor(nv: nat, nh: nat, h: int, w: int, edgeX: int, edgeY: int, i: int, j: int)
    requires 0 <= i < nv && 0 <= j < nh
    ensures i * nh + j < |Grid(nv, nh, h, w, edgeX, edgeY)|
    ensures Grid(nv, nh, h, w, edgeX, edgeY)[i * nh + j] == TileAt(i, j, h, w, edgeX, edgeY)
    decreases nv
  {
    GridLength(nv - 1, nh, h, w, edgeX, edgeY);
    GridLength(nv, nh, h, w, edgeX, edgeY);
    var prefix := Grid(nv - 1, nh, h, w, edgeX, edgeY);
    if i < nv - 1 {
      GridRowMajor(nv - 1, nh, h, w, edgeX, edgeY, i, j);
      assert i * nh + j < (nv - 1) * nh by {
        MulLeft(i + 1, nv - 1, nh);
        assert (i + 1) * nh == i * nh + nh;
      }
    } else {
      assert i * nh + j == |prefix| + j;
      GridRowAt(i, nh, h, w, edgeX, edgeY, j);
    }
  }

  /** The bounds of every tile of the grid: the nominal rectangle, with an
      end that reaches the edge pulled back to edge - 1 (so even an exact
      fit loses the last column or row) and then marked for resizing. No
      grid tile needs image.Rect's coordinate swap. */
  lemma TileGeometry(i: int, j: int, h: int, w: int, width: nat, croppedHeight: nat)
    requires h > 0 && w > 0
    requires 0 <= i < CeilDiv(croppedHeight, h) && 0 <= j < CeilDiv(width, w)
    ensures var t := TileAt(i, j, h, w, width, croppedHeight);
      && t.bounds.min == Point(j * w, i * h)
      && t.bounds.max.x == (if (j + 1) * w >= width then width - 1 else (j + 1) * w)
      && t.bounds.max.y == (if (i + 1) * h >= croppedHeight then croppedHeight - 1 else (i + 1) * h)
      && t.bounds.min.x <= t.bounds.max.x < width
      && t.bounds.min.y <= t.bounds.max.y < croppedHeight
      && (t.resized <==> (j + 1) * w >= width || (i + 1) * h >= croppedHeight)
  {
    BelowCeilDiv(j, width, w);
    BelowCeilDiv(i, croppedHeight, h);
    assert (j + 1) * w == j * w + w;
    assert (i + 1) * h == i * h + h;
  }

  /** Every tile of a grid row lies strictly left of the last column and
      strictly above the last row of the cropped image. */
  lemma {:induction false} RowInside(i: int, n: nat, h: int, w: int, width: nat, croppedHeight: nat)
    requires h > 0 && w > 0
    requires 0 <= i < CeilDiv(croppedHeight, h) && n <= CeilDiv(width, w)
    ensures forall t :: t in GridRow(i, n, h, w, width, croppedHeight) ==>
      t.bounds.max.x <= width - 1 && t.bounds.max.y <= croppedHeight - 1
    decreases n
  {
    if n > 0 {
      RowInside(i, n - 1, h, w, width, croppedHeight);
      TileGeometry(i, n - 1, h, w, width, croppedHeight);
    }
  }

  /** Every tile of the grid lies strictly left of the last column and
      strictly above the last row of the cropped image. */
  lemma {:induction false} GridInside(nv: nat, nh: nat, h: int, w: int, width: nat, croppedHeight: nat)
    requires h > 0 && w > 0
    requires nv <= CeilDiv(croppedHeight, h) && nh <= CeilDiv(width, w)
    ensures forall t :: t in Grid(nv, nh, h, w, width, croppedHeight) ==>
      t.bounds.max.x <= width - 1 && t.bounds.max.y <= croppedHeight - 1
    decreases nv
  {
    if nv > 0 {
      GridInside(nv - 1, nh, h, w, width, croppedHeight);
      RowInside(nv - 1, nh, h, w, width, croppedHeight);
    }
  }

  /** The shape of a successful split: the grid of nv x nh tiles filtered by
      the translated zone. Without an excluded zone it is the whole grid;
      with one it is an order-preserving subsequence of the grid that holds
      exactly the grid tiles not overlapping the translated zone. */
  lemma SplitShape(img: Size, exZone: Option<Rect>, yValue: int, h: int, w: int) returns (idx: seq<int>)
    requires h > 0 && w > 0 && yValue < img.height
    ensures SplitPlan(Some(img), exZone, yValue, h, w).Ok?
    ensures exZone.None? ==>
      SplitPlan(Some(img), exZone, yValue, h, w).value == SplitGrid(img, yValue, h, w)
    ensures SubsequenceAt(SplitPlan(Some(img), exZone, yValue, h, w).value, SplitGrid(img, yValue, h, w), idx)
    ensures forall t :: t in SplitPlan(Some(img), exZone, yValue, h, w).value <==>
      t in SplitGrid(img, yValue, h, w) && Admitted(t, ExcludedBox(exZone, yValue))
  {
    var grid := SplitGrid(img, yValue, h, w);
    var box := ExcludedBox(exZone, yValue);
    KeptAll(grid);
    KeptAdmitted(grid, box);
    idx := KeptSubsequence(grid, box);
  }

  /** Because ends are clamped to edge - 1, no emitted tile contains a pixel
      of the last column or of the last row of the cropped image. */
  lemma SplitMissesLastColumnAndRow(img: Size, exZone: Option<Rect>, yValue: int, h: int, w: int, p: Point)
    requires SplitPlan(Some(img), exZone, yValue, h, w).Ok?
    requires p.x == img.width - 1 || p.y == img.height - yValue - 1
    ensures forall t :: t in SplitPlan(Some(img), exZone, yValue, h, w).value ==> !Contains(t.bounds, p)
  {
    var croppedHeight := img.height - yValue;
    var grid := Grid(CeilDiv(croppedHeight, h), CeilDiv(img.width, w), h, w, img.width, croppedHeight);
    GridInside(CeilDiv(croppedHeight, h), CeilDiv(img.width, w), h, w, img.width, croppedHeight);
    KeptAdmitted(grid, ExcludedBox(exZone, yValue));
  }

  /** Every tile of the grid other than tile (0, 0) that is not resized
      starts at least one tile width or height away from the origin, so the
      points (x, y) with 0 <= x < Dx and 0 <= y < Dy all lie outside it. */
  lemma GridTileOffOrigin(i: nat, j: nat, h: int, w: int, edgeX: int, edgeY: int)
    requires h > 0 && w > 0 && (i > 0 || j > 0)
    requires !TileAt(i, j, h, w, edgeX, edgeY).resized
    ensures OffOrigin(TileAt(i, j, h, w, edgeX, edgeY).bounds)
  {
    var r := TileAt(i, j, h, w, edgeX, edgeY).bounds;
    assert (j + 1) * w == j * w + w && (i + 1) * h == i * h + h;
    assert Dx(r) == w && Dy(r) == h;
    if j > 0 {
      MulLeft(1, j, w);
    } else {
      MulLeft(1, i, h);
    }
  }

  /** Testing a tile against the translated zone is testing the same tile,
      moved back into full-frame coordinates, against the configured zone. */
  lemma TranslatePreservesOverlap(r: Rect, zone: Rect, yValue: int)
    ensures Overlaps(r, Translate(zone, yValue)) <==>
      Overlaps(Rect(Point(r.min.x, r.min.y + yValue), Point(r.max.x, r.max.y + yValue)), zone)
  {
  }
}
