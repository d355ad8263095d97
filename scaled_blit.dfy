/**
  Drawing a decoded bitmap scaled and centred onto the 1-bit display.

  The display is a 2-D array of cells indexed [row, column]; its number of
  rows is the display height and its number of columns the display width.
  A source pixel v is drawn as an s-by-s block of cells of colour 1 - v,
  where s is the largest integer scale at which the image fits the drawing
  area (never less than 1), and the scaled image is centred in the area.
  Cells that fall off the display are not drawn.
 */
module ScaledBlit {
  import PyBuiltins
  import opened PbmParser
  import PbmProperties

  /** Python's a // b: the floor of a / b.  Dafny's / is Euclidean, which
      is the floor only for a positive divisor */
  function FloorDiv(a: int, b: int): (q: int)
    requires b != 0
    ensures b > 0 ==> b * q <= a < b * q + b
    ensures b < 0 ==> b * q >= a > b * q + b
  {
    if b > 0 then a / b else (-a) / (-b)
  }

  /** The rectangle of the display an image is fitted into */
  datatype Area = Area(top: int, width: int, height: int)

  /** The standard view: rows 27 to 175, the full display width */
  function StandardArea(displayWidth: int): (area: Area)
    ensures area.top == 27 && area.height == 148 && area.width == displayWidth
  {
    Area(27, displayWidth, 175 - 27)
  }

  /** The view of an emoji received from another badge: rows 80 to 170,
      the full display width */
  function ReceivedArea(displayWidth: int): (area: Area)
    ensures area.top == 80 && area.height == 90 && area.width == displayWidth
  {
    var top, bottom := 80, 170;
    Area(top, displayWidth, bottom - top)
  }

  /** Where the scaled image goes: the size of a pixel block and the cell
      of the image's top-left corner (either may lie off the display) */
  datatype Placement = Placement(scale: int, originX: int, originY: int)

  /** The scale: the smaller of the two whole ratios area / image, raised
      to 1 when it is below 1.  An image with a zero dimension has none
      (the division raises ZeroDivisionError) */
  function Scale(area: Area, width: int, height: int): (s: int)
    requires width != 0 && height != 0
    ensures s >= 1
  {
    var fit := Min(FloorDiv(area.width, width), FloorDiv(area.height, height));
    if fit < 1 then 1 else fit
  }

  function Min(a: int, b: int): int {
    if a <= b then a else b
  }

  /** Scale and centring of an image in an area */
  function Place(area: Area, width: int, height: int): (p: Placement)
    requires width != 0 && height != 0
    ensures p.scale >= 1
  {
    var s := Scale(area, width, height);
    Placement(s, FloorDiv(area.width - width * s, 2), area.top + FloorDiv(area.height - height * s, 2))
  }

  /** The index of the block a display row (or column) falls in */
  function Block(v: int, origin: int, scale: int): int
    requires scale > 0
  {
    FloorDiv(v - origin, scale)
  }

  /** Cell (r, c) lies in the block of a source pixel that the loops draw:
      the pixel is inside the width-by-height range the loops visit and
      the pixel data has it (missing rows and short rows are skipped) */
  predicate Shows(rows: seq<seq<int>>, width: int, height: int, p: Placement, r: int, c: int)
    requires p.scale > 0
  {
    var y, x := Block(r, p.originY, p.scale), Block(c, p.originX, p.scale);
    0 <= y < height && 0 <= x < width && y < |rows| && x < |rows[y]|
  }

  /** The colour the blit gives a shown cell: the inverse of its source pixel */
  function Ink(rows: seq<seq<int>>, width: int, height: int, p: Placement, r: int, c: int): int
    requires p.scale > 0 && Shows(rows, width, height, p, r, c)
  {
    var y, x := Block(r, p.originY, p.scale), Block(c, p.originX, p.scale);
    1 - rows[y][x]
  }

  /** The blocks tile the plane: a row lies in block y exactly when it is
      one of the `scale` rows starting at origin + y * scale */
  lemma BlockIff(v: int, origin: int, scale: int, y: int)
    requires scale > 0
    ensures Block(v, origin, scale) == y <==> origin + y * scale <= v < origin + y * scale + scale
  {
    var q := Block(v, origin, scale);
    if q < y {
      PyBuiltins.MulMonotone(q + 1, y, scale);
    } else if q > y {
      PyBuiltins.MulMonotone(y + 1, q, scale);
    }
  }

  /** Every cell of the block drawn for source pixel (x, y) that lies on
      the display ends with colour 1 - rows[y][x] */
  lemma BlockCell(rows: seq<seq<int>>, width: int, height: int, p: Placement, y: int, x: int, sy: int, sx: int)
    requires p.scale > 0
    requires 0 <= y < height && 0 <= x < width && y < |rows| && x < |rows[y]|
    requires 0 <= sy < p.scale && 0 <= sx < p.scale
    ensures var r, c := p.originY + y * p.scale + sy, p.originX + x * p.scale + sx;
      Shows(rows, width, height, p, r, c) && Ink(rows, width, height, p, r, c) == 1 - rows[y][x]
  {
    BlockIff(p.originY + y * p.scale + sy, p.originY, p.scale, y);
    BlockIff(p.originX + x * p.scale + sx, p.originX, p.scale, x);
  }

  /** Fills the s-by-s block whose top-left cell is (top, left), leaving
      out the cells that fall off the display */
  method FillBlock(canvas: array2<int>, top: int, left: int, s: nat, colour: int)
    modifies canvas
    ensures forall r, c :: 0 <= r < canvas.Length0 && 0 <= c < canvas.Length1 ==>
      canvas[r, c] == (if top <= r < top + s && left <= c < left + s then colour else old(canvas[r, c]))
  {
    for sy := 0 to s
      invariant forall r, c :: 0 <= r < canvas.Length0 && 0 <= c < canvas.Length1 ==>
        canvas[r, c] == (if top <= r < top + sy && left <= c < left + s then colour else old(canvas[r, c]))
    {
      for sx := 0 to s
        invariant forall r, c :: 0 <= r < canvas.Length0 && 0 <= c < canvas.Length1 ==>
          canvas[r, c] == (if (top <= r < top + sy && left <= c < left + s) || (r == top + sy && left <= c < left + sx)
                           then colour else old(canvas[r, c]))
      {
        var drawX, drawY := left + sx, top + sy;
        if 0 <= drawX < canvas.Length1 && 0 <= drawY < canvas.Length0 {
          canvas[drawY, drawX] := colour;
        }
      }
    }
  }

  /** Source pixel (blockX, blockY) comes before (x, y) in the loops' order */
  predicate Before(blockY: int, blockX: int, y: int, x: int) {
    blockY < y || (blockY == y && blockX < x)
  }

  /** The loops of the blit: for every source pixel the data has, its
      block gets the inverse colour; every other cell keeps its colour */
  method DrawScaled(canvas: array2<int>, rows: seq<seq<int>>, width: int, height: int, p: Placement)
    requires p.scale >= 1
    modifies canvas
    ensures forall r, c :: 0 <= r < canvas.Length0 && 0 <= c < canvas.Length1 ==>
      canvas[r, c] == (if Shows(rows, width, height, p, r, c) then Ink(rows, width, height, p, r, c)
                       else old(canvas[r, c]))
  {
    var s := p.scale;
    var h := if height > 0 then height else 0;
    var w := if width > 0 then width else 0;
    for y := 0 to h
      invariant forall r, c :: 0 <= r < canvas.Length0 && 0 <= c < canvas.Length1 ==>
        canvas[r, c] == (if Shows(rows, width, height, p, r, c) && Block(r, p.originY, s) < y
                         then Ink(rows, width, height, p, r, c) else old(canvas[r, c]))
    {
      for x := 0 to w
        invariant forall r, c :: 0 <= r < canvas.Length0 && 0 <= c < canvas.Length1 ==>
          canvas[r, c] == (if Shows(rows, width, height, p, r, c) &&
                              Before(Block(r, p.originY, s), Block(c, p.originX, s), y, x)
                           then Ink(rows, width, height, p, r, c) else old(canvas[r, c]))
      {
        if y < |rows| && x < |rows[y]| {
          FillBlock(canvas, p.originY + y * s, p.originX + x * s, s, 1 - rows[y][x]);
          forall r, c | 0 <= r < canvas.Length0 && 0 <= c < canvas.Length1
            ensures (p.originY + y * s <= r < p.originY + y * s + s && p.originX + x * s <= c < p.originX + x * s + s)
                    <==> (Block(r, p.originY, s) == y && Block(c, p.originX, s) == x)
          {
            BlockIff(r, p.originY, s, y);
            BlockIff(c, p.originX, s, x);
          }
        }
      }
    }
  }

  /** The scaled image has room in the area at scale k */
  predicate Fits(area: Area, width: int, height: int, k: int) {
    width * k <= area.width && height * k <= area.height
  }

  /** For an image with positive dimensions the scale is the largest whole
      scale at which the image fits the area; an image wider or taller
      than the area is drawn at scale 1 */
  lemma ScaleIsLargestFit(area: Area, width: int, height: int)
    requires width > 0 && height > 0
    ensures var s := Scale(area, width, height);
      && (width <= area.width && height <= area.height ==> Fits(area, width, height, s))
      && (forall k :: k > s ==> !Fits(area, width, height, k))
      && (!(width <= area.width && height <= area.height) ==> s == 1)
  {
    var s := Scale(area, width, height);
    var qw, qh := FloorDiv(area.width, width), FloorDiv(area.height, height);
    assert s == (if Min(qw, qh) < 1 then 1 else Min(qw, qh));
    if width <= area.width && height <= area.height {
      QuotientAtLeastOne(area.width, width, qw);
      QuotientAtLeastOne(area.height, height, qh);
      PyBuiltins.MulMonotone(s, qw, width);
      PyBuiltins.MulMonotone(s, qh, height);
    } else if width > area.width {
      QuotientBelowOne(area.width, width, qw);
    } else {
      QuotientBelowOne(area.height, height, qh);
    }
    forall k | k > s ensures !Fits(area, width, height, k) {
      if qw <= qh {
        Overflows(area.width, width, qw, k);
      } else {
        Overflows(area.height, height, qh, k);
      }
    }
  }

  /** An image side that fits gives a whole ratio of at least 1 */
  lemma QuotientAtLeastOne(a: int, b: int, q: int)
    requires 0 < b <= a && b * q <= a < b * q + b
    ensures q >= 1
  {
    if q <= 0 {
      PyBuiltins.MulMonotone(q, 0, b);
    }
  }

  /** An image side longer than the area gives a whole ratio below 1 */
  lemma QuotientBelowOne(a: int, b: int, q: int)
    requires 0 < b && a < b && b * q <= a < b * q + b
    ensures q < 1
  {
    if q >= 1 {
      PyBuiltins.MulMonotone(1, q, b);
    }
  }

  /** Beyond the whole ratio q = a // b, b times the scale exceeds a */
  lemma Overflows(a: int, b: int, q: int, k: int)
    requires b > 0 && a < b * q + b && k >= q + 1
    ensures b * k > a
  {
    PyBuiltins.MulMonotone(q + 1, k, b);
    assert (q + 1) * b == b * q + b;
  }

  /** The scaled image is centred: the margin on its right (below it) is
      the margin on its left (above it), or one cell more */
  lemma Centred(area: Area, width: int, height: int)
    requires width != 0 && height != 0
    ensures var p := Place(area, width, height);
      var left, right := p.originX, area.width - (p.originX + width * p.scale);
      var above, below := p.originY - area.top, (area.top + area.height) - (p.originY + height * p.scale);
      left <= right <= left + 1 && above <= below <= above + 1
  {
  }

  /** An image with positive dimensions that fits its area is drawn
      entirely inside the area: every cell of every pixel block lies in
      the area's rows and within the display width */
  lemma StaysInArea(area: Area, width: int, height: int, y: int, x: int, sy: int, sx: int)
    requires 0 < width <= area.width && 0 < height <= area.height
    requires 0 <= y < height && 0 <= x < width
    requires var s := Scale(area, width, height); 0 <= sy < s && 0 <= sx < s
    ensures var p := Place(area, width, height);
      var r, c := p.originY + y * p.scale + sy, p.originX + x * p.scale + sx;
      area.top <= r < area.top + area.height && 0 <= c < area.width
  {
    var p := Place(area, width, height);
    var s := p.scale;
    assert Fits(area, width, height, s) by {
      ScaleIsLargestFit(area, width, height);
    }
    Centred(area, width, height);
    assert 0 <= p.originX && area.top <= p.originY;
    var dy, dx := y * s + sy, x * s + sx;
    assert 0 <= dy < height * s by {
      PyBuiltins.MulMonotone(y + 1, height, s);
      PyBuiltins.MulMonotone(0, y, s);
      assert (y + 1) * s == y * s + s;
    }
    assert 0 <= dx < width * s by {
      PyBuiltins.MulMonotone(x + 1, width, s);
      PyBuiltins.MulMonotone(0, x, s);
      assert (x + 1) * s == x * s + s;
    }
  }

  /** The two places the blit is used: a chosen emoji fills rows 27 to 175
      and falls back to the test pattern; a received emoji fills rows 80
      to 170 and falls back to the text "Image error" */
  datatype View = Standard | Received

  function AreaOf(view: View, displayWidth: int): Area {
    match view
    case Standard => StandardArea(displayWidth)
    case Received => ReceivedArea(displayWidth)
  }

  /** What the blit shows besides the pixels it writes */
  datatype Drawing =
    | LoadError     // "Error loading" / "emoji image": the parser gave no image
    | Drawn         // the loops ran to the end
    | TestPattern   // an exception, standard view
    | ImageError    // an exception, received view

  function Fallback(view: View): (d: Drawing)
    ensures d == TestPattern || d == ImageError
  {
    match view
    case Standard => TestPattern
    case Received => ImageError
  }

  /** The width and height the parser reported */
  function Dims(d: Decoded): (int, int)
    requires !d.NoResult?
  {
    match d
    case Plain(img) => (img.width, img.height)
    case Raw(img) => (img.width, img.height)
  }

  /** A text-format image holds its pixels in one flat list, so the loops
      take len() of an int, and fail, at the first pixel they reach: this
      happens exactly when both dimensions are positive and the list is
      not empty */
  predicate FlatPixelsRaise(img: PlainImage) {
    img.width > 0 && img.height > 0 && |img.pixels| > 0
  }

  /** What the blit shows besides the cells it writes, for each parser result */
  function Outcome(decoded: Decoded, view: View): Drawing {
    match decoded
    case NoResult => LoadError
    case Plain(img) =>
      if img.width == 0 || img.height == 0 || FlatPixelsRaise(img) then Fallback(view) else Drawn
    case Raw(img) =>
      if img.width == 0 || img.height == 0 then Fallback(view) else Drawn
  }

  /** The colour of display cell (r, c) after the blit, given its colour
      before: only a binary-format image with nonzero dimensions writes
      anything, and it writes exactly the cells its loops reach */
  function AfterBlit(decoded: Decoded, view: View, displayWidth: int, r: int, c: int, before: int): int {
    if decoded.Raw? && decoded.raw.width != 0 && decoded.raw.height != 0 then
      var img := decoded.raw;
      var p := Place(AreaOf(view, displayWidth), img.width, img.height);
      if Shows(img.rows, img.width, img.height, p, r, c) then Ink(img.rows, img.width, img.height, p, r, c)
      else before
    else before
  }

  /** draw_emoji_from_pbm (the standard view) and
      draw_emoji_from_pbm_received (the received view), given the parser's
      result and the display */
  method DrawEmojiFromPbm(canvas: array2<int>, decoded: Decoded, view: View) returns (drawing: Drawing)
    modifies canvas
    ensures drawing == Outcome(decoded, view)
    ensures forall r, c :: 0 <= r < canvas.Length0 && 0 <= c < canvas.Length1 ==>
      canvas[r, c] == AfterBlit(decoded, view, canvas.Length1, r, c, old(canvas[r, c]))
  {
    if decoded.NoResult? {
      return LoadError;
    }
    var (width, height) := Dims(decoded);
    if width == 0 || height == 0 {
      // the scale's floor division raises ZeroDivisionError
      return Fallback(view);
    }
    var p := Place(AreaOf(view, canvas.Length1), width, height);
    match decoded {
      case Plain(img) =>
        if FlatPixelsRaise(img) {
          return Fallback(view);
        }
        // no row index is below len(pixel_data): nothing is drawn
        return Drawn;
      case Raw(img) =>
        DrawScaled(canvas, img.rows, width, height, p);
        return Drawn;
    }
  }

  /** A text-format image never reaches the display: with a zero
      dimension the scale fails, with positive dimensions its flat pixel
      list (at least width * height entries) fails at the first pixel, and
      otherwise the loops find no row to draw */
  lemma PlainImageFallsBack(lines: seq<string>, view: View, displayWidth: int, r: int, c: int, before: int)
    requires PlainPbm(lines).Ok?
    ensures var img := PlainPbm(lines).value;
      && (img.width > 0 && img.height > 0 ==> Outcome(Plain(img), view) == Fallback(view))
      && AfterBlit(Plain(img), view, displayWidth, r, c, before) == before
  {
    PbmProperties.PlainOutcome(lines);
    var clean := CleanLines(lines);
    var img := PlainPbm(lines).value;
    PbmProperties.PlainPadding(clean[2..], img.width, img.height);
    if img.width > 0 && img.height > 0 {
      PyBuiltins.MulMonotone(1, img.height, img.width);
    }
  }

  /** A binary-format image that fits its area is drawn whole: every cell
      of the block of every pixel the data has lies on the display, inside
      the area, and takes the inverse of that pixel */
  lemma WholeImageDrawn(img: RawImage, view: View, displayWidth: int, displayHeight: int,
                        y: int, x: int, sy: int, sx: int, before: int)
    requires var area := AreaOf(view, displayWidth);
      0 < img.width <= area.width && 0 < img.height <= area.height && area.top + area.height <= displayHeight
    requires 0 <= y < img.height && 0 <= x < img.width && y < |img.rows| && x < |img.rows[y]|
    requires var s := Scale(AreaOf(view, displayWidth), img.width, img.height); 0 <= sy < s && 0 <= sx < s
    ensures var area := AreaOf(view, displayWidth);
      var p := Place(area, img.width, img.height);
      var r, c := p.originY + y * p.scale + sy, p.originX + x * p.scale + sx;
      && area.top <= r < area.top + area.height && 0 <= c < displayWidth && r < displayHeight
      && AfterBlit(Raw(img), view, displayWidth, r, c, before) == 1 - img.rows[y][x]
  {
    var area := AreaOf(view, displayWidth);
    StaysInArea(area, img.width, img.height, y, x, sy, sx);
    BlockCell(img.rows, img.width, img.height, Place(area, img.width, img.height), y, x, sy, sx);
  }
}
