/** `drawRect`: a filled interior painted first, then four independently
    clipped edges. */
module Rect {
  import opened JsNumbers
  import opened Constants
  import opened Framebuffer

  /** The clamped bounds drawRect computes before drawing. */
  datatype Clip = Clip(startX: int, startY: int, endX: int, endY: int)

  function RectClip(x: int, y: int, w: int, h: int): (c: Clip)
    ensures 0 <= c.startX && 0 <= c.startY
    ensures 0 <= c.endX <= WIDTH && 0 <= c.endY <= HEIGHT
    ensures c.startX <= c.endX ==> c.endX - c.startX == ClippedLength(x, x + w, WIDTH)
    ensures c.endX <= c.startX ==> ClippedLength(x, x + w, WIDTH) == 0
    ensures c.startY < c.endY ==> c.endY - c.startY == ClippedLength(y, y + h, HEIGHT)
  {
    var endX := if x + w < WIDTH then x + w else WIDTH;
    var endY := if y + h < HEIGHT then y + h else HEIGHT;
    Clip(if x < 0 then 0 else x, if y < 0 then 0 else y,
         if endX < 0 then 0 else endX, if endY < 0 then 0 else endY)
  }

  /** The number of rows the edge and fill loops visit. */
  function RowCount(c: Clip): nat
  {
    if c.startY < c.endY then c.endY - c.startY else 0
  }

  /** The cell lies inside the clipped rectangle. */
  predicate InFill(x: int, y: int, w: int, h: int, cx: int, cy: int)
  {
    var c := RectClip(x, y, w, h);
    c.startX <= cx < c.endX && c.startY <= cy < c.endY
  }

  /** The cell lies on one of the four edges drawRect strokes: an edge is drawn
      only when its own column or row is on screen, over the clipped extent of
      the other axis. */
  predicate OnEdge(x: int, y: int, w: int, h: int, cx: int, cy: int)
  {
    var c := RectClip(x, y, w, h);
    || (0 <= x < WIDTH && cx == x && c.startY <= cy < c.endY)
    || (0 < x + w <= WIDTH && cx == x + w - 1 && c.startY <= cy < c.endY)
    || (0 <= y < HEIGHT && cy == y && c.startX <= cx < c.endX)
    || (0 < y + h <= HEIGHT && cy == y + h - 1 && c.startX <= cx < c.endX)
  }

  /** `drawHLineFast` over the rows `yy` up to `endY`. */
  function Rows(fb: Fb, color: int, startX: int, yy: int, endY: int, endX: int): (r: Fb)
    requires Valid(fb)
    requires 0 <= startX && 0 <= endX <= WIDTH && 0 <= yy && endY <= HEIGHT
    ensures Valid(r)
    ensures forall cx, cy | OnScreen(cx, cy) ::
      At(r.pixels, cx, cy) == if yy <= cy < endY && startX <= cx < endX then ToUint16(color) else At(fb.pixels, cx, cy)
    ensures r.changed == fb.changed + (if yy < endY then (endY - yy) * (endX - startX) else 0)
    decreases endY - yy
  {
    if yy < endY then
      var r := Rows(DrawHLineFast(fb, color, startX, yy, endX), color, startX, yy + 1, endY, endX);
      assert (endY - yy) * (endX - startX) == (endY - (yy + 1)) * (endX - startX) + (endX - startX);
      r
    else fb
  }

  /** What the fill loop adds to the counter: `endX - startX` per row, which is
      negative when the clamped start lies right of the clamped end. */
  function FillDelta(x: int, y: int, w: int, h: int): int
  {
    var c := RectClip(x, y, w, h);
    RowCount(c) * (c.endX - c.startX)
  }

  /** What the four edges add to the counter. */
  function StrokeDelta(x: int, y: int, w: int, h: int): int
  {
    var c := RectClip(x, y, w, h);
    (if 0 <= x < WIDTH then RowCount(c) else 0)
    + (if 0 < x + w <= WIDTH then RowCount(c) else 0)
    + (if 0 <= y < HEIGHT then c.endX - c.startX else 0)
    + (if 0 < y + h <= HEIGHT then c.endX - c.startX else 0)
  }

  function Fill(fb: Fb, fill: int, x: int, y: int, w: int, h: int): (r: Fb)
    requires Valid(fb)
    ensures Valid(r)
    ensures forall cx, cy | OnScreen(cx, cy) ::
      At(r.pixels, cx, cy) == if InFill(x, y, w, h, cx, cy) then ToUint16(fill) else At(fb.pixels, cx, cy)
    ensures r.changed == fb.changed + FillDelta(x, y, w, h)
  {
    var c := RectClip(x, y, w, h);
    Rows(fb, fill, c.startX, c.startY, c.endY, c.endX)
  }

  /** The left and right edges: `drawPoint` down their columns. */
  function SideEdges(fb: Fb, stroke: int, x: int, y: int, w: int, h: int): (r: Fb)
    requires Valid(fb)
    ensures Valid(r)
    ensures forall cx, cy | OnScreen(cx, cy) ::
      At(r.pixels, cx, cy) ==
        if ((0 <= x < WIDTH && cx == x) || (0 < x + w <= WIDTH && cx == x + w - 1))
           && RectClip(x, y, w, h).startY <= cy < RectClip(x, y, w, h).endY
        then ToUint16(stroke) else At(fb.pixels, cx, cy)
    ensures r.changed == fb.changed
      + (if 0 <= x < WIDTH then RowCount(RectClip(x, y, w, h)) else 0)
      + (if 0 < x + w <= WIDTH then RowCount(RectClip(x, y, w, h)) else 0)
  {
    var c := RectClip(x, y, w, h);
    var left := if 0 <= x < WIDTH then Column(fb, stroke, x, c.startY, c.endY) else fb;
    if 0 < x + w <= WIDTH then Column(left, stroke, x + w - 1, c.startY, c.endY) else left
  }

  /** The top and bottom edges: unguarded runs over the clamped columns. */
  function TopBottomEdges(fb: Fb, stroke: int, x: int, y: int, w: int, h: int): (r: Fb)
    requires Valid(fb)
    ensures Valid(r)
    ensures forall cx, cy | OnScreen(cx, cy) ::
      At(r.pixels, cx, cy) ==
        if ((0 <= y < HEIGHT && cy == y) || (0 < y + h <= HEIGHT && cy == y + h - 1))
           && RectClip(x, y, w, h).startX <= cx < RectClip(x, y, w, h).endX
        then ToUint16(stroke) else At(fb.pixels, cx, cy)
    ensures r.changed == fb.changed
      + (if 0 <= y < HEIGHT then RectClip(x, y, w, h).endX - RectClip(x, y, w, h).startX else 0)
      + (if 0 < y + h <= HEIGHT then RectClip(x, y, w, h).endX - RectClip(x, y, w, h).startX else 0)
  {
    var c := RectClip(x, y, w, h);
    var top := if 0 <= y < HEIGHT then DrawHLineFast(fb, stroke, c.startX, y, c.endX) else fb;
    if 0 < y + h <= HEIGHT then DrawHLineFast(top, stroke, c.startX, y + h - 1, c.endX) else top
  }

  function Stroke(fb: Fb, stroke: int, x: int, y: int, w: int, h: int): (r: Fb)
    requires Valid(fb)
    ensures Valid(r)
    ensures forall cx, cy | OnScreen(cx, cy) ::
      At(r.pixels, cx, cy) == if OnEdge(x, y, w, h, cx, cy) then ToUint16(stroke) else At(fb.pixels, cx, cy)
    ensures r.changed == fb.changed + StrokeDelta(x, y, w, h)
  {
    TopBottomEdges(SideEdges(fb, stroke, x, y, w, h), stroke, x, y, w, h)
  }

  /** drawRect: the stroke wins over the fill on the cells both cover, because
      the fill is painted first. */
  function DrawRect(fb: Fb, stroke: int, fill: int, x: int, y: int, w: int, h: int): (r: Fb)
    requires Valid(fb)
    ensures Valid(r)
    ensures stroke == OPTIONAL_COLOR_NONE && fill == OPTIONAL_COLOR_NONE ==> r == fb
    ensures forall cx, cy | OnScreen(cx, cy) ::
      At(r.pixels, cx, cy) ==
        if stroke != OPTIONAL_COLOR_NONE && OnEdge(x, y, w, h, cx, cy) then ToUint16(stroke)
        else if fill != OPTIONAL_COLOR_NONE && InFill(x, y, w, h, cx, cy) then ToUint16(fill)
        else At(fb.pixels, cx, cy)
    ensures r.changed == fb.changed
      + (if fill != OPTIONAL_COLOR_NONE then FillDelta(x, y, w, h) else 0)
      + (if stroke != OPTIONAL_COLOR_NONE then StrokeDelta(x, y, w, h) else 0)
  {
    if stroke == OPTIONAL_COLOR_NONE && fill == OPTIONAL_COLOR_NONE then fb
    else
      var filled := if fill != OPTIONAL_COLOR_NONE then Fill(fb, fill, x, y, w, h) else fb;
      if stroke != OPTIONAL_COLOR_NONE then Stroke(filled, stroke, x, y, w, h) else filled
  }

  /** A rectangle at least one cell wide and high only changes cells of its
      clipped extent. */
  lemma DrawRectStaysInside(fb: Fb, stroke: int, fill: int, x: int, y: int, w: int, h: int)
    requires Valid(fb) && w >= 1 && h >= 1
    ensures var r := DrawRect(fb, stroke, fill, x, y, w, h);
      forall cx, cy | OnScreen(cx, cy) && !InFill(x, y, w, h, cx, cy) :: At(r.pixels, cx, cy) == At(fb.pixels, cx, cy)
  {
  }

  /** A filled 10x10 square at (-5, -5) paints exactly the visible 5x5 corner
      and counts 25 cells. */
  lemma DrawRectCorner(fb: Fb, fill: int)
    requires Valid(fb) && fill != OPTIONAL_COLOR_NONE
    ensures var r := DrawRect(fb, OPTIONAL_COLOR_NONE, fill, -5, -5, 10, 10);
      && r.changed == fb.changed + 25
      && forall cx, cy | OnScreen(cx, cy) ::
           At(r.pixels, cx, cy) == if cx < 5 && cy < 5 then ToUint16(fill) else At(fb.pixels, cx, cy)
  {
  }

  /** A fill-only rectangle starting right of the screen, or with negative
      width, paints nothing, yet the counter moves by the negative span on
      every visited row. */
  lemma DrawRectFillOffscreen(fb: Fb, fill: int, x: int, y: int, w: int, h: int)
    requires Valid(fb) && (x >= WIDTH || w < 0)
    ensures var r := DrawRect(fb, OPTIONAL_COLOR_NONE, fill, x, y, w, h);
      && r.pixels == fb.pixels
      && r.changed <= fb.changed
  {
    if fill != OPTIONAL_COLOR_NONE {
      var r := Fill(fb, fill, x, y, w, h);
      var c := RectClip(x, y, w, h);
      assert c.endX <= c.startX;
      forall cx, cy | OnScreen(cx, cy)
        ensures At(r.pixels, cx, cy) == At(fb.pixels, cx, cy)
      {
        assert !InFill(x, y, w, h, cx, cy);
      }
      PixelsExtensional(r.pixels, fb.pixels);
      NonPositiveProduct(RowCount(c), c.endX - c.startX);
    }
  }

  lemma NonPositiveProduct(a: nat, b: int)
    requires b <= 0
    ensures a * b <= 0
  {
  }

  /** A zero-width rectangle still strokes its left edge (column x) and its
      right edge (column x - 1), cells outside its empty clipped extent. */
  lemma DrawRectZeroWidthStrokes(fb: Fb, stroke: int)
    requires Valid(fb) && stroke != OPTIONAL_COLOR_NONE
    ensures var r := DrawRect(fb, stroke, OPTIONAL_COLOR_NONE, 10, 10, 0, 5);
      && At(r.pixels, 10, 12) == ToUint16(stroke)
      && At(r.pixels, 9, 12) == ToUint16(stroke)
      && !InFill(10, 10, 0, 5, 10, 12)
      && r.changed == fb.changed + 10
  {
  }

  /** A fill-only rectangle wholly right of the screen subtracts from the
      pixel-write counter: 10 rows of span 160 - 200. */
  lemma DrawRectCounterDecreases(fb: Fb)
    requires Valid(fb)
    ensures var r := DrawRect(fb, OPTIONAL_COLOR_NONE, 0x1234, 200, 0, 10, 10);
      r.pixels == fb.pixels && r.changed == fb.changed - 400
  {
    DrawRectFillOffscreen(fb, 0x1234, 200, 0, 10, 10);
  }

  /** drawRect with its fill rows and its top and bottom edges guarded by
      `startX < endX`, as drawHLineUnclipped guards its run: it paints the
      same cells, and the counter moves by the cells written, never backwards. */
  function DrawRectGuarded(fb: Fb, stroke: int, fill: int, x: int, y: int, w: int, h: int): (r: Fb)
    requires Valid(fb)
    ensures Valid(r)
    ensures stroke == OPTIONAL_COLOR_NONE && fill == OPTIONAL_COLOR_NONE ==> r == fb
    ensures forall cx, cy | OnScreen(cx, cy) ::
      At(r.pixels, cx, cy) ==
        if stroke != OPTIONAL_COLOR_NONE && OnEdge(x, y, w, h, cx, cy) then ToUint16(stroke)
        else if fill != OPTIONAL_COLOR_NONE && InFill(x, y, w, h, cx, cy) then ToUint16(fill)
        else At(fb.pixels, cx, cy)
    ensures r.changed == fb.changed
      + (if fill != OPTIONAL_COLOR_NONE then GuardedFillDelta(x, y, w, h) else 0)
      + (if stroke != OPTIONAL_COLOR_NONE then GuardedStrokeDelta(x, y, w, h) else 0)
    ensures r.changed >= fb.changed
  {
    if stroke == OPTIONAL_COLOR_NONE && fill == OPTIONAL_COLOR_NONE then fb
    else
      var filled := if fill != OPTIONAL_COLOR_NONE then GuardedFill(fb, fill, x, y, w, h) else fb;
      if stroke != OPTIONAL_COLOR_NONE then GuardedStroke(filled, stroke, x, y, w, h) else filled
  }

  /** The cells of the clipped rectangle, none when its span is reversed. */
  function GuardedFillDelta(x: int, y: int, w: int, h: int): nat
  {
    RowCount(RectClip(x, y, w, h)) * ClippedLength(x, x + w, WIDTH)
  }

  /** The cells of the four visible edges, counted per edge. */
  function GuardedStrokeDelta(x: int, y: int, w: int, h: int): nat
  {
    var rows := RowCount(RectClip(x, y, w, h));
    var span := ClippedLength(x, x + w, WIDTH);
    (if 0 <= x < WIDTH then rows else 0) + (if 0 < x + w <= WIDTH then rows else 0)
    + (if 0 <= y < HEIGHT then span else 0) + (if 0 < y + h <= HEIGHT then span else 0)
  }

  function GuardedFill(fb: Fb, fill: int, x: int, y: int, w: int, h: int): (r: Fb)
    requires Valid(fb)
    ensures Valid(r)
    ensures forall cx, cy | OnScreen(cx, cy) ::
      At(r.pixels, cx, cy) == if InFill(x, y, w, h, cx, cy) then ToUint16(fill) else At(fb.pixels, cx, cy)
    ensures r.changed == fb.changed + GuardedFillDelta(x, y, w, h)
  {
    var c := RectClip(x, y, w, h);
    if c.startX < c.endX then Fill(fb, fill, x, y, w, h) else fb
  }

  function GuardedStroke(fb: Fb, stroke: int, x: int, y: int, w: int, h: int): (r: Fb)
    requires Valid(fb)
    ensures Valid(r)
    ensures forall cx, cy | OnScreen(cx, cy) ::
      At(r.pixels, cx, cy) == if OnEdge(x, y, w, h, cx, cy) then ToUint16(stroke) else At(fb.pixels, cx, cy)
    ensures r.changed == fb.changed + GuardedStrokeDelta(x, y, w, h)
  {
    var c := RectClip(x, y, w, h);
    var sides := SideEdges(fb, stroke, x, y, w, h);
    if c.startX < c.endX then TopBottomEdges(sides, stroke, x, y, w, h) else sides
  }

  /** The guarded drawRect paints exactly what drawRect paints, and agrees with
      it on the counter whenever the clamped span is not reversed. */
  lemma GuardedAgreesWithDrawRect(fb: Fb, stroke: int, fill: int, x: int, y: int, w: int, h: int)
    requires Valid(fb)
    ensures DrawRectGuarded(fb, stroke, fill, x, y, w, h).pixels == DrawRect(fb, stroke, fill, x, y, w, h).pixels
    ensures RectClip(x, y, w, h).startX <= RectClip(x, y, w, h).endX ==>
      DrawRectGuarded(fb, stroke, fill, x, y, w, h) == DrawRect(fb, stroke, fill, x, y, w, h)
  {
    var g := DrawRectGuarded(fb, stroke, fill, x, y, w, h);
    var d := DrawRect(fb, stroke, fill, x, y, w, h);
    PixelsExtensional(g.pixels, d.pixels);
  }
}
