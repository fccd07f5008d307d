/** Sprite blitting: `blitPalette` (1 or 2 bits per pixel through a palette of
    two or four optional colours) and `blit` (one 16-bit colour per pixel).
    Both clip the destination rectangle to the screen, walk it row by row and
    sample the sprite through optional horizontal and vertical flips and a
    quarter turn. */
module Sprites {
  import opened JsNumbers
  import opened Constants
  import opened Framebuffer
  import opened Outcomes

  /** The arguments that place a sprite rectangle on the screen. */
  datatype Placement = Placement(
    dstX: int, dstY: int, width: int, height: int,
    srcX: int, srcY: int, srcStride: int,
    flipX: bool, flipY: bool, rotate: bool)

  /** Where the sprite's pixels come from. */
  datatype Source =
    | Palette(colors: seq<int>, bits: seq<int>)
    | Direct(pixels: seq<int>)

  /** A palette has two entries (1 bit per pixel) or four (2 bits per pixel). */
  predicate WellFormed(src: Source)
  {
    src.Palette? ==> |src.colors| == 2 || |src.colors| == 4
  }

  /** The loop ranges `[xMin, xMax) x [yMin, yMax)` in sprite coordinates. */
  datatype Window = Window(xMin: int, yMin: int, xMax: int, yMax: int)

  function Clip(p: Placement): Window
  {
    if p.rotate then
      Window(Max0(p.dstY) - p.dstY, Max0(p.dstX) - p.dstX, Min(p.width, HEIGHT - p.dstY), Min(p.height, WIDTH - p.dstX))
    else
      Window(Max0(p.dstX) - p.dstX, Max0(p.dstY) - p.dstY, Min(p.width, WIDTH - p.dstX), Min(p.height, HEIGHT - p.dstY))
  }

  function Max0(a: int): int { if a < 0 then 0 else a }
  function Min(a: int, b: int): int { if a < b then a else b }

  /** The screen cell sprite cell (x, y) is drawn to. */
  function Target(p: Placement, x: int, y: int): (int, int)
  {
    if p.rotate then (p.dstX + y, p.dstY + x) else (p.dstX + x, p.dstY + y)
  }

  /** The sprite cell drawn to screen cell (cx, cy): the inverse of Target. */
  function Local(p: Placement, cx: int, cy: int): (int, int)
  {
    if p.rotate then (cy - p.dstY, cx - p.dstX) else (cx - p.dstX, cy - p.dstY)
  }

  /** The screen cell lies in the (possibly rotated) destination rectangle. */
  predicate Covered(p: Placement, cx: int, cy: int)
  {
    var (x, y) := Local(p, cx, cy);
    0 <= x < p.width && 0 <= y < p.height
  }

  predicate InWindow(w: Window, x: int, y: int)
  {
    w.xMin <= x < w.xMax && w.yMin <= y < w.yMax
  }

  /** Clipping keeps exactly the on-screen part of the destination rectangle,
      and every cell it keeps is drawn on the screen. */
  lemma ClipExact(p: Placement, x: int, y: int)
    ensures InWindow(Clip(p), x, y) <==> 0 <= x < p.width && 0 <= y < p.height && OnScreen(Target(p, x, y).0, Target(p, x, y).1)
    ensures var (cx, cy) := Target(p, x, y); Local(p, cx, cy) == (x, y)
  {
  }

  /** The bit index of the sample for sprite cell (x, y).  A quarter turn
      toggles the horizontal flip. */
  function SourceIndex(p: Placement, x: int, y: int): int
  {
    var flipX := p.rotate != p.flipX;
    var sx := p.srcX + (if flipX then p.width - x - 1 else x);
    var sy := p.srcY + (if p.flipY then p.height - y - 1 else y);
    sy * p.srcStride + sx
  }

  /** An element of a typed array; an index outside it reads `undefined`,
      which every later bit operation or 16-bit store turns into 0. */
  function Sample(a: seq<int>, i: int): int
  {
    if 0 <= i < |a| then a[i] else 0
  }

  function Pow2(n: nat): (r: nat)
    ensures r >= 1
  {
    if n == 0 then 1 else 2 * Pow2(n - 1)
  }

  /** The palette index of the `bitIndex`-th pixel of a packed sprite, most
      significant bits first.  `>>>` reads the index as unsigned 32-bit, so a
      negative index lands far outside the sprite; `& 3` and `& 7` of the
      index equal its Euclidean remainder because 2^32 is a multiple of 8. */
  function PaletteIndex(bits: seq<int>, bitIndex: int, twoBits: bool): (i: nat)
    ensures i < (if twoBits then 4 else 2)
  {
    if twoBits then
      var byte := Sample(bits, ToUint32(bitIndex) / 4);
      var shift := 6 - (bitIndex % 4) * 2;
      Field(byte, shift, 4)
    else
      var byte := Sample(bits, ToUint32(bitIndex) / 8);
      var shift := 7 - bitIndex % 8;
      Field(byte, shift, 2)
  }

  /** `(byte >>> shift) & (size - 1)` for a power of two `size`. */
  function Field(byte: int, shift: nat, size: nat): (f: nat)
    requires size > 0
    ensures f < size
  {
    (ToUint32(byte) / Pow2(shift)) % size
  }

  /** Samples are packed most significant bits first: pixel `4 * k + j` of a
      two-bit sprite is bits `7 - 2j .. 6 - 2j` of byte `k`, and pixel
      `8 * k + j` of a one-bit sprite is bit `7 - j` of byte `k`. */
  lemma MostSignificantFirst(bits: seq<int>, k: int, j: int)
    requires 0 <= k < 0x2000_0000
    ensures 0 <= j < 4 ==> PaletteIndex(bits, 4 * k + j, true) == Field(Sample(bits, k), 6 - 2 * j, 4)
    ensures 0 <= j < 8 ==> PaletteIndex(bits, 8 * k + j, false) == Field(Sample(bits, k), 7 - j, 2)
  {
    if 0 <= j < 4 {
      var i := 4 * k + j;
      Quarter(k, j);
      assert ToUint32(i) / 4 == k;
      assert 6 - (i % 4) * 2 == 6 - 2 * j;
    }
    if 0 <= j < 8 {
      var i := 8 * k + j;
      Eighth(k, j);
      assert ToUint32(i) / 8 == k;
      assert 7 - i % 8 == 7 - j;
    }
  }

  lemma Quarter(k: int, j: int)
    requires 0 <= j < 4
    ensures (4 * k + j) / 4 == k && (4 * k + j) % 4 == j
  {
  }

  lemma Eighth(k: int, j: int)
    requires 0 <= j < 8
    ensures (8 * k + j) / 8 == k && (8 * k + j) % 8 == j
  {
  }

  /** The colour sprite cell (x, y) paints, if any: a palette entry that is
      not OPTIONAL_COLOR_NONE, or the 16-bit sample itself. */
  function CellColor(src: Source, p: Placement, x: int, y: int): Option<int>
    requires WellFormed(src)
  {
    match src
    case Palette(colors, bits) =>
      var c := colors[PaletteIndex(bits, SourceIndex(p, x, y), |colors| == 4)];
      if c != OPTIONAL_COLOR_NONE then Some(c) else None
    case Direct(pixels) => Some(Sample(pixels, SourceIndex(p, x, y)))
  }

  // ---------------------------------------------------------------------
  // Counting the cells painted

  function Paints(src: Source, p: Placement, x: int, y: int): nat
    requires WellFormed(src)
  {
    if CellColor(src, p, x, y).Some? then 1 else 0
  }

  /** Painted cells of row `y` in columns `[xMin, x)`. */
  function RowPaints(src: Source, p: Placement, y: int, x: int): nat
    requires WellFormed(src)
    decreases x - Clip(p).xMin
  {
    if x <= Clip(p).xMin then 0 else RowPaints(src, p, y, x - 1) + Paints(src, p, x - 1, y)
  }

  /** Painted cells of the rows `[yMin, y)` of the window. */
  function GridPaints(src: Source, p: Placement, y: int): nat
    requires WellFormed(src)
    decreases y - Clip(p).yMin
  {
    if y <= Clip(p).yMin then 0 else GridPaints(src, p, y - 1) + RowPaints(src, p, y - 1, Clip(p).xMax)
  }

  /** Every sample paints, or none does. */
  predicate AlwaysPaints(src: Source)
  {
    src.Direct? || forall i | 0 <= i < |src.colors| :: src.colors[i] != OPTIONAL_COLOR_NONE
  }

  predicate NeverPaints(src: Source)
  {
    src.Palette? && forall i | 0 <= i < |src.colors| :: src.colors[i] == OPTIONAL_COLOR_NONE
  }

  /** The number of cells of the window, by rows. */
  function Span(lo: int, hi: int): nat
  {
    if lo < hi then hi - lo else 0
  }

  lemma {:induction false} RowPaintsBounds(src: Source, p: Placement, y: int, x: int)
    requires WellFormed(src)
    ensures RowPaints(src, p, y, x) <= Span(Clip(p).xMin, x)
    ensures AlwaysPaints(src) ==> RowPaints(src, p, y, x) == Span(Clip(p).xMin, x)
    ensures NeverPaints(src) ==> RowPaints(src, p, y, x) == 0
    decreases x - Clip(p).xMin
  {
    if x > Clip(p).xMin {
      RowPaintsBounds(src, p, y, x - 1);
    }
  }

  lemma MulSucc(a: int, n: int)
    ensures (a + 1) * n == a * n + n
  {
  }

  /** The painted cells number at most the window's area, exactly that when
      every sample paints, and none when no palette entry is a colour. */
  lemma {:induction false} GridPaintsBounds(src: Source, p: Placement, y: int)
    requires WellFormed(src)
    ensures GridPaints(src, p, y) <= Span(Clip(p).yMin, y) * Span(Clip(p).xMin, Clip(p).xMax)
    ensures AlwaysPaints(src) ==> GridPaints(src, p, y) == Span(Clip(p).yMin, y) * Span(Clip(p).xMin, Clip(p).xMax)
    ensures NeverPaints(src) ==> GridPaints(src, p, y) == 0
    decreases y - Clip(p).yMin
  {
    var w := Clip(p);
    if y > w.yMin {
      GridPaintsBounds(src, p, y - 1);
      RowPaintsBounds(src, p, y - 1, w.xMax);
      var n := Span(w.xMin, w.xMax);
      var rows := Span(w.yMin, y - 1);
      assert Span(w.yMin, y) == rows + 1;
      MulSucc(rows, n);
      assert GridPaints(src, p, y) == GridPaints(src, p, y - 1) + RowPaints(src, p, y - 1, w.xMax);
    }
  }

  /** The area of the window is the on-screen part of the destination
      rectangle. */
  lemma WindowArea(p: Placement)
    ensures var w := Clip(p);
      Span(w.xMin, w.xMax) == (if p.rotate then ClippedLength(p.dstY, p.dstY + p.width, HEIGHT) else ClippedLength(p.dstX, p.dstX + p.width, WIDTH))
    ensures var w := Clip(p);
      Span(w.yMin, w.yMax) == (if p.rotate then ClippedLength(p.dstX, p.dstX + p.height, WIDTH) else ClippedLength(p.dstY, p.dstY + p.height, HEIGHT))
  {
  }

  // ---------------------------------------------------------------------
  // The blit

  /** A screen cell after the blit. */
  function PixelAfter(fb: Fb, src: Source, p: Placement, cx: int, cy: int): int
    requires Valid(fb) && WellFormed(src) && OnScreen(cx, cy)
  {
    var (x, y) := Local(p, cx, cy);
    if Covered(p, cx, cy) then
      match CellColor(src, p, x, y)
      case Some(c) => ToUint16(c)
      case None => At(fb.pixels, cx, cy)
    else At(fb.pixels, cx, cy)
  }

  /** The framebuffer after the blit: every covered on-screen cell takes the
      colour its sample paints, if any; the counter grows by the number of
      cells painted, at most the window's area. */
  function BlitResult(fb: Fb, src: Source, p: Placement): (r: Fb)
    requires Valid(fb) && WellFormed(src)
    ensures Valid(r)
    ensures forall cx, cy | OnScreen(cx, cy) :: At(r.pixels, cx, cy) == PixelAfter(fb, src, p, cx, cy)
    ensures r.changed == fb.changed + GridPaints(src, p, Clip(p).yMax)
  {
    var pixels := seq(SIZE, i requires 0 <= i < SIZE => PixelAfter(fb, src, p, i % WIDTH, i / WIDTH));
    forall cx, cy | OnScreen(cx, cy)
      ensures At(pixels, cx, cy) == PixelAfter(fb, src, p, cx, cy)
    {
      var i := WIDTH * cy + cx;
      assert i % WIDTH == cx && i / WIDTH == cy;
    }
    Fb(pixels, fb.changed + GridPaints(src, p, Clip(p).yMax))
  }

  /** Cells of the window already visited when the loops stand at (x, y). */
  predicate Visited(w: Window, x: int, y: int, lx: int, ly: int)
  {
    (w.yMin <= ly < y && w.xMin <= lx < w.xMax) || (ly == y && w.xMin <= lx < x)
  }

  /** The pixels after the visits so far. */
  ghost predicate Partial(cur: Fb, fb: Fb, src: Source, p: Placement, x: int, y: int)
    requires Valid(cur) && Valid(fb) && WellFormed(src)
  {
    forall cx, cy | OnScreen(cx, cy) ::
      At(cur.pixels, cx, cy) ==
        var (lx, ly) := Local(p, cx, cy);
        if Visited(Clip(p), x, y, lx, ly) then PixelAfter(fb, src, p, cx, cy) else At(fb.pixels, cx, cy)
  }

  /** One visit: `drawPoint` of the cell's colour at its target, when it paints. */
  function Visit(cur: Fb, src: Source, p: Placement, x: int, y: int): (r: Fb)
    requires Valid(cur) && WellFormed(src)
    ensures Valid(r)
  {
    match CellColor(src, p, x, y)
    case Some(c) => DrawPoint(cur, c, Target(p, x, y).0, Target(p, x, y).1)
    case None => cur
  }

  /** The state of the inner loop at (x, y): the cells visited so far are
      painted and counted. */
  ghost predicate RowSoFar(cur: Fb, fb: Fb, src: Source, p: Placement, x: int, y: int)
    requires Valid(fb) && WellFormed(src)
  {
    var w := Clip(p);
    Valid(cur) && w.xMin <= x && (x <= w.xMax || x == w.xMin) &&
    Partial(cur, fb, src, p, x, y) &&
    cur.changed == fb.changed + GridPaints(src, p, y) + RowPaints(src, p, y, x)
  }

  lemma VisitStep(cur: Fb, fb: Fb, src: Source, p: Placement, x: int, y: int)
    requires Valid(fb) && WellFormed(src)
    requires InWindow(Clip(p), x, y)
    requires RowSoFar(cur, fb, src, p, x, y)
    ensures RowSoFar(Visit(cur, src, p, x, y), fb, src, p, x + 1, y)
  {
    ClipExact(p, x, y);
    var r := Visit(cur, src, p, x, y);
    var (tx, ty) := Target(p, x, y);
    forall cx, cy | OnScreen(cx, cy)
      ensures At(r.pixels, cx, cy) ==
        var (lx, ly) := Local(p, cx, cy);
        if Visited(Clip(p), x + 1, y, lx, ly) then PixelAfter(fb, src, p, cx, cy) else At(fb.pixels, cx, cy)
    {
      if (cx, cy) == (tx, ty) {
        assert Local(p, cx, cy) == (x, y);
      } else {
        assert Local(p, cx, cy) != (x, y);
      }
    }
  }

  /** A finished row: the next row starts with nothing of it visited. */
  lemma RowDone(cur: Fb, fb: Fb, src: Source, p: Placement, x: int, y: int)
    requires Valid(cur) && Valid(fb) && WellFormed(src)
    requires var w := Clip(p); w.xMax <= x && (x == w.xMax || x == w.xMin) && w.yMin <= y
    requires Partial(cur, fb, src, p, x, y)
    requires cur.changed == fb.changed + GridPaints(src, p, y) + RowPaints(src, p, y, x)
    ensures Partial(cur, fb, src, p, Clip(p).xMin, y + 1)
    ensures cur.changed == fb.changed + GridPaints(src, p, y + 1)
  {
    var w := Clip(p);
    assert forall lx, ly :: Visited(w, x, y, lx, ly) <==> Visited(w, w.xMin, y + 1, lx, ly);
  }

  /** All rows visited: the loops have produced the blit. */
  lemma AllDone(cur: Fb, fb: Fb, src: Source, p: Placement, y: int)
    requires Valid(cur) && Valid(fb) && WellFormed(src)
    requires var w := Clip(p); w.yMax <= y && (y == w.yMax || y == w.yMin)
    requires Partial(cur, fb, src, p, Clip(p).xMin, y)
    requires cur.changed == fb.changed + GridPaints(src, p, y)
    ensures cur == BlitResult(fb, src, p)
  {
    var spec := BlitResult(fb, src, p);
    forall cx, cy | OnScreen(cx, cy)
      ensures At(cur.pixels, cx, cy) == At(spec.pixels, cx, cy)
    {
      var (lx, ly) := Local(p, cx, cy);
      ClipExact(p, lx, ly);
    }
    PixelsExtensional(cur.pixels, spec.pixels);
  }

  /** The inner loop: one row of the window, visited left to right. */
  method BlitRow(cur: Fb, fb: Fb, src: Source, p: Placement, y: int) returns (r: Fb)
    requires Valid(cur) && Valid(fb) && WellFormed(src)
    requires Clip(p).yMin <= y < Clip(p).yMax
    requires Partial(cur, fb, src, p, Clip(p).xMin, y)
    requires cur.changed == fb.changed + GridPaints(src, p, y)
    ensures Valid(r)
    ensures Partial(r, fb, src, p, Clip(p).xMin, y + 1)
    ensures r.changed == fb.changed + GridPaints(src, p, y + 1)
  {
    var w := Clip(p);
    r := cur;
    var x := w.xMin;
    while x < w.xMax
      invariant RowSoFar(r, fb, src, p, x, y)
      decreases w.xMax - x
    {
      VisitStep(r, fb, src, p, x, y);
      r := Visit(r, src, p, x, y);
      x := x + 1;
    }
    RowDone(r, fb, src, p, x, y);
  }

  /** The loops of `blitPalette` and `blit`, visiting the window row by row. */
  method BlitLoops(fb: Fb, src: Source, p: Placement) returns (r: Fb)
    requires Valid(fb) && WellFormed(src)
    ensures r == BlitResult(fb, src, p)
  {
    var w := Clip(p);
    r := fb;
    var y := w.yMin;
    while y < w.yMax
      invariant Valid(r)
      invariant w.yMin <= y && (y <= w.yMax || y == w.yMin)
      invariant Partial(r, fb, src, p, w.xMin, y)
      invariant r.changed == fb.changed + GridPaints(src, p, y)
      decreases w.yMax - y
    {
      r := BlitRow(r, fb, src, p, y);
      y := y + 1;
    }
    AllDone(r, fb, src, p, y);
  }

  /** The on-screen part of the destination rectangle, in cells. */
  function Area(p: Placement): nat
  {
    if p.rotate then ClippedLength(p.dstY, p.dstY + p.width, HEIGHT) * ClippedLength(p.dstX, p.dstX + p.height, WIDTH)
    else ClippedLength(p.dstX, p.dstX + p.width, WIDTH) * ClippedLength(p.dstY, p.dstY + p.height, HEIGHT)
  }

  lemma GridArea(src: Source, p: Placement)
    requires WellFormed(src)
    ensures GridPaints(src, p, Clip(p).yMax) <= Area(p)
    ensures AlwaysPaints(src) ==> GridPaints(src, p, Clip(p).yMax) == Area(p)
    ensures NeverPaints(src) ==> GridPaints(src, p, Clip(p).yMax) == 0
  {
    var w := Clip(p);
    GridPaintsBounds(src, p, w.yMax);
    WindowArea(p);
    var cols := Span(w.xMin, w.xMax);
    var rows := Span(w.yMin, w.yMax);
    assert Area(p) == cols * rows;
    assert cols * rows == rows * cols;
  }

  lemma NeverPaintsIsIdentity(fb: Fb, src: Source, p: Placement)
    requires Valid(fb) && WellFormed(src)
    ensures NeverPaints(src) ==> BlitResult(fb, src, p) == fb
  {
    if NeverPaints(src) {
      GridArea(src, p);
      PixelsExtensional(BlitResult(fb, src, p).pixels, fb.pixels);
    }
  }

  /** `blitPalette(colors, sprite, ...)`: each covered on-screen cell takes the
      palette entry its bits select unless that entry is OPTIONAL_COLOR_NONE;
      the counter grows by at most the covered area, by exactly the area when
      no entry is NONE, and not at all when every entry is. */
  function BlitPalette(fb: Fb, colors: seq<int>, bits: seq<int>, p: Placement): (r: Fb)
    requires Valid(fb) && (|colors| == 2 || |colors| == 4)
    ensures Valid(r)
    ensures forall cx, cy | OnScreen(cx, cy) ::
      var (x, y) := Local(p, cx, cy);
      var c := colors[PaletteIndex(bits, SourceIndex(p, x, y), |colors| == 4)];
      At(r.pixels, cx, cy) == if Covered(p, cx, cy) && c != OPTIONAL_COLOR_NONE then ToUint16(c) else At(fb.pixels, cx, cy)
    ensures fb.changed <= r.changed <= fb.changed + Area(p)
    ensures (forall i | 0 <= i < |colors| :: colors[i] != OPTIONAL_COLOR_NONE) ==> r.changed == fb.changed + Area(p)
    ensures (forall i | 0 <= i < |colors| :: colors[i] == OPTIONAL_COLOR_NONE) ==> r == fb
    // with a mixed palette the counter grows by the window cells whose entry is not NONE
    ensures r.changed == fb.changed + GridPaints(Palette(colors, bits), p, Clip(p).yMax)
  {
    var src := Palette(colors, bits);
    GridArea(src, p);
    NeverPaintsIsIdentity(fb, src, p);
    BlitResult(fb, src, p)
  }

  /** `blit(sprite, ...)`: each covered on-screen cell takes the 16-bit
      sample of its source cell (0 outside the sprite), and the counter grows
      by exactly the covered area. */
  function Blit(fb: Fb, sprite: seq<int>, p: Placement): (r: Fb)
    requires Valid(fb)
    ensures Valid(r)
    ensures forall cx, cy | OnScreen(cx, cy) ::
      var (x, y) := Local(p, cx, cy);
      At(r.pixels, cx, cy) == if Covered(p, cx, cy) then ToUint16(Sample(sprite, SourceIndex(p, x, y))) else At(fb.pixels, cx, cy)
    ensures r.changed == fb.changed + Area(p)
  {
    GridArea(Direct(sprite), p);
    BlitResult(fb, Direct(sprite), p)
  }
}
