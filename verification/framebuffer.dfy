/** The software rasterizer's pixel store and its clipping primitives: a
    WIDTH x HEIGHT row-major array of 16-bit RGB565 pixels and a counter of
    pixel writes since the compositor last drained it. */
module Framebuffer {
  import opened JsNumbers
  import opened Constants

  const SIZE: int := WIDTH * HEIGHT

  datatype Fb = Fb(pixels: seq<int>, changed: int)

  predicate OnScreen(x: int, y: int)
  {
    0 <= x < WIDTH && 0 <= y < HEIGHT
  }

  /** The pixel array has its fixed size and holds 16-bit values only. */
  predicate Valid(fb: Fb)
  {
    |fb.pixels| == SIZE && forall i :: 0 <= i < |fb.pixels| ==> 0 <= fb.pixels[i] < TWO_16
  }

  /** The pixel at column `x`, row `y`. */
  function At(p: seq<int>, x: int, y: int): int
    requires |p| == SIZE && OnScreen(x, y)
  {
    p[WIDTH * y + x]
  }

  /** Two pixel arrays that agree on every cell are equal. */
  lemma PixelsExtensional(p: seq<int>, q: seq<int>)
    requires |p| == SIZE && |q| == SIZE
    requires forall x, y | OnScreen(x, y) :: At(p, x, y) == At(q, x, y)
    ensures p == q
  {
    forall i | 0 <= i < SIZE
      ensures p[i] == q[i]
    {
      assert At(p, i % WIDTH, i / WIDTH) == At(q, i % WIDTH, i / WIDTH);
    }
  }

  /** The number of on-screen cells of the run [lo, hi) along an axis of
      length `bound`. */
  function ClippedLength(lo: int, hi: int, bound: int): (n: nat)
    requires 0 <= bound
    ensures n <= hi - lo || n == 0
    ensures n <= bound
    ensures n > 0 ==> lo < hi && lo < bound && 0 < hi
  {
    var s := if lo < 0 then 0 else lo;
    var e := if hi > bound then bound else hi;
    if s < e then e - s else 0
  }

  // ---------------------------------------------------------------------
  // Typed-array stores

  /** `bytes[i] = c`: a store outside the array is ignored; the value wraps to 16 bits. */
  function Store(p: seq<int>, i: int, c: int): (q: seq<int>)
    ensures |q| == |p|
    ensures forall k :: 0 <= k < |p| ==> q[k] == if k == i then ToUint16(c) else p[k]
  {
    if 0 <= i < |p| then p[i := ToUint16(c)] else p
  }

  /** The relative index a TypedArray method makes of `k`: negative values
      count from the end, and both ends are clamped to the array. */
  function RelativeIndex(k: int, len: nat): (r: int)
    ensures 0 <= r <= len
    ensures 0 <= k ==> r == if k < len then k else len
  {
    if k < 0 then (if len + k < 0 then 0 else len + k)
    else if k < len then k
    else len
  }

  /** `bytes.fill(c, start, end)`. */
  function Fill(p: seq<int>, c: int, start: int, end: int): (q: seq<int>)
    ensures |q| == |p|
    ensures forall k :: 0 <= k < |p| ==>
      q[k] == if RelativeIndex(start, |p|) <= k < RelativeIndex(end, |p|) then ToUint16(c) else p[k]
  {
    var s := RelativeIndex(start, |p|);
    var e := RelativeIndex(end, |p|);
    seq(|p|, k requires 0 <= k < |p| => if s <= k < e then ToUint16(c) else p[k])
  }

  // ---------------------------------------------------------------------
  // The Framebuffer class

  /** A framebuffer over freshly zeroed memory has a zero counter. */
  function Init(): (fb: Fb)
    ensures Valid(fb) && fb.changed == 0
    ensures forall x, y | OnScreen(x, y) :: At(fb.pixels, x, y) == 0
  {
    Fb(seq(SIZE, _ => 0), 0)
  }

  /** The compositor's read of the counter: the count and the framebuffer with
      the counter drained. */
  function CountChangedPixelsAndReset(fb: Fb): (res: (int, Fb))
    ensures res.1.pixels == fb.pixels && res.1.changed == 0
    ensures res.0 == fb.changed
  {
    (fb.changed, fb.(changed := 0))
  }

  /** Draining twice in a row yields 0 the second time. */
  lemma CountTwiceIsZero(fb: Fb)
    ensures CountChangedPixelsAndReset(CountChangedPixelsAndReset(fb).1).0 == 0
  {
  }

  function FillScreen(fb: Fb, color: int): (r: Fb)
    requires Valid(fb)
    ensures Valid(r)
    ensures forall x, y | OnScreen(x, y) :: At(r.pixels, x, y) == ToUint16(color)
    ensures r.changed == fb.changed + WIDTH * HEIGHT
  {
    Fb(Fill(fb.pixels, color, 0, |fb.pixels|), fb.changed + |fb.pixels|)
  }

  /** `bytes[WIDTH * y + x] = color` with no clipping: the counter moves even
      when the index misses the array. */
  function DrawPoint(fb: Fb, color: int, x: int, y: int): (r: Fb)
    requires Valid(fb)
    ensures Valid(r)
    ensures OnScreen(x, y) ==> forall cx, cy | OnScreen(cx, cy) ::
      At(r.pixels, cx, cy) == if cx == x && cy == y then ToUint16(color) else At(fb.pixels, cx, cy)
    ensures r.changed == fb.changed + 1
  {
    Fb(Store(fb.pixels, WIDTH * y + x, color), fb.changed + 1)
  }

  function DrawPointUnclipped(fb: Fb, color: int, x: int, y: int): (r: Fb)
    requires Valid(fb)
    ensures Valid(r)
    ensures forall cx, cy | OnScreen(cx, cy) ::
      At(r.pixels, cx, cy) == if cx == x && cy == y then ToUint16(color) else At(fb.pixels, cx, cy)
    ensures r.changed == fb.changed + (if OnScreen(x, y) then 1 else 0)
    ensures !OnScreen(x, y) ==> r == fb
  {
    if OnScreen(x, y) then DrawPoint(fb, color, x, y) else fb
  }

  /** Cells of row `y` are exactly the indices between `WIDTH * y` and `WIDTH * (y + 1)`. */
  lemma RowOf(cx: int, cy: int, y: int)
    requires OnScreen(cx, cy)
    ensures cy < y ==> WIDTH * cy + cx < WIDTH * y
    ensures cy > y ==> WIDTH * cy + cx >= WIDTH * y + WIDTH
  {
  }

  /** A filled run of row `y`, unguarded: the counter moves by `endX - startX`
      even when that is negative and nothing is painted. */
  function DrawHLineFast(fb: Fb, color: int, startX: int, y: int, endX: int): (r: Fb)
    requires Valid(fb)
    ensures Valid(r)
    ensures 0 <= y < HEIGHT && 0 <= startX && 0 <= endX <= WIDTH ==> forall cx, cy | OnScreen(cx, cy) ::
      At(r.pixels, cx, cy) == if cy == y && startX <= cx < endX then ToUint16(color) else At(fb.pixels, cx, cy)
    ensures r.changed == fb.changed + (endX - startX)
  {
    var yOff := WIDTH * y;
    if 0 <= y < HEIGHT && 0 <= startX && 0 <= endX <= WIDTH then
      forall cx, cy | OnScreen(cx, cy)
        ensures yOff + startX <= WIDTH * cy + cx < yOff + endX <==> cy == y && startX <= cx < endX
      {
        RowOf(cx, cy, y);
      }
      Fb(Fill(fb.pixels, color, yOff + startX, yOff + endX), fb.changed + (endX - startX))
    else
      Fb(Fill(fb.pixels, color, yOff + startX, yOff + endX), fb.changed + (endX - startX))
  }

  /** A run of row `y` from `startX` up to `endX`, clipped to the screen. */
  function DrawHLineUnclipped(fb: Fb, color: int, startX: int, y: int, endX: int): (r: Fb)
    requires Valid(fb)
    ensures Valid(r)
    ensures forall cx, cy | OnScreen(cx, cy) ::
      At(r.pixels, cx, cy) == if cy == y && startX <= cx < endX then ToUint16(color) else At(fb.pixels, cx, cy)
    ensures r.changed == fb.changed + (if 0 <= y < HEIGHT then ClippedLength(startX, endX, WIDTH) else 0)
  {
    if 0 <= y < HEIGHT then
      var s := if startX < 0 then 0 else startX;
      var e := if endX > WIDTH then WIDTH else endX;
      if s < e then DrawHLineFast(fb, color, s, y, e) else fb
    else fb
  }

  function DrawHLine(fb: Fb, color: int, x: int, y: int, len: int): (r: Fb)
    requires Valid(fb)
    ensures Valid(r)
    ensures forall cx, cy | OnScreen(cx, cy) ::
      At(r.pixels, cx, cy) == if cy == y && x <= cx < x + len then ToUint16(color) else At(fb.pixels, cx, cy)
    ensures r.changed == fb.changed + (if 0 <= y < HEIGHT then ClippedLength(x, x + len, WIDTH) else 0)
    ensures !(0 <= y < HEIGHT) || x + len <= 0 || x >= WIDTH || len <= 0 ==> r == fb
  {
    DrawHLineUnclipped(fb, color, x, y, x + len)
  }

  /** `drawPoint` down column `x` for the rows `yy` up to `endY`, in order. */
  function Column(fb: Fb, color: int, x: int, yy: int, endY: int): (r: Fb)
    requires Valid(fb)
    requires 0 <= x < WIDTH && 0 <= yy && endY <= HEIGHT
    ensures Valid(r)
    ensures forall cx, cy | OnScreen(cx, cy) ::
      At(r.pixels, cx, cy) == if cx == x && yy <= cy < endY then ToUint16(color) else At(fb.pixels, cx, cy)
    ensures r.changed == fb.changed + (if yy < endY then endY - yy else 0)
    decreases endY - yy
  {
    if yy < endY then Column(DrawPoint(fb, color, x, yy), color, x, yy + 1, endY) else fb
  }

  function DrawVLine(fb: Fb, color: int, x: int, y: int, len: int): (r: Fb)
    requires Valid(fb)
    ensures Valid(r)
    ensures forall cx, cy | OnScreen(cx, cy) ::
      At(r.pixels, cx, cy) == if cx == x && y <= cy < y + len then ToUint16(color) else At(fb.pixels, cx, cy)
    ensures r.changed == fb.changed + (if 0 <= x < WIDTH then ClippedLength(y, y + len, HEIGHT) else 0)
    ensures !(0 <= x < WIDTH) || y + len <= 0 || y >= HEIGHT || len <= 0 ==> r == fb
  {
    if y + len <= 0 || x < 0 || x >= WIDTH then fb
    else
      var startY := if y < 0 then 0 else y;
      var endY := if y + len < HEIGHT then y + len else HEIGHT;
      Column(fb, color, x, startY, endY)
  }
}
