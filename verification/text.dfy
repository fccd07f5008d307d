/** `drawText`: 8x8 glyphs from a 1-bit font laid out left to right, a line
    feed returning to the starting column one glyph row down.  The font's
    bitmap is a parameter; the font file is not part of this model. */
module Text {
  import opened Constants
  import opened Framebuffer
  import opened Sprites
  import opened JsNumbers

  const NEWLINE: int := 10

  /** A code that has a glyph in the font. */
  predicate Printable(code: int)
  {
    32 <= code <= 255
  }

  datatype Pen = Pen(x: int, y: int)

  /** The pen after one character: a line feed goes back to column `left` one
      glyph row down; anything else moves one glyph to the right. */
  function Advance(pen: Pen, left: int, code: int): Pen
  {
    if code == NEWLINE then Pen(left, pen.y + 8) else Pen(pen.x + 8, pen.y)
  }

  /** The pen after a run of characters. */
  function PenAfter(codes: seq<int>, left: int, pen: Pen): Pen
    decreases |codes|
  {
    if codes == [] then pen else PenAfter(codes[1..], left, Advance(pen, left, codes[0]))
  }

  /** Bit `7 - col` of font byte `8 * (code - 32) + row`: the glyph pixel at
      column `col` of row `row`, most significant bit leftmost. */
  function GlyphBit(font: seq<int>, code: int, col: int, row: int): (b: nat)
    requires 0 <= col < 8
    ensures b < 2
  {
    Field(Sample(font, 8 * (code - 32) + row), 7 - col, 2)
  }

  /** Where `drawText` blits a glyph: 8x8 at the pen, from row `8 * (code - 32)`
      of a font 8 pixels wide. */
  function GlyphPlacement(code: int, pen: Pen): Placement
  {
    Placement(pen.x, pen.y, 8, 8, 0, (code - 32) * 8, 8, false, false, false)
  }

  /** A glyph covers at most 64 on-screen cells. */
  lemma GlyphArea(code: int, pen: Pen)
    ensures Area(GlyphPlacement(code, pen)) <= 64
  {
    var a := ClippedLength(pen.x, pen.x + 8, WIDTH);
    var b := ClippedLength(pen.y, pen.y + 8, HEIGHT);
    assert a <= 8 && b <= 8;
    ProductAtMost64(a, b);
  }

  /** Two sides of at most 8 span at most 64 cells, one row at a time. */
  lemma {:induction false} ProductAtMost64(a: nat, b: nat)
    requires a <= 8 && b <= 8
    ensures a * b <= 8 * b <= 64
    decreases a
  {
    if a > 0 {
      ProductAtMost64(a - 1, b);
      assert a * b == (a - 1) * b + b;
    }
  }

  /** What drawing a printable glyph does to screen cell (cx, cy): inside the
      8x8 box at the pen, the palette entry the font bit selects unless it is
      OPTIONAL_COLOR_NONE; outside it, nothing. */
  ghost predicate GlyphDrawn(fb: Fb, r: Fb, textColor: int, backgroundColor: int, font: seq<int>, code: int, pen: Pen)
  {
    Valid(fb) && Valid(r) &&
    forall cx, cy | OnScreen(cx, cy) ::
      At(r.pixels, cx, cy) ==
        if pen.x <= cx < pen.x + 8 && pen.y <= cy < pen.y + 8 then
          var c := if GlyphBit(font, code, cx - pen.x, cy - pen.y) == 0 then textColor else backgroundColor;
          if c != OPTIONAL_COLOR_NONE then ToUint16(c) else At(fb.pixels, cx, cy)
        else At(fb.pixels, cx, cy)
  }

  lemma GlyphBlit(fb: Fb, textColor: int, backgroundColor: int, font: seq<int>, code: int, pen: Pen)
    requires Valid(fb) && Printable(code)
    ensures GlyphDrawn(fb, BlitPalette(fb, [textColor, backgroundColor], font, GlyphPlacement(code, pen)),
                       textColor, backgroundColor, font, code, pen)
  {
    var r := BlitPalette(fb, [textColor, backgroundColor], font, GlyphPlacement(code, pen));
    forall cx, cy | OnScreen(cx, cy)
      ensures At(r.pixels, cx, cy) ==
        if pen.x <= cx < pen.x + 8 && pen.y <= cy < pen.y + 8 then
          var c := if GlyphBit(font, code, cx - pen.x, cy - pen.y) == 0 then textColor else backgroundColor;
          if c != OPTIONAL_COLOR_NONE then ToUint16(c) else At(fb.pixels, cx, cy)
        else At(fb.pixels, cx, cy)
    {
      GlyphCell(fb, textColor, backgroundColor, font, code, pen, cx, cy);
    }
  }

  /** One screen cell of `GlyphBlit`. */
  lemma GlyphCell(fb: Fb, textColor: int, backgroundColor: int, font: seq<int>, code: int, pen: Pen, cx: int, cy: int)
    requires Valid(fb) && Printable(code) && OnScreen(cx, cy)
    ensures var r := BlitPalette(fb, [textColor, backgroundColor], font, GlyphPlacement(code, pen));
      At(r.pixels, cx, cy) ==
        if pen.x <= cx < pen.x + 8 && pen.y <= cy < pen.y + 8 then
          var c := if GlyphBit(font, code, cx - pen.x, cy - pen.y) == 0 then textColor else backgroundColor;
          if c != OPTIONAL_COLOR_NONE then ToUint16(c) else At(fb.pixels, cx, cy)
        else At(fb.pixels, cx, cy)
  {
    var p := GlyphPlacement(code, pen);
    var (x, y) := (cx - pen.x, cy - pen.y);
    assert Local(p, cx, cy) == (x, y);
    assert Covered(p, cx, cy) <==> pen.x <= cx < pen.x + 8 && pen.y <= cy < pen.y + 8;
    var i := PaletteIndex(font, SourceIndex(p, x, y), false);
    if Covered(p, cx, cy) {
      var k := 8 * (code - 32) + y;
      assert SourceIndex(p, x, y) == 8 * k + x;
      MostSignificantFirst(font, k, x);
      assert i == Field(Sample(font, k), 7 - x, 2) == GlyphBit(font, code, x, y);
    }
    var colors := [textColor, backgroundColor];
    var c := colors[i];
    assert c == if i == 0 then textColor else backgroundColor;
    var r := BlitPalette(fb, colors, font, p);
    assert At(r.pixels, cx, cy) == if Covered(p, cx, cy) && c != OPTIONAL_COLOR_NONE then ToUint16(c) else At(fb.pixels, cx, cy);
  }

  /** The glyph of a printable code: rows `8 * (code - 32)` onwards of the
      font, 8 pixels to a row, through the two-entry palette
      `[textColor, backgroundColor]` (a clear bit selects the text colour). */
  function Glyph(fb: Fb, textColor: int, backgroundColor: int, font: seq<int>, code: int, pen: Pen): (r: Fb)
    requires Valid(fb)
    ensures Valid(r)
    ensures !Printable(code) ==> r == fb
    // a printable code paints the 8x8 box at the pen, cell by cell from its font bit
    ensures Printable(code) ==> GlyphDrawn(fb, r, textColor, backgroundColor, font, code, pen)
    ensures Printable(code) ==> fb.changed <= r.changed <= fb.changed + 64
  {
    if Printable(code) then
      GlyphBlit(fb, textColor, backgroundColor, font, code, pen);
      GlyphArea(code, pen);
      BlitPalette(fb, [textColor, backgroundColor], font, GlyphPlacement(code, pen))
    else fb
  }

  /** The characters drawn one after another from `pen`. */
  function Draw(fb: Fb, textColor: int, backgroundColor: int, font: seq<int>, codes: seq<int>, left: int, pen: Pen): (r: Fb)
    requires Valid(fb)
    ensures Valid(r)
    decreases |codes|
  {
    if codes == [] then fb
    else Draw(Glyph(fb, textColor, backgroundColor, font, codes[0], pen), textColor, backgroundColor, font,
              codes[1..], left, Advance(pen, left, codes[0]))
  }

  /** Drawing a concatenation is drawing the second part from where the
      first left the pen. */
  lemma {:induction false} DrawAppend(fb: Fb, textColor: int, backgroundColor: int, font: seq<int>, a: seq<int>, b: seq<int>, left: int, pen: Pen)
    requires Valid(fb)
    ensures Draw(fb, textColor, backgroundColor, font, a + b, left, pen) ==
            Draw(Draw(fb, textColor, backgroundColor, font, a, left, pen), textColor, backgroundColor, font, b, left, PenAfter(a, left, pen))
    ensures PenAfter(a + b, left, pen) == PenAfter(b, left, PenAfter(a, left, pen))
    decreases |a|
  {
    if a == [] {
      assert a + b == b;
    } else {
      assert (a + b)[1..] == a[1..] + b;
      DrawAppend(Glyph(fb, textColor, backgroundColor, font, a[0], pen), textColor, backgroundColor, font,
                 a[1..], b, left, Advance(pen, left, a[0]));
    }
  }

  function CountNewlines(codes: seq<int>): nat
  {
    if codes == [] then 0 else CountNewlines(codes[..|codes| - 1]) + (if codes[|codes| - 1] == NEWLINE then 1 else 0)
  }

  /** The pen row moves down one glyph per line feed; without a line feed the
      pen column moves right one glyph per character. */
  lemma {:induction false} PenPosition(codes: seq<int>, left: int, pen: Pen)
    ensures PenAfter(codes, left, pen).y == pen.y + 8 * CountNewlines(codes)
    ensures NEWLINE !in codes ==> PenAfter(codes, left, pen).x == pen.x + 8 * |codes|
    decreases |codes|
  {
    if codes != [] {
      var init := codes[..|codes| - 1];
      var last := codes[|codes| - 1];
      PenPosition(init, left, pen);
      assert codes == init + [last];
      DrawAppendPen(init, [last], left, pen);
    }
  }

  lemma DrawAppendPen(a: seq<int>, b: seq<int>, left: int, pen: Pen)
    ensures PenAfter(a + b, left, pen) == PenAfter(b, left, PenAfter(a, left, pen))
  {
    DrawAppend(Init(), 0, 0, [], a, b, left, pen);
  }

  /** After the last line feed the pen starts again from column `left`. */
  lemma LineStart(a: seq<int>, b: seq<int>, left: int, pen: Pen)
    requires NEWLINE !in b
    ensures PenAfter(a + [NEWLINE] + b, left, pen).x == left + 8 * |b|
  {
    DrawAppendPen(a + [NEWLINE], b, left, pen);
    DrawAppendPen(a, [NEWLINE], left, pen);
    PenPosition(b, left, PenAfter(a + [NEWLINE], left, pen));
  }

  /** Text with nothing printable draws nothing. */
  lemma {:induction false} UnprintableDrawsNothing(fb: Fb, textColor: int, backgroundColor: int, font: seq<int>, codes: seq<int>, left: int, pen: Pen)
    requires Valid(fb)
    requires forall i | 0 <= i < |codes| :: !Printable(codes[i])
    ensures Draw(fb, textColor, backgroundColor, font, codes, left, pen) == fb
    decreases |codes|
  {
    if codes != [] {
      UnprintableDrawsNothing(fb, textColor, backgroundColor, font, codes[1..], left, Advance(pen, left, codes[0]));
    }
  }

  /** Text never paints left of the column its lines start from, nor above
      the row the pen starts on. */
  lemma {:induction false} DrawKeepsOutside(fb: Fb, textColor: int, backgroundColor: int, font: seq<int>, codes: seq<int>,
                                            left: int, pen: Pen, cx: int, cy: int)
    requires Valid(fb) && OnScreen(cx, cy) && left <= pen.x
    requires cx < left || cy < pen.y
    ensures At(Draw(fb, textColor, backgroundColor, font, codes, left, pen).pixels, cx, cy) == At(fb.pixels, cx, cy)
    decreases |codes|
  {
    if codes != [] {
      var g := Glyph(fb, textColor, backgroundColor, font, codes[0], pen);
      assert At(g.pixels, cx, cy) == At(fb.pixels, cx, cy);
      DrawKeepsOutside(g, textColor, backgroundColor, font, codes[1..], left, Advance(pen, left, codes[0]), cx, cy);
    }
  }

  /** `drawText(textColor, backgroundColor, codes, x, y)`, as the source's loop. */
  method DrawText(fb: Fb, textColor: int, backgroundColor: int, font: seq<int>, codes: seq<int>, x: int, y: int) returns (r: Fb)
    requires Valid(fb)
    ensures r == Draw(fb, textColor, backgroundColor, font, codes, x, Pen(x, y))
  {
    r := fb;
    var currentX := x;
    var row := y;
    var i := 0;
    while i < |codes|
      invariant 0 <= i <= |codes|
      invariant r == Draw(fb, textColor, backgroundColor, font, codes[..i], x, Pen(x, y))
      invariant Pen(currentX, row) == PenAfter(codes[..i], x, Pen(x, y))
    {
      var code := codes[i];
      DrawAppend(fb, textColor, backgroundColor, font, codes[..i], [code], x, Pen(x, y));
      assert codes[..i + 1] == codes[..i] + [code];
      if code == NEWLINE {
        row := row + 8;
        currentX := x;
      } else if Printable(code) {
        r := BlitLoops(r, Palette([textColor, backgroundColor], font),
                       Placement(currentX, row, 8, 8, 0, (code - 32) * 8, 8, false, false, false));
        currentX := currentX + 8;
      } else {
        currentX := currentX + 8;
      }
      i := i + 1;
    }
    assert codes[..|codes|] == codes;
  }
}
