/** `drawOval`: the midpoint ellipse scan.  One quadrant is walked from the
    widest row outwards while the other three are mirrored, each pass plotting
    the four stroke points and filling the two rows between them; a final loop
    extends thin ellipses to their full height. */
module Oval {
  import opened JsNumbers
  import opened Constants
  import opened Framebuffer
  import opened Commands

  /** The points plotted in `color` are symmetric about the column `cx / 2`
      and the row `cy / 2`. */
  ghost predicate PointsMirrored(cmds: seq<Cmd>, color: int, cx: int, cy: int)
  {
    forall px, py | Plot(color, px, py) in cmds ::
      Plot(color, cx - px, py) in cmds && Plot(color, px, cy - py) in cmds
  }

  /** The runs filled in `color` are symmetric about the row `cy / 2`. */
  ghost predicate SpansMirrored(cmds: seq<Cmd>, color: int, cy: int)
  {
    forall startX, row, endX | Span(color, startX, row, endX) in cmds :: Span(color, startX, cy - row, endX) in cmds
  }

  ghost predicate Mirrored(cmds: seq<Cmd>, stroke: int, fill: int, cx: int, cy: int)
  {
    PointsMirrored(cmds, stroke, cx, cy) && SpansMirrored(cmds, fill, cy)
  }

  lemma MirroredAppend(a: seq<Cmd>, b: seq<Cmd>, stroke: int, fill: int, cx: int, cy: int)
    requires Mirrored(a, stroke, fill, cx, cy) && Mirrored(b, stroke, fill, cx, cy)
    ensures Mirrored(a + b, stroke, fill, cx, cy)
  {
  }

  /** Points are drawn only in the stroke colour; runs only in the fill colour,
      only when they hold at least one cell, and centred on the column `cx / 2`. */
  predicate Painted(cmd: Cmd, stroke: int, fill: int, cx: int)
  {
    match cmd
    case Plot(color, _, _) => color == stroke && stroke != OPTIONAL_COLOR_NONE
    case Span(color, startX, _, endX) =>
      color == fill && fill != OPTIONAL_COLOR_NONE && startX < endX && startX + endX == cx + 1
  }

  /** Appending mirrored commands that are all painted keeps both properties. */
  lemma Extend(cmds: seq<Cmd>, g: seq<Cmd>, stroke: int, fill: int, cx: int, cy: int)
    requires forall k | 0 <= k < |cmds| :: Painted(cmds[k], stroke, fill, cx)
    requires forall k | 0 <= k < |g| :: Painted(g[k], stroke, fill, cx)
    requires Mirrored(cmds, stroke, fill, cx, cy) && Mirrored(g, stroke, fill, cx, cy)
    ensures forall k | 0 <= k < |cmds + g| :: Painted((cmds + g)[k], stroke, fill, cx)
    ensures Mirrored(cmds + g, stroke, fill, cx, cy)
  {
    MirroredAppend(cmds, g, stroke, fill, cx, cy);
  }

  /** The four stroke points of a pass. */
  function Corners(stroke: int, fill: int, west: int, east: int, north: int, south: int): (g: seq<Cmd>)
    requires stroke != OPTIONAL_COLOR_NONE
    ensures Mirrored(g, stroke, fill, west + east, north + south)
    ensures forall k | 0 <= k < |g| :: Painted(g[k], stroke, fill, west + east)
  {
    [Plot(stroke, east, north), Plot(stroke, west, north), Plot(stroke, west, south), Plot(stroke, east, south)]
  }

  /** The two filled rows of a pass, between the west and east columns. */
  function Between(stroke: int, fill: int, west: int, east: int, north: int, south: int): (g: seq<Cmd>)
    requires fill != OPTIONAL_COLOR_NONE && east - (west + 1) > 0
    ensures Mirrored(g, stroke, fill, west + east, north + south)
    ensures forall k | 0 <= k < |g| :: Painted(g[k], stroke, fill, west + east)
  {
    [Span(fill, west + 1, north, east), Span(fill, west + 1, south, east)]
  }

  /** What one pass of the scan emits for the current four quadrant points. */
  function Pass(stroke: int, fill: int, west: int, east: int, north: int, south: int): (g: seq<Cmd>)
    ensures Mirrored(g, stroke, fill, west + east, north + south)
    ensures forall k | 0 <= k < |g| :: Painted(g[k], stroke, fill, west + east)
    ensures stroke != OPTIONAL_COLOR_NONE ==>
      |g| >= 4 && g[0] == Plot(stroke, east, north) && g[1] == Plot(stroke, west, north) && g[2] == Plot(stroke, west, south)
    // a fill colour and a non-empty run fill both rows between the columns
    ensures fill != OPTIONAL_COLOR_NONE && east - (west + 1) > 0 ==>
      Span(fill, west + 1, north, east) in g && Span(fill, west + 1, south, east) in g
  {
    var fills := fill != OPTIONAL_COLOR_NONE && east - (west + 1) > 0;
    if stroke == OPTIONAL_COLOR_NONE then
      if fills then Between(stroke, fill, west, east, north, south) else []
    else if fills then
      var corners := Corners(stroke, fill, west, east, north, south);
      var between := Between(stroke, fill, west, east, north, south);
      Extend(corners, between, stroke, fill, west + east, north + south);
      corners + between
    else Corners(stroke, fill, west, east, north, south)
  }

  /** What one pass of the closing loop emits, just outside the last columns. */
  function Cap(stroke: int, west: int, east: int, north: int, south: int): (g: seq<Cmd>)
    requires stroke != OPTIONAL_COLOR_NONE
    ensures PointsMirrored(g, stroke, west + east, north + south)
    ensures forall k | 0 <= k < |g| :: g[k].Plot? && g[k].color == stroke
  {
    [Plot(stroke, west - 1, north), Plot(stroke, east + 1, north), Plot(stroke, west - 1, south), Plot(stroke, east + 1, south)]
  }

  /** With a fill colour and at least three columns, the middle row's run
      between the outermost columns is among the commands. */
  predicate FillsMiddle(cmds: seq<Cmd>, fill: int, x: int, row: int, width: int)
  {
    fill != OPTIONAL_COLOR_NONE && width >= 3 ==> Span(fill, x + 1, row, x + width - 1) in cmds
  }

  /** The scan's quadrant columns and rows and its decision terms. */
  datatype Quad = Quad(west: int, east: int, north: int, south: int, dx: int, dy: int, err: int)

  /** What the scan keeps true of its decision terms, with `aStep` and
      `bStep` its vertical and horizontal increments: the vertical term is
      never negative, and without vertical weight (a one-column oval) the
      horizontal step always fires. */
  predicate Steady(q: Quad, aStep: int, bStep: int)
  {
    aStep >= 0 && bStep >= 0 && q.dy >= 0 && (aStep == 0 ==> q.dy == 0 && 2 * q.err >= q.dx && q.dx >= 0)
  }

  /** One pass's move: a vertical step when `2 err <= dy`, a horizontal one
      when `2 err >= dx` or `2 err > dy`, both tested on the error before the
      pass. */
  function Next(q: Quad, aStep: int, bStep: int): (r: Quad)
    requires Steady(q, aStep, bStep)
    ensures Steady(r, aStep, bStep)
    ensures r.west + r.east == q.west + q.east && r.north + r.south == q.north + q.south
    ensures r.north == q.north || r.north == q.north + 1
    // each pass narrows the columns, or keeps them and moves the error
    // towards the horizontal threshold, which it has not reached
    ensures r.east - r.west < q.east - q.west ||
      (r.east - r.west == q.east - q.west && r.dx - 2 * r.err < q.dx - 2 * q.err && 0 < q.dx - 2 * q.err)
  {
    var err2 := 2 * q.err;
    var v := if err2 <= q.dy then q.(north := q.north + 1, south := q.south - 1, dy := q.dy + aStep, err := q.err + q.dy + aStep) else q;
    if err2 >= q.dx || err2 > q.dy then v.(west := v.west + 1, east := v.east - 1, dx := v.dx + bStep, err := v.err + v.dx + bStep)
    else v
  }

  /** The scan's first quadrant, on the middle row between the outermost
      columns, with its vertical and horizontal increments. */
  function Start(x: int, y: int, width: int, height: int): (r: (Quad, int, int))
    ensures Steady(r.0, r.1, r.2)
    ensures r.0.west == x && r.0.east == x + width - 1
    ensures r.0.north == y + height / 2 && r.0.north - r.0.south == Rem(height - 1, 2)
  {
    var a := width - 1;
    var b := height - 1;
    var b1 := Rem(b, 2);
    var north0 := y + height / 2;
    var a2 := a * a;
    var b2 := b * b;
    var dx := 4 * (1 - a) * b2;
    var dy := 4 * (b1 + 1) * a2;
    var q := Quad(x, x + width - 1, north0, north0 - b1, dx, dy, dx + dy + b1 * a2);
    assert Steady(q, 8 * a2, 8 * b2) by {
      assert a2 >= 0 && b2 >= 0 && b1 + 1 >= 0;
      assert (b1 + 1) * a2 >= 0;
      assert a2 == 0 ==> a == 0;
    }
    (q, 8 * a2, 8 * b2)
  }

  /** What the scan keeps true after each pass: the centre, the painted and
      mirrored commands, the first pass's stroke points and fill run, and a
      point of the last pass on each of its rows. */
  ghost predicate Scanned(cmds: seq<Cmd>, q: Quad, kn: int, ks: int, stroke: int, fill: int, x: int, width: int, north0: int, cols: int, rows: int)
  {
    q.west + q.east == cols && q.north + q.south == rows &&
    (forall k | 0 <= k < |cmds| :: Painted(cmds[k], stroke, fill, cols)) &&
    Mirrored(cmds, stroke, fill, cols, rows) &&
    (stroke != OPTIONAL_COLOR_NONE ==>
      |cmds| >= 2 && cmds[0] == Plot(stroke, x + width - 1, north0) && cmds[1] == Plot(stroke, x, north0) &&
      0 <= kn < |cmds| && cmds[kn].Plot? && cmds[kn].y >= q.north - 1 &&
      0 <= ks < |cmds| && cmds[ks].Plot? && cmds[ks].y <= q.south + 1) &&
    FillsMiddle(cmds, fill, x, north0, width)
  }

  /** A later pass of the scan keeps `Scanned`. */
  lemma ScanStep(cmds: seq<Cmd>, q: Quad, aStep: int, bStep: int, kn: int, ks: int, stroke: int, fill: int, x: int, width: int, north0: int, cols: int, rows: int)
    requires Steady(q, aStep, bStep)
    requires Scanned(cmds, q, kn, ks, stroke, fill, x, width, north0, cols, rows)
    ensures Scanned(cmds + Pass(stroke, fill, q.west, q.east, q.north, q.south), Next(q, aStep, bStep), |cmds|, |cmds| + 2, stroke, fill, x, width, north0, cols, rows)
  {
    var pass := Pass(stroke, fill, q.west, q.east, q.north, q.south);
    KeepsFillsMiddle(cmds, pass, fill, x, north0, width);
    Extend(cmds, pass, stroke, fill, cols, rows);
  }

  /** The main loop of the scan.  It terminates, by the measure `Next`
      decreases.  Returns the commands and the final quadrant columns and
      rows, and the indices of a point plotted on the last north row and on
      the last south row. */
  method Scan(stroke: int, fill: int, x: int, y: int, width: int, height: int)
    returns (cmds: seq<Cmd>, west: int, east: int, north: int, south: int, kn: int, ks: int)
    ensures west + east == 2 * x + width - 1
    ensures north + south == 2 * (y + height / 2) - Rem(height - 1, 2)
    ensures forall k | 0 <= k < |cmds| :: Painted(cmds[k], stroke, fill, west + east)
    ensures Mirrored(cmds, stroke, fill, west + east, north + south)
    // the first pass marks the leftmost and rightmost columns on the middle row
    ensures stroke != OPTIONAL_COLOR_NONE ==>
      |cmds| >= 2 && cmds[0] == Plot(stroke, x + width - 1, y + height / 2) && cmds[1] == Plot(stroke, x, y + height / 2)
    // the last pass plotted a point on the row above north and one below south
    ensures stroke != OPTIONAL_COLOR_NONE ==>
      0 <= kn < |cmds| && cmds[kn].Plot? && cmds[kn].y >= north - 1 &&
      0 <= ks < |cmds| && cmds[ks].Plot? && cmds[ks].y <= south + 1
    // the first pass fills the middle row between the outermost columns
    ensures fill != OPTIONAL_COLOR_NONE && width >= 3 ==> Span(fill, x + 1, y + height / 2, x + width - 1) in cmds
  {
    var start := Start(x, y, width, height);
    var q, aStep, bStep, north0 := start.0, start.1, start.2, y + height / 2;
    ghost var cols := q.west + q.east;
    ghost var rows := q.north + q.south;
    // the do-while's first pass, on the middle row
    cmds := Pass(stroke, fill, q.west, q.east, q.north, q.south);
    assert FillsMiddle(cmds, fill, x, north0, width);
    kn, ks := 0, 2;
    q := Next(q, aStep, bStep);
    while q.west <= q.east
      invariant Steady(q, aStep, bStep)
      invariant Scanned(cmds, q, kn, ks, stroke, fill, x, width, north0, cols, rows)
      decreases q.east - q.west, q.dx - 2 * q.err
    {
      ScanStep(cmds, q, aStep, bStep, kn, ks, stroke, fill, x, width, north0, cols, rows);
      kn, ks := |cmds|, |cmds| + 2;
      cmds := cmds + Pass(stroke, fill, q.west, q.east, q.north, q.south);
      q := Next(q, aStep, bStep);
    }
    west, east, north, south := q.west, q.east, q.north, q.south;
  }

  lemma KeepsFillsMiddle(cmds: seq<Cmd>, g: seq<Cmd>, fill: int, x: int, row: int, width: int)
    requires FillsMiddle(cmds, fill, x, row, width)
    ensures FillsMiddle(cmds + g, fill, x, row, width)
  {
  }

  /** The closing loop: extends the outline just outside the last columns
      until north and south are `height` rows apart. */
  method Close(stroke: int, fill: int, cmds0: seq<Cmd>, west: int, east: int, north0: int, south0: int, height: int, kn0: int, ks0: int)
    returns (cmds: seq<Cmd>, north: int, south: int, kn: int, ks: int)
    requires stroke != OPTIONAL_COLOR_NONE
    requires forall k | 0 <= k < |cmds0| :: Painted(cmds0[k], stroke, fill, west + east)
    requires Mirrored(cmds0, stroke, fill, west + east, north0 + south0)
    requires 0 <= kn0 < |cmds0| && cmds0[kn0].Plot? && cmds0[kn0].y >= north0 - 1
    requires 0 <= ks0 < |cmds0| && cmds0[ks0].Plot? && cmds0[ks0].y <= south0 + 1
    ensures north + south == north0 + south0
    ensures north - south >= height && (north - south == north0 - south0 || north - south <= height + 1)
    ensures |cmds| >= |cmds0| && cmds[..|cmds0|] == cmds0
    ensures forall k | 0 <= k < |cmds| :: Painted(cmds[k], stroke, fill, west + east)
    ensures Mirrored(cmds, stroke, fill, west + east, north0 + south0)
    ensures 0 <= kn < |cmds| && cmds[kn].Plot? && cmds[kn].y >= north - 1
    ensures 0 <= ks < |cmds| && cmds[ks].Plot? && cmds[ks].y <= south + 1
  {
    cmds, north, south, kn, ks := cmds0, north0, south0, kn0, ks0;
    while north - south < height
      invariant north + south == north0 + south0
      invariant north - south == north0 - south0 || north - south <= height + 1
      invariant |cmds| >= |cmds0| && cmds[..|cmds0|] == cmds0
      invariant forall k | 0 <= k < |cmds| :: Painted(cmds[k], stroke, fill, west + east)
      invariant Mirrored(cmds, stroke, fill, west + east, north0 + south0)
      invariant 0 <= kn < |cmds| && cmds[kn].Plot? && cmds[kn].y >= north - 1
      invariant 0 <= ks < |cmds| && cmds[ks].Plot? && cmds[ks].y <= south + 1
      decreases height - (north - south)
    {
      var cap := Cap(stroke, west, east, north, south);
      assert Mirrored(cap, stroke, fill, west + east, north0 + south0);
      Extend(cmds, cap, stroke, fill, west + east, north0 + south0);
      kn, ks := |cmds|, |cmds| + 2;
      cmds := cmds + cap;
      north := north + 1;
      south := south - 1;
    }
  }

  /** The commands `drawOval` issues: the main scan, then for an outline the
      closing loop. */
  method OvalCommands(stroke: int, fill: int, x: int, y: int, width: int, height: int) returns (cmds: seq<Cmd>)
    ensures stroke == OPTIONAL_COLOR_NONE && fill == OPTIONAL_COLOR_NONE ==> cmds == []
    ensures forall k | 0 <= k < |cmds| :: Painted(cmds[k], stroke, fill, 2 * x + width - 1)
    ensures height >= 1 ==> Mirrored(cmds, stroke, fill, 2 * x + width - 1, 2 * y + height - 1)
    // the first pass marks the rightmost and leftmost columns on the middle row
    ensures stroke != OPTIONAL_COLOR_NONE ==>
      |cmds| >= 2 && cmds[0] == Plot(stroke, x + width - 1, y + height / 2) && cmds[1] == Plot(stroke, x, y + height / 2)
    // the top and bottom rows are reached
    ensures stroke != OPTIONAL_COLOR_NONE && height >= 1 ==>
      (exists k | 0 <= k < |cmds| :: cmds[k].Plot? && cmds[k].y >= y + height - 1) &&
      (exists k | 0 <= k < |cmds| :: cmds[k].Plot? && cmds[k].y <= y)
    // a fill colour fills the middle row between the outermost columns
    ensures fill != OPTIONAL_COLOR_NONE && width >= 3 ==> Span(fill, x + 1, y + height / 2, x + width - 1) in cmds
  {
    if stroke == OPTIONAL_COLOR_NONE && fill == OPTIONAL_COLOR_NONE {
      return [];
    }
    var scanned, west, east, north, south, kn, ks := Scan(stroke, fill, x, y, width, height);
    assert height >= 1 ==> north + south == 2 * y + height - 1;
    cmds := scanned;
    if stroke != OPTIONAL_COLOR_NONE {
      var n, s;
      cmds, n, s, kn, ks := Close(stroke, fill, scanned, west, east, north, south, height, kn, ks);
      assert cmds[0] == scanned[0] && cmds[1] == scanned[1];
      if fill != OPTIONAL_COLOR_NONE && width >= 3 {
        var k :| 0 <= k < |scanned| && scanned[k] == Span(fill, x + 1, y + height / 2, x + width - 1);
        assert cmds[k] == scanned[k];
      }
      if height >= 1 {
        // n - s has the parity of height - 1, so it passed height
        assert n - s - (height - 1) == 2 * (y - s);
        assert cmds[kn].y >= y + height - 1;
        assert cmds[ks].y <= y;
      }
    }
  }

  /** `drawOval(stroke, fill, x, y, width, height)`. */
  method DrawOval(fb: Fb, stroke: int, fill: int, x: int, y: int, width: int, height: int) returns (r: Fb, cmds: seq<Cmd>)
    requires Valid(fb)
    ensures r == Apply(fb, cmds)
    ensures Valid(r) && r.changed >= fb.changed
    ensures stroke == OPTIONAL_COLOR_NONE && fill == OPTIONAL_COLOR_NONE ==> r == fb
    ensures forall k | 0 <= k < |cmds| :: Painted(cmds[k], stroke, fill, 2 * x + width - 1)
    ensures height >= 1 ==> Mirrored(cmds, stroke, fill, 2 * x + width - 1, 2 * y + height - 1)
    // the first pass marks the rightmost and leftmost columns on the middle row
    ensures stroke != OPTIONAL_COLOR_NONE ==>
      |cmds| >= 2 && cmds[0] == Plot(stroke, x + width - 1, y + height / 2) && cmds[1] == Plot(stroke, x, y + height / 2)
    // the top and bottom rows are reached
    ensures stroke != OPTIONAL_COLOR_NONE && height >= 1 ==>
      (exists k | 0 <= k < |cmds| :: cmds[k].Plot? && cmds[k].y >= y + height - 1) &&
      (exists k | 0 <= k < |cmds| :: cmds[k].Plot? && cmds[k].y <= y)
    // an outline alone paints exactly the plotted points
    ensures fill == OPTIONAL_COLOR_NONE ==> forall cx, cy | OnScreen(cx, cy) ::
      At(r.pixels, cx, cy) == if Plot(stroke, cx, cy) in cmds then ToUint16(stroke) else At(fb.pixels, cx, cy)
    // so both ends of the middle row take the stroke colour when on screen
    ensures fill == OPTIONAL_COLOR_NONE && stroke != OPTIONAL_COLOR_NONE && OnScreen(x + width - 1, y + height / 2) ==>
      At(r.pixels, x + width - 1, y + height / 2) == ToUint16(stroke)
    ensures fill == OPTIONAL_COLOR_NONE && stroke != OPTIONAL_COLOR_NONE && OnScreen(x, y + height / 2) ==>
      At(r.pixels, x, y + height / 2) == ToUint16(stroke)
    // a fill colour fills the middle row between the outermost columns
    ensures fill != OPTIONAL_COLOR_NONE && width >= 3 ==> Span(fill, x + 1, y + height / 2, x + width - 1) in cmds
    // a fill alone paints exactly the cells of the emitted runs
    ensures stroke == OPTIONAL_COLOR_NONE ==> forall cx, cy | OnScreen(cx, cy) ::
      At(r.pixels, cx, cy) == if CoveredBy(cmds, cx, cy) then ToUint16(fill) else At(fb.pixels, cx, cy)
    // so the middle row between the outermost columns takes the fill colour when on screen
    ensures stroke == OPTIONAL_COLOR_NONE && fill != OPTIONAL_COLOR_NONE && width >= 3 ==>
      forall cx, cy | cy == y + height / 2 && x + 1 <= cx < x + width - 1 && OnScreen(cx, cy) :: At(r.pixels, cx, cy) == ToUint16(fill)
  {
    cmds := OvalCommands(stroke, fill, x, y, width, height);
    r := Apply(fb, cmds);
    if fill == OPTIONAL_COLOR_NONE {
      forall cx, cy | OnScreen(cx, cy)
        ensures At(r.pixels, cx, cy) == if Plot(stroke, cx, cy) in cmds then ToUint16(stroke) else At(fb.pixels, cx, cy)
      {
        LastCoverOfPlots(cmds, stroke, cx, cy);
      }
      if stroke != OPTIONAL_COLOR_NONE {
        assert Plot(stroke, x + width - 1, y + height / 2) in cmds && Plot(stroke, x, y + height / 2) in cmds;
      }
    }
    if stroke == OPTIONAL_COLOR_NONE {
      assert forall k | 0 <= k < |cmds| :: cmds[k].color == fill;
      forall cx, cy | OnScreen(cx, cy)
        ensures At(r.pixels, cx, cy) == if CoveredBy(cmds, cx, cy) then ToUint16(fill) else At(fb.pixels, cx, cy)
      {
        LastCoverOfOneColour(cmds, fill, cx, cy);
      }
      if fill != OPTIONAL_COLOR_NONE && width >= 3 {
        var k :| 0 <= k < |cmds| && cmds[k] == Span(fill, x + 1, y + height / 2, x + width - 1);
        forall cx, cy | cy == y + height / 2 && x + 1 <= cx < x + width - 1 && OnScreen(cx, cy)
          ensures At(r.pixels, cx, cy) == ToUint16(fill)
        {
          assert Covers(cmds[k], cx, cy);
        }
      }
    }
  }
}
