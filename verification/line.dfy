/** `drawLine`: Bresenham's algorithm with the endpoints ordered top to
    bottom.  The source keeps `err` as a half-integer (it starts at a half of
    `dx` or of `-dy`); the model keeps twice its value, `e`, so every
    comparison and update is on integers:
      err > -dx  <==>  e > -2 dx        err < dy  <==>  e < 2 dy. */
module Line {
  import opened JsNumbers
  import opened Constants
  import opened Framebuffer
  import opened Outcomes
  import opened Commands

  function Max(a: int, b: int): int
  {
    if a < b then b else a
  }

  /** Twice the initial `err`. */
  function StartError(dx: nat, dy: nat): int
  {
    if dx > dy then dx else 0 - dy
  }

  /** Columns still to go from `x` to `x2` in the direction `sx`. */
  function Remaining(x: int, x2: int, sx: int): int
  {
    if sx == 1 then x2 - x else x - x2
  }

  /** `a * b` as `a` repeated additions of `b`.  The error invariant below
      is written with it, so that its products are unfolded only where a
      proof asks for them. */
  function Times(a: nat, b: int): int
  {
    if a == 0 then 0 else Times(a - 1, b) + b
  }

  lemma {:induction false} TimesIsProduct(a: nat, b: int)
    ensures Times(a, b) == a * b
  {
    if a > 0 {
      TimesIsProduct(a - 1, b);
      assert (a - 1) * b + b == a * b;
    }
  }

  /** A positive count of a natural number is at least that number. */
  lemma TimesAtLeast(a: nat, b: nat)
    requires a >= 1
    ensures Times(a, b) >= b
  {
    TimesIsProduct(a, b);
    assert a * b == (a - 1) * b + b;
  }

  /** The state of the walk: neither coordinate has overshot its target, and
      the doubled error records how far the walk is from the ideal line. */
  predicate Walking(x: int, y: int, x2: int, y2: int, sx: int, dx: nat, dy: nat, e: int)
  {
    var rx := Remaining(x, x2, sx);
    var ry := y2 - y;
    (sx == 1 || sx == -1) && 0 <= rx <= dx && 0 <= ry <= dy &&
    e == StartError(dx, dy) + 2 * Times(rx, dy) - 2 * Times(ry, dx) &&
    (dx > dy ==> 0 <= e <= 2 * dx) &&
    (dx <= dy ==> -2 * dy <= e <= 0)
  }

  /** Each point is a king's move from the previous one: down by 0 or 1 row,
      across by 0 or one column towards the target, never standing still. */
  predicate Step(p: Cmd, q: Cmd, sx: int)
    requires p.Plot? && q.Plot?
  {
    (q.y == p.y || q.y == p.y + 1) && (q.x == p.x || q.x == p.x + sx) && q != p
  }

  /** One pass of the loop body: the column moves when `err > -dx`, the row
      when `err < dy`, both tested on the error before the pass. */
  function Next(x: int, y: int, sx: int, dx: nat, dy: nat, e: int): (int, int, int)
  {
    var xStep := e > -2 * dx;
    var yStep := e < 2 * dy;
    (if xStep then x + sx else x,
     if yStep then y + 1 else y,
     e - (if xStep then 2 * dy else 0) + (if yStep then 2 * dx else 0))
  }

  /** On a mostly horizontal line every pass moves a column, and the row
      target is met no later than the column target. */
  lemma MostlyHorizontal(x: int, y: int, x2: int, y2: int, sx: int, dx: nat, dy: nat, e: int)
    requires Walking(x, y, x2, y2, sx, dx, dy, e) && !(x == x2 && y == y2) && dx > dy
    ensures e > -2 * dx && Remaining(x, x2, sx) > 0
    ensures y == y2 ==> !(e < 2 * dy)
  {
    var rx := Remaining(x, x2, sx);
    var ry := y2 - y;
    if rx == 0 {
      TimesAtLeast(ry, dx);
      assert false;
    }
    if ry == 0 {
      TimesAtLeast(rx, dy);
    }
  }

  /** On a mostly vertical line every pass moves a row, and the column target
      is met no later than the row target. */
  lemma MostlyVertical(x: int, y: int, x2: int, y2: int, sx: int, dx: nat, dy: nat, e: int)
    requires Walking(x, y, x2, y2, sx, dx, dy, e) && !(x == x2 && y == y2) && dx <= dy
    ensures e < 2 * dy && y < y2
    ensures x == x2 ==> !(e > -2 * dx)
  {
    var rx := Remaining(x, x2, sx);
    var ry := y2 - y;
    if ry == 0 {
      TimesAtLeast(rx, dy);
      assert false;
    }
    if rx == 0 {
      TimesAtLeast(ry, dx);
    }
  }

  /** Away from the target a pass moves, never overshoots, and the walk along
      the longer axis advances every pass. */
  lemma NextWalks(x: int, y: int, x2: int, y2: int, sx: int, dx: nat, dy: nat, e: int)
    requires Walking(x, y, x2, y2, sx, dx, dy, e) && !(x == x2 && y == y2)
    ensures var (x', y', e') := Next(x, y, sx, dx, dy, e);
      Walking(x', y', x2, y2, sx, dx, dy, e') &&
      (dx > dy ==> x' == x + sx) && (dx <= dy ==> y' == y + 1) &&
      (y' == y || y' == y + 1) && (x' == x || x' == x + sx) && (x', y') != (x, y) &&
      (dy == 0 ==> y' == y && x' == x + sx)
  {
    if dx > dy {
      MostlyHorizontal(x, y, x2, y2, sx, dx, dy, e);
    } else {
      MostlyVertical(x, y, x2, y2, sx, dx, dy, e);
    }
  }

  /** The points the loop plots from (x, y) on: one per column of a mostly
      horizontal line, one per row of a mostly vertical one. */
  function Trace(color: int, x: int, y: int, x2: int, y2: int, sx: int, dx: nat, dy: nat, e: int): (pts: seq<Cmd>)
    requires Walking(x, y, x2, y2, sx, dx, dy, e)
    ensures |pts| == (if dx > dy then Remaining(x, x2, sx) else y2 - y) + 1
    ensures forall k | 0 <= k < |pts| :: pts[k].Plot? && pts[k].color == color
    decreases Remaining(x, x2, sx) + (y2 - y)
  {
    if x == x2 && y == y2 then
      assert dx > dy ==> Remaining(x, x2, sx) == 0;
      [Plot(color, x, y)]
    else
      NextWalks(x, y, x2, y2, sx, dx, dy, e);
      var (x', y', e') := Next(x, y, sx, dx, dy, e);
      [Plot(color, x, y)] + Trace(color, x', y', x2, y2, sx, dx, dy, e')
  }

  /** The walk starts at (x, y) and ends exactly on the target. */
  lemma {:induction false} TraceEnds(color: int, x: int, y: int, x2: int, y2: int, sx: int, dx: nat, dy: nat, e: int)
    requires Walking(x, y, x2, y2, sx, dx, dy, e)
    ensures var pts := Trace(color, x, y, x2, y2, sx, dx, dy, e);
      pts[0] == Plot(color, x, y) && pts[|pts| - 1] == Plot(color, x2, y2)
    decreases Remaining(x, x2, sx) + (y2 - y)
  {
    if !(x == x2 && y == y2) {
      NextWalks(x, y, x2, y2, sx, dx, dy, e);
      var (x', y', e') := Next(x, y, sx, dx, dy, e);
      TraceEnds(color, x', y', x2, y2, sx, dx, dy, e');
      assert var rest := Trace(color, x', y', x2, y2, sx, dx, dy, e');
        rest[|rest| - 1] == Plot(color, x2, y2);
      var rest := Trace(color, x', y', x2, y2, sx, dx, dy, e');
      assert Trace(color, x, y, x2, y2, sx, dx, dy, e) == [Plot(color, x, y)] + rest;
    }
  }

  /** Consecutive points of the walk are a king's move apart. */
  lemma {:induction false} TraceSteps(color: int, x: int, y: int, x2: int, y2: int, sx: int, dx: nat, dy: nat, e: int)
    requires Walking(x, y, x2, y2, sx, dx, dy, e)
    ensures var pts := Trace(color, x, y, x2, y2, sx, dx, dy, e);
      forall k | 0 < k < |pts| :: Step(pts[k - 1], pts[k], sx)
    decreases Remaining(x, x2, sx) + (y2 - y)
  {
    if !(x == x2 && y == y2) {
      NextWalks(x, y, x2, y2, sx, dx, dy, e);
      var (x', y', e') := Next(x, y, sx, dx, dy, e);
      TraceSteps(color, x', y', x2, y2, sx, dx, dy, e');
      TraceEnds(color, x', y', x2, y2, sx, dx, dy, e');
    }
  }

  /** A horizontal walk visits consecutive columns. */
  lemma {:induction false} TraceHorizontal(color: int, x: int, y: int, x2: int, sx: int, dx: nat, e: int)
    requires Walking(x, y, x2, y, sx, dx, 0, e)
    ensures var pts := Trace(color, x, y, x2, y, sx, dx, 0, e);
      forall k | 0 <= k < |pts| :: pts[k] == Plot(color, if sx == 1 then x + k else x - k, y)
    decreases Remaining(x, x2, sx)
  {
    if x != x2 {
      NextWalks(x, y, x2, y, sx, dx, 0, e);
      var (x', y', e') := Next(x, y, sx, dx, 0, e);
      TraceHorizontal(color, x', y, x2, sx, dx, e');
      var pts := Trace(color, x, y, x2, y, sx, dx, 0, e);
      var rest := Trace(color, x', y, x2, y, sx, dx, 0, e');
      assert pts == [Plot(color, x, y)] + rest;
      assert var p := Trace(color, x', y, x2, y, sx, dx, 0, e');
        forall k | 0 <= k < |p| :: p[k] == Plot(color, if sx == 1 then x' + k else x' - k, y);
      forall k | 0 < k < |pts|
        ensures pts[k] == Plot(color, if sx == 1 then x + k else x - k, y)
      {
        assert pts[k] == rest[k - 1];
      }
    }
  }

  /** The direction of the walk along x. */
  function Direction(x1: int, x2: int): int
  {
    if x1 < x2 then 1 else -1
  }

  /** The walk from an upper end point starts in its invariant. */
  lemma StartWalking(x1: int, y1: int, x2: int, y2: int)
    requires y1 <= y2
    ensures var dx := Abs(x2 - x1);
      Walking(x1, y1, x2, y2, Direction(x1, x2), dx, y2 - y1, StartError(dx, y2 - y1))
  {
    var dx := Abs(x2 - x1);
    var dy := y2 - y1;
    TimesIsProduct(dx, dy);
    TimesIsProduct(dy, dx);
    assert Times(dx, dy) == Times(dy, dx) by {
      assert dx * dy == dy * dx;
    }
    assert Remaining(x1, x2, Direction(x1, x2)) == dx;
  }

  /** The loop of `drawLine` once the end points are ordered top to bottom. */
  function Downward(color: int, x1: int, y1: int, x2: int, y2: int): (pts: seq<Cmd>)
    requires y1 <= y2
    ensures |pts| == Max(Abs(x2 - x1), y2 - y1) + 1
    ensures forall k | 0 <= k < |pts| :: pts[k].Plot? && pts[k].color == color
    ensures pts[0] == Plot(color, x1, y1) && pts[|pts| - 1] == Plot(color, x2, y2)
    ensures forall k | 0 < k < |pts| :: Step(pts[k - 1], pts[k], Direction(x1, x2))
  {
    var dx := Abs(x2 - x1);
    var dy := y2 - y1;
    StartWalking(x1, y1, x2, y2);
    TraceEnds(color, x1, y1, x2, y2, Direction(x1, x2), dx, dy, StartError(dx, dy));
    TraceSteps(color, x1, y1, x2, y2, Direction(x1, x2), dx, dy, StartError(dx, dy));
    Trace(color, x1, y1, x2, y2, Direction(x1, x2), dx, dy, StartError(dx, dy))
  }

  /** `drawLine(color, x1, y1, x2, y2)`: the endpoints are swapped when the
      first lies below the second, so the walk always runs downwards. */
  function LineCommands(color: int, x1: int, y1: int, x2: int, y2: int): (pts: seq<Cmd>)
    ensures |pts| == Max(Abs(x2 - x1), Abs(y2 - y1)) + 1
    ensures forall k | 0 <= k < |pts| :: pts[k].Plot? && pts[k].color == color
    ensures y1 <= y2 ==> pts[0] == Plot(color, x1, y1) && pts[|pts| - 1] == Plot(color, x2, y2)
    ensures y1 > y2 ==> pts[0] == Plot(color, x2, y2) && pts[|pts| - 1] == Plot(color, x1, y1)
    ensures forall k | 0 < k < |pts| :: Step(pts[k - 1], pts[k], if y1 <= y2 then Direction(x1, x2) else Direction(x2, x1))
  {
    if y1 > y2 then
      assert Abs(x1 - x2) == Abs(x2 - x1);
      Downward(color, x2, y2, x1, y1)
    else Downward(color, x1, y1, x2, y2)
  }

  /** The cells the line paints: exactly its points, each counted once per
      plot that lands on the screen. */
  function DrawLine(fb: Fb, color: int, x1: int, y1: int, x2: int, y2: int): (r: Fb)
    requires Valid(fb)
    ensures Valid(r)
    ensures forall cx, cy | OnScreen(cx, cy) ::
      At(r.pixels, cx, cy) ==
        if Plot(color, cx, cy) in LineCommands(color, x1, y1, x2, y2) then ToUint16(color) else At(fb.pixels, cx, cy)
    ensures r.changed == fb.changed + TotalCost(LineCommands(color, x1, y1, x2, y2))
  {
    var pts := LineCommands(color, x1, y1, x2, y2);
    forall cx, cy | OnScreen(cx, cy)
      ensures LastCover(pts, cx, cy) == if Plot(color, cx, cy) in pts then Some(color) else None
    {
      LastCoverOfPlots(pts, color, cx, cy);
    }
    Apply(fb, pts)
  }

  /** A horizontal line is walked right to left when given right to left:
      the same points in the opposite order. */
  lemma HorizontalReversed(color: int, x1: int, x2: int, y: int)
    ensures LineCommands(color, x2, y, x1, y) == Reversed(LineCommands(color, x1, y, x2, y))
  {
    var f := LineCommands(color, x1, y, x2, y);
    var b := LineCommands(color, x2, y, x1, y);
    var dx := Abs(x2 - x1);
    var sf := Direction(x1, x2);
    var sb := Direction(x2, x1);
    StartWalking(x1, y, x2, y);
    StartWalking(x2, y, x1, y);
    assert Abs(x1 - x2) == dx;
    TraceHorizontal(color, x1, y, x2, sf, dx, StartError(dx, 0));
    TraceHorizontal(color, x2, y, x1, sb, dx, StartError(dx, 0));
    assert f == Trace(color, x1, y, x2, y, sf, dx, 0, StartError(dx, 0));
    assert b == Trace(color, x2, y, x1, y, sb, dx, 0, StartError(dx, 0));
    assert var p := Trace(color, x1, y, x2, y, sf, dx, 0, StartError(dx, 0));
      forall k | 0 <= k < |p| :: p[k] == Plot(color, if sf == 1 then x1 + k else x1 - k, y);
    assert var p := Trace(color, x2, y, x1, y, sb, dx, 0, StartError(dx, 0));
      forall k | 0 <= k < |p| :: p[k] == Plot(color, if sb == 1 then x2 + k else x2 - k, y);
    assert |f| == |b| == dx + 1;
    forall k | 0 <= k < |b|
      ensures b[k] == f[|f| - 1 - k]
    {
    }
  }

  /** The line does not depend on the order its endpoints are given in. */
  lemma DrawLineSymmetric(fb: Fb, color: int, x1: int, y1: int, x2: int, y2: int)
    requires Valid(fb)
    ensures DrawLine(fb, color, x1, y1, x2, y2) == DrawLine(fb, color, x2, y2, x1, y1)
  {
    if y1 == y2 {
      var f := LineCommands(color, x1, y1, x2, y2);
      var b := LineCommands(color, x2, y2, x1, y1);
      HorizontalReversed(color, x1, x2, y1);
      TotalCostReversed(f);
      var r := DrawLine(fb, color, x1, y1, x2, y2);
      var s := DrawLine(fb, color, x2, y2, x1, y1);
      forall cx, cy | OnScreen(cx, cy)
        ensures At(r.pixels, cx, cy) == At(s.pixels, cx, cy)
      {
        InReversed(f, Plot(color, cx, cy));
      }
      PixelsExtensional(r.pixels, s.pixels);
    }
  }
}
