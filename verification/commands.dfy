/** Drawing commands through the clipping helpers, and what a sequence of them
    does to a framebuffer.  drawOval and drawLine are modelled as the command
    sequence their scan emits, executed in order. */
module Commands {
  import opened JsNumbers
  import opened Constants
  import opened Framebuffer
  import opened Outcomes

  /** `drawPointUnclipped(color, x, y)` or `drawHLineUnclipped(color, startX, y, endX)`. */
  datatype Cmd =
    | Plot(color: int, x: int, y: int)
    | Span(color: int, startX: int, y: int, endX: int)

  predicate Covers(cmd: Cmd, cx: int, cy: int)
  {
    match cmd
    case Plot(_, x, y) => cx == x && cy == y
    case Span(_, startX, y, endX) => cy == y && startX <= cx < endX
  }

  /** The on-screen cells a command writes. */
  function Cost(cmd: Cmd): nat
  {
    match cmd
    case Plot(_, x, y) => if OnScreen(x, y) then 1 else 0
    case Span(_, startX, y, endX) => if 0 <= y < HEIGHT then ClippedLength(startX, endX, WIDTH) else 0
  }

  function TotalCost(cmds: seq<Cmd>): nat
  {
    if cmds == [] then 0 else TotalCost(cmds[..|cmds| - 1]) + Cost(cmds[|cmds| - 1])
  }

  /** The colour of the last command that covers the cell, if any. */
  function LastCover(cmds: seq<Cmd>, cx: int, cy: int): Option<int>
  {
    if cmds == [] then None
    else if Covers(cmds[|cmds| - 1], cx, cy) then Some(cmds[|cmds| - 1].color)
    else LastCover(cmds[..|cmds| - 1], cx, cy)
  }

  function Exec(fb: Fb, cmd: Cmd): (r: Fb)
    requires Valid(fb)
    ensures Valid(r)
  {
    match cmd
    case Plot(color, x, y) => DrawPointUnclipped(fb, color, x, y)
    case Span(color, startX, y, endX) => DrawHLineUnclipped(fb, color, startX, y, endX)
  }

  /** Executing the commands in order: each cell ends with the colour of the
      last command covering it (or keeps its own), and the counter grows by
      the on-screen cells the commands write. */
  function Apply(fb: Fb, cmds: seq<Cmd>): (r: Fb)
    requires Valid(fb)
    ensures Valid(r)
    ensures forall cx, cy | OnScreen(cx, cy) ::
      At(r.pixels, cx, cy) == match LastCover(cmds, cx, cy)
                              case None => At(fb.pixels, cx, cy)
                              case Some(c) => ToUint16(c)
    ensures r.changed == fb.changed + TotalCost(cmds)
    decreases |cmds|
  {
    if cmds == [] then fb
    else Exec(Apply(fb, cmds[..|cmds| - 1]), cmds[|cmds| - 1])
  }

  /** Commands that all plot points of one colour paint exactly their points. */
  lemma {:induction false} LastCoverOfPlots(cmds: seq<Cmd>, color: int, cx: int, cy: int)
    requires forall k | 0 <= k < |cmds| :: cmds[k].Plot? && cmds[k].color == color
    ensures LastCover(cmds, cx, cy) == if Plot(color, cx, cy) in cmds then Some(color) else None
    decreases |cmds|
  {
    if cmds != [] {
      var init := cmds[..|cmds| - 1];
      LastCoverOfPlots(init, color, cx, cy);
      assert cmds == init + [cmds[|cmds| - 1]];
    }
  }

  /** Some command covers the cell. */
  predicate CoveredBy(cmds: seq<Cmd>, cx: int, cy: int)
  {
    exists k | 0 <= k < |cmds| :: Covers(cmds[k], cx, cy)
  }

  /** Commands that all draw in one colour paint exactly the cells they cover. */
  lemma {:induction false} LastCoverOfOneColour(cmds: seq<Cmd>, color: int, cx: int, cy: int)
    requires forall k | 0 <= k < |cmds| :: cmds[k].color == color
    ensures LastCover(cmds, cx, cy) == if CoveredBy(cmds, cx, cy) then Some(color) else None
    decreases |cmds|
  {
    if cmds != [] {
      var init := cmds[..|cmds| - 1];
      LastCoverOfOneColour(init, color, cx, cy);
      if CoveredBy(init, cx, cy) {
        var k :| 0 <= k < |init| && Covers(init[k], cx, cy);
        assert Covers(cmds[k], cx, cy);
      }
      if CoveredBy(cmds, cx, cy) && !Covers(cmds[|cmds| - 1], cx, cy) {
        var k :| 0 <= k < |cmds| && Covers(cmds[k], cx, cy);
        assert Covers(init[k], cx, cy);
      }
    }
  }

  lemma {:induction false} TotalCostAppend(a: seq<Cmd>, b: seq<Cmd>)
    ensures TotalCost(a + b) == TotalCost(a) + TotalCost(b)
    decreases |b|
  {
    if b == [] {
      assert a + b == a;
    } else {
      var b' := b[..|b| - 1];
      TotalCostAppend(a, b');
      assert (a + b)[..|a + b| - 1] == a + b';
      assert (a + b)[|a + b| - 1] == b[|b| - 1];
    }
  }

  function Reversed(s: seq<Cmd>): (r: seq<Cmd>)
    ensures |r| == |s|
    ensures forall k | 0 <= k < |s| :: r[k] == s[|s| - 1 - k]
  {
    if s == [] then [] else [s[|s| - 1]] + Reversed(s[..|s| - 1])
  }

  /** The cells written do not depend on the order of the commands. */
  lemma {:induction false} TotalCostReversed(s: seq<Cmd>)
    ensures TotalCost(Reversed(s)) == TotalCost(s)
    decreases |s|
  {
    if s != [] {
      var init := s[..|s| - 1];
      TotalCostReversed(init);
      TotalCostAppend([s[|s| - 1]], Reversed(init));
      assert TotalCost([s[|s| - 1]]) == Cost(s[|s| - 1]) by {
        assert [s[|s| - 1]][..0] == [];
      }
    }
  }

  lemma InReversed(s: seq<Cmd>, cmd: Cmd)
    ensures cmd in Reversed(s) <==> cmd in s
  {
    var r := Reversed(s);
    if cmd in s {
      var k :| 0 <= k < |s| && s[k] == cmd;
      assert r[|s| - 1 - k] == cmd;
    }
    if cmd in r {
      var k :| 0 <= k < |r| && r[k] == cmd;
      assert s[|s| - 1 - k] == cmd;
    }
  }
}
