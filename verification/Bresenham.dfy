/** `draw_line` of kernel/src/gui/framebuffer.rs: Bresenham's algorithm in 32-bit arithmetic, proved against
    `LineRun`. */
module Bresenham {
  import opened LineError
  import opened LineRun

  /** The surface, reduced to the points passed to `set_pixel`, in order. */
  class Surface {
    var plotted: seq<Point>

    method SetPixel(x: i32, y: i32)
      modifies this
      ensures plotted == old(plotted) + [Point(x, y)]
    {
      plotted := plotted + [Point(x, y)];
    }

    /** The rest of a round once the point is plotted and is not the last. */
    method NextPoint(dx: i32, dy: i32, a: Point, b: Point, x: i32, y: i32, err: i32)
      returns (x': i32, y': i32, err': i32)
      ensures State(x', y', err') == RoundBy(dx, dy, a, b, State(x, y, err))
    {
      var e2 := Wrap(2 * err);
      x', y', err' := x, y, err;
      if e2 >= dy {
        err' := Wrap(err' + dy);
        x' := Wrap(Toward(a.x, b.x, x'));
      }
      if e2 <= dx {
        err' := Wrap(err' + dx);
        y' := Wrap(Toward(a.y, b.y, y'));
      }
    }

    /** The loop. */
    method PlotRounds(a: Point, b: Point)
      requires EndsOnce(a, b)
      modifies this
      ensures plotted == old(plotted) + Plotted(a, b, Steps(a, b) + 1)
    {
      var dx: int, dy: int := Side(a.x, b.x), Minus(Side(a.y, b.y));
      var x, y, err := a.x, a.y, Wrap(dx + dy);
      ghost var n := 0;
      while true
        invariant n <= Steps(a, b) && State(x, y, err) == Run(a, b, n)
        invariant plotted == old(plotted) + Plotted(a, b, n)
        decreases Steps(a, b) - n
      {
        SetPixel(x, y);
        assert plotted == old(plotted) + Plotted(a, b, n + 1);
        if x == b.x && y == b.y {
          break;
        }
        x, y, err := NextPoint(dx, dy, a, b, x, y, err);
        n := n + 1;
      }
    }

    /** Plots exactly max(|dx|, |dy|) + 1 points from `a` to `b`, the k-th of them k steps along the longer
        side, inside the box of the endpoints and within half a pixel of the ideal line. `LineRun.DrawsIffFits`
        says that no other line whose sides fit is drawn right. */
    method DrawLine(a: Point, b: Point)
      requires SidesFit(a, b) && Fits(a, b)
      modifies this
      ensures plotted == old(plotted) + Plotted(a, b, Steps(a, b) + 1)
      ensures Draws(a, b, plotted[|old(plotted)|..])
    {
      FitsDraws(a, b);
      PlotRounds(a, b);
    }
  }
}
