/*
  What the circle and ellipse loops of the driver draw
  (pico/ssd1309.py:289-381, 597-675) and what the last loop of fill_polygon
  draws from its span table (pico/ssd1309.py:769-771): the calls of one loop
  iteration, one iteration of each recurrence unfolded against the calls it
  makes, and what the whole outline or fill does to every pixel of the screen.
*/
module Shapes {
  import opened Bits
  import opened FrameBuf
  import opened Draw
  import Scan
  import Polygon

  // ---------------------------------------------------------------------------
  // The calls of one iteration

  /** The four draw_pixel calls of one draw_ellipse iteration, in the source's order. */
  lemma PlottedQuadrants(frame: seq<bv8>, W: int, H: int, x0: int, y0: int, x: int, y: int, invert: bool)
    ensures Plotted(frame, W, H, x0, y0, Scan.Quadrants(x, y), invert) ==
            PixelDrawn(PixelDrawn(PixelDrawn(PixelDrawn(frame, W, H, x0 + x, y0 + y, invert),
              W, H, x0 - x, y0 + y, invert), W, H, x0 + x, y0 - y, invert), W, H, x0 - x, y0 - y, invert)
  {
    PlottedFour(frame, W, H, x0, y0, (x, y), (-x, y), (x, -y), (-x, -y), invert);
  }

  /** The four draw_vline calls of one fill_circle iteration, in the source's order. */
  lemma RunsOfCircle(frame: seq<bv8>, W: int, H: int, x0: int, y0: int, x: int, y: int, invert: bool)
    ensures RunsDrawn(frame, W, H, x0, y0, Scan.CircleRuns(x, y), invert) ==
            VLineDrawn(VLineDrawn(VLineDrawn(VLineDrawn(frame, W, H, x0 + x, y0 - y, 2 * y + 1, invert),
              W, H, x0 - x, y0 - y, 2 * y + 1, invert), W, H, x0 - y, y0 - x, 2 * x + 1, invert),
              W, H, x0 + y, y0 - x, 2 * x + 1, invert)
  {
    RunsDrawnFour(frame, W, H, x0, y0, (x, -y, 2 * y + 1), (-x, -y, 2 * y + 1), (-y, -x, 2 * x + 1), (y, -x, 2 * x + 1), invert);
  }

  /** The two draw_line calls of one fill_ellipse iteration, in the source's order. */
  lemma ChordsOfEllipse(frame: seq<bv8>, W: int, H: int, x0: int, y0: int, x: int, y: int,
                        invert: bool, raster: Raster)
    ensures ChordsDrawn(frame, W, H, x0, y0, Scan.Chords(x, y), invert, raster) ==
            LineDrawn(LineDrawn(frame, W, H, x0 + x, y0 - y, x0 + x, y0 + y, invert, raster),
                      W, H, x0 - x, y0 - y, x0 - x, y0 + y, invert, raster)
  {
    ChordsDrawnTwo(frame, W, H, x0, y0, (x, -y, x, y), (-x, -y, -x, y), invert, raster);
  }

  // ---------------------------------------------------------------------------
  // One iteration of each loop: what is left to draw shrinks by what it draws

  /** draw_circle's axis points, then what its loop has left to plot, make up its whole outline. */
  lemma AxesThenOctants(frame: seq<bv8>, axesDrawn: seq<bv8>, W: int, H: int, x0: int, y0: int, r: int, invert: bool)
    requires axesDrawn == Plotted(frame, W, H, x0, y0, [(0, r), (0, -r), (r, 0), (-r, 0)], invert)
    ensures Plotted(axesDrawn, W, H, x0, y0, Scan.OctantsOf(Scan.CircleStates(Scan.CircleStart(r))), invert) ==
            Plotted(frame, W, H, x0, y0, Scan.CirclePoints(r), invert)
  {
    PlottedAppend(frame, W, H, x0, y0, [(0, r), (0, -r), (r, 0), (-r, 0)],
                  Scan.OctantsOf(Scan.CircleStates(Scan.CircleStart(r))), invert);
  }

  lemma CircleStepPlotted(frame: seq<bv8>, W: int, H: int, x0: int, y0: int, s: Scan.Circle, invert: bool)
    requires s.x < s.y
    ensures var t := Scan.CircleStep(s);
            Plotted(frame, W, H, x0, y0, Scan.OctantsOf(Scan.CircleStates(s)), invert) ==
            Plotted(Plotted(frame, W, H, x0, y0, Scan.Octants(t.x, t.y), invert), W, H, x0, y0,
                    Scan.OctantsOf(Scan.CircleStates(t)), invert)
  {
    var t := Scan.CircleStep(s);
    var states := Scan.CircleStates(s);
    assert states == [t] + Scan.CircleStates(t);
    assert states[0] == t && states[1..] == Scan.CircleStates(t);
    PlottedAppend(frame, W, H, x0, y0, Scan.Octants(t.x, t.y), Scan.OctantsOf(Scan.CircleStates(t)), invert);
  }

  lemma CircleStepRuns(frame: seq<bv8>, W: int, H: int, x0: int, y0: int, s: Scan.Circle, invert: bool)
    requires s.x < s.y
    ensures var t := Scan.CircleStep(s);
            RunsDrawn(frame, W, H, x0, y0, Scan.CircleRunsOf(Scan.CircleStates(s)), invert) ==
            RunsDrawn(RunsDrawn(frame, W, H, x0, y0, Scan.CircleRuns(t.x, t.y), invert), W, H, x0, y0,
                      Scan.CircleRunsOf(Scan.CircleStates(t)), invert)
  {
    var t := Scan.CircleStep(s);
    var states := Scan.CircleStates(s);
    assert states == [t] + Scan.CircleStates(t);
    assert states[0] == t && states[1..] == Scan.CircleStates(t);
    RunsDrawnAppend(frame, W, H, x0, y0, Scan.CircleRuns(t.x, t.y), Scan.CircleRunsOf(Scan.CircleStates(t)), invert);
  }

  /** The quadrant points of a sequence of ellipse states that starts with s. */
  lemma QuadrantsCons(frame: seq<bv8>, W: int, H: int, x0: int, y0: int, s: Scan.Ellipse,
                      rest: seq<Scan.Ellipse>, invert: bool)
    ensures Plotted(frame, W, H, x0, y0, Scan.QuadrantsOf([s] + rest), invert) ==
            Plotted(Plotted(frame, W, H, x0, y0, Scan.Quadrants(s.x, s.y), invert), W, H, x0, y0,
                    Scan.QuadrantsOf(rest), invert)
  {
    var states := [s] + rest;
    assert states[0] == s && states[1..] == rest;
    PlottedAppend(frame, W, H, x0, y0, Scan.Quadrants(s.x, s.y), Scan.QuadrantsOf(rest), invert);
  }

  /** The chords of a sequence of ellipse states that starts with s. */
  lemma ChordsCons(frame: seq<bv8>, W: int, H: int, x0: int, y0: int, s: Scan.Ellipse,
                   rest: seq<Scan.Ellipse>, invert: bool, raster: Raster)
    ensures ChordsDrawn(frame, W, H, x0, y0, Scan.ChordsOf([s] + rest), invert, raster) ==
            ChordsDrawn(ChordsDrawn(frame, W, H, x0, y0, Scan.Chords(s.x, s.y), invert, raster), W, H, x0, y0,
                        Scan.ChordsOf(rest), invert, raster)
  {
    var states := [s] + rest;
    assert states[0] == s && states[1..] == rest;
    ChordsDrawnAppend(frame, W, H, x0, y0, Scan.Chords(s.x, s.y), Scan.ChordsOf(rest), invert, raster);
  }

  // ---------------------------------------------------------------------------
  // What the whole shapes do to the screen

  /** draw_circle sets exactly the on-screen pixels whose offset from the centre
      it plots, and every one of them lies within half a pixel's error of the
      circle of radius r: |dx² + dy² - r²| <= max(|dx|, |dy|). */
  lemma CircleOutlinePixels(frame: seq<bv8>, W: int, H: int, x0: int, y0: int, r: int, invert: bool,
                            px: int, py: int)
    requires r >= 0 && 0 <= px < W && 0 <= py < H && |frame| >= ByteSize(H) * W
    ensures VPix(Plotted(frame, W, H, x0, y0, Scan.CirclePoints(r), invert), W, px, py) ==
            if (px - x0, py - y0) in Scan.CirclePoints(r) then !invert else VPix(frame, W, px, py)
    ensures (px - x0, py - y0) in Scan.CirclePoints(r) ==> Scan.NearCircle(r, (px - x0, py - y0))
  {
    PlottedPixels(frame, W, H, x0, y0, Scan.CirclePoints(r), invert, px, py);
    Scan.CirclePointsNear(r);
  }

  /** Each vertical run fill_circle draws starts and ends on a point draw_circle plots. */
  lemma DiskRunsJoinOutline(r: int, k: int)
    requires 0 <= k < |Scan.DiskRuns(r)|
    ensures var (a, b, n) := Scan.DiskRuns(r)[k];
            (a, b) in Scan.CirclePoints(r) && (a, b + n - 1) in Scan.CirclePoints(r)
  {
    var states := Scan.CircleStates(Scan.CircleStart(r));
    var axes, rest := [(0, r), (0, -r), (r, 0), (-r, 0)], Scan.OctantsOf(states);
    var t := Scan.DiskRuns(r)[k];
    assert Scan.CirclePoints(r) == axes + rest;
    if k > 0 {
      assert t == Scan.CircleRunsOf(states)[k - 1];
      Scan.CircleRunsJoinOutline(states, k - 1);
      assert (t.0, t.1) in rest && (t.0, t.1 + t.2 - 1) in rest;
    } else {
      assert t == (0, -r, 2 * r + 1);
      assert (t.0, t.1) == axes[1] && (t.0, t.1 + t.2 - 1) == axes[0];
    }
    Scan.InEither(axes, rest, (t.0, t.1));
    Scan.InEither(axes, rest, (t.0, t.1 + t.2 - 1));
  }

  /** fill_circle sets exactly the on-screen pixels that one of its runs covers
      and that run's draw_vline guard lets through. */
  lemma DiskPixels(frame: seq<bv8>, W: int, H: int, x0: int, y0: int, r: int, invert: bool, px: int, py: int)
    requires 0 <= px < W && 0 <= py < H && |frame| >= ByteSize(H) * W
    ensures VPix(RunsDrawn(frame, W, H, x0, y0, Scan.DiskRuns(r), invert), W, px, py) ==
            if RunsHit(W, H, x0, y0, Scan.DiskRuns(r), px, py) then !invert else VPix(frame, W, px, py)
  {
    RunsDrawnPixels(frame, W, H, x0, y0, Scan.DiskRuns(r), invert, px, py);
  }

  /** Every chord fill_ellipse draws is vertical and joins two points draw_ellipse plots. */
  lemma {:induction false} ChordsOfJoinOutline(states: seq<Scan.Ellipse>, c: (int, int, int, int))
    requires c in Scan.ChordsOf(states)
    ensures c.0 == c.2 && (c.0, c.1) in Scan.QuadrantsOf(states) && (c.2, c.3) in Scan.QuadrantsOf(states)
  {
    var s := states[0];
    assert Scan.ChordsOf(states) == Scan.Chords(s.x, s.y) + Scan.ChordsOf(states[1..]);
    assert Scan.QuadrantsOf(states) == Scan.Quadrants(s.x, s.y) + Scan.QuadrantsOf(states[1..]);
    if c !in Scan.Chords(s.x, s.y) {
      ChordsOfJoinOutline(states[1..], c);
    }
  }

  lemma EllipseChordsJoinOutline(a: int, b: int, c: (int, int, int, int))
    requires c in Scan.EllipseChords(a, b)
    ensures c.0 == c.2 && (c.0, c.1) in Scan.EllipsePoints(a, b) && (c.2, c.3) in Scan.EllipsePoints(a, b)
  {
    if c != (0, -b, 0, b) {
      ChordsOfJoinOutline(Scan.EllipseStates(a, b), c);
    }
  }

  /** draw_ellipse sets exactly the on-screen pixels whose offset from the
      centre it plots, a set symmetric about both axes. */
  lemma EllipseOutlinePixels(frame: seq<bv8>, W: int, H: int, x0: int, y0: int, a: int, b: int, invert: bool,
                             px: int, py: int)
    requires 0 <= px < W && 0 <= py < H && |frame| >= ByteSize(H) * W
    ensures VPix(Plotted(frame, W, H, x0, y0, Scan.EllipsePoints(a, b), invert), W, px, py) ==
            if (px - x0, py - y0) in Scan.EllipsePoints(a, b) then !invert else VPix(frame, W, px, py)
    ensures Scan.Symmetric4(Scan.EllipsePoints(a, b))
  {
    PlottedPixels(frame, W, H, x0, y0, Scan.EllipsePoints(a, b), invert, px, py);
    Scan.EllipsePointsSymmetric(a, b);
  }

  /** fill_ellipse sets exactly the on-screen pixels that one of its chords
      covers and that chord's guard lets through. */
  lemma FilledEllipsePixels(frame: seq<bv8>, W: int, H: int, x0: int, y0: int, a: int, b: int,
                            invert: bool, raster: Raster, px: int, py: int)
    requires 0 <= px < W && 0 <= py < H && |frame| >= ByteSize(H) * W
    ensures VPix(ChordsDrawn(frame, W, H, x0, y0, Scan.EllipseChords(a, b), invert, raster), W, px, py) ==
            if ChordsHit(W, H, x0, y0, Scan.EllipseChords(a, b), px, py) then !invert else VPix(frame, W, px, py)
  {
    forall c | c in Scan.EllipseChords(a, b)
      ensures c.0 == c.2
    {
      EllipseChordsJoinOutline(a, b, c);
    }
    ChordsDrawnPixels(frame, W, H, x0, y0, Scan.EllipseChords(a, b), invert, raster, px, py);
  }

  // ---------------------------------------------------------------------------
  // The polygon fill

  /** Does fill_polygon's draw_hline for row py, from the row's leftmost x and
      max - min + 2 pixels wide, set pixel (px, py)? */
  predicate RowFilled(W: int, H: int, t: Polygon.Table, px: int, py: int)
  {
    py in t &&
    var (x, w) := Polygon.FillRun(t[py]);
    !OffGrid(W, H, x, py, x + w - 1, py) && x <= px < x + w
  }

  /** fill_polygon sets a pixel only between two pixels its edges reach in the
      same row, or one column right of the rightmost; every pixel an edge
      reaches has its row in the table, and is set when that row's run fits on
      the screen. */
  lemma PolygonFill(coords: seq<(int, int)>, W: int, H: int, px: int, py: int)
    requires |coords| >= 1
    ensures var pts, t := Polygon.PolygonPixels(coords), Polygon.Spans(coords);
            (RowFilled(W, H, t, px, py) ==> exists lo, hi :: (lo, py) in pts && (hi, py) in pts && lo <= px <= hi + 1) &&
            ((px, py) in pts ==> py in t) &&
            ((px, py) in pts && py in t && !OffGrid(W, H, t[py].0, py, t[py].1 + 1, py) ==> RowFilled(W, H, t, px, py))
  {
    var pts, t := Polygon.PolygonPixels(coords), Polygon.Spans(coords);
    Polygon.SpansAreMinMax(coords);
    if RowFilled(W, H, t, px, py) {
      assert (t[py].0, py) in pts && (t[py].1, py) in pts;
    }
    if (px, py) in pts {
      var i :| 0 <= i < |pts| && pts[i] == (px, py);
      assert pts[i].1 in t && t[py].0 <= px <= t[py].1;
    }
  }

  /** After fill_polygon has drawn the rows in `done`, in any order: a pixel of
      a done row is set when that row's run covers it and fits, every other
      pixel and every padding bit is as before. */
  predicate RowsFilled(before: seq<bv8>, after: seq<bv8>, W: int, H: int, t: Polygon.Table, done: set<int>, invert: bool)
  {
    |after| == |before| &&
    (forall px, py :: 0 <= px < W && 0 <= py < H ==>
       VPix(after, W, px, py) == if py in done && RowFilled(W, H, t, px, py) then !invert else VPix(before, W, px, py)) &&
    (forall j, d :: 0 <= j < |after| && 0 <= d < 8 && (W <= 0 || (j / W) * 8 + d >= H) ==> Bit(after[j], d) == Bit(before[j], d))
  }

  /** Drawing one more row's run, draw_hline(lo, y, hi - lo + 2), adds that row
      to the done rows, whichever rows came before it. */
  lemma RowsFilledStep(before: seq<bv8>, mid: seq<bv8>, W: int, H: int, t: Polygon.Table, done: set<int>, y: int, invert: bool)
    requires |before| >= ByteSize(H) * W
    requires RowsFilled(before, mid, W, H, t, done, invert) && y in t && y !in done
    ensures RowsFilled(before, HLineDrawn(mid, W, H, Polygon.FillRun(t[y]).0, y, Polygon.FillRun(t[y]).1, invert),
                       W, H, t, done + {y}, invert)
  {
    var (x, w) := Polygon.FillRun(t[y]);
    var after := HLineDrawn(mid, W, H, x, y, w, invert);
    forall px, py | 0 <= px < W && 0 <= py < H
      ensures VPix(after, W, px, py) == if py in done + {y} && RowFilled(W, H, t, px, py) then !invert else VPix(before, W, px, py)
    {
      HLineDrawnPixels(mid, W, H, x, y, w, invert, px, py);
    }
    forall j, d | 0 <= j < |after| && 0 <= d < 8 && (W <= 0 || (j / W) * 8 + d >= H)
      ensures Bit(after[j], d) == Bit(before[j], d)
    {
      GuardedPadding(mid, W, H, OffGrid(W, H, x, y, x + w - 1, y), Ink(HLine(x, y, w), Colour(invert)), j, d);
    }
  }
}
