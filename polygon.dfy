/*
  The span table of fill_polygon (pico/ssd1309.py:712-768): walking the edges
  of a closed vertex list, it records for every row the leftmost and the
  rightmost pixel any edge reaches in that row. Horizontal edges record their
  two ends; every other edge is walked Bresenham-style along its major axis,
  one pixel per step. The vertex list itself (computed with cos and sin) is an
  input.
*/
module Polygon {

  function Abs(a: int): int { if a < 0 then -a else a }
  function Min(a: int, b: int): int { if a < b then a else b }
  function Max(a: int, b: int): int { if a < b then b else a }

  /** Row y -> (leftmost x, rightmost x): xdict, with [min, max] as a pair. */
  type Table = map<int, (int, int)>

  /** Record pixel (x, y) in the table, widening its row or starting it. */
  function Record(t: Table, x: int, y: int): Table
  {
    t[y := if y in t then (Min(x, t[y].0), Max(x, t[y].1)) else (x, x)]
  }

  /** The table after recording the pixels in order. */
  function Recorded(t: Table, pts: seq<(int, int)>): Table
    decreases |pts|
  {
    if pts == [] then t else Recorded(Record(t, pts[0].0, pts[0].1), pts[1..])
  }

  // ---------------------------------------------------------------------------
  // One edge

  /** The inner loop `for x in range(x, x2 + 1)` over a normalised edge: it
      records (x, y), or (y, x) when the edge was steep and its axes swapped,
      then lowers the error by |dy| and steps y when the error goes negative. */
  function Walk(x: int, x2: int, y: int, error: int, dx: int, ady: int, ystep: int, steep: bool): seq<(int, int)>
    decreases x2 - x + 1
  {
    if x > x2 then []
    else
      var e := error - ady;
      var (y', e') := if e < 0 then (y + ystep, e + dx) else (y, e);
      [if steep then (y, x) else (x, y)] + Walk(x + 1, x2, y', e', dx, ady, ystep, steep)
  }

  /** The walk over an edge normalised so that c1 <= c2: error starts at dx >> 1,
      and y steps towards d2. */
  function Normalised(c1: int, d1: int, c2: int, d2: int, steep: bool): seq<(int, int)>
  {
    var dx, dy := c2 - c1, d2 - d1;
    Walk(c1, c2, d1, dx / 2, dx, Abs(dy), if d1 < d2 then 1 else -1, steep)
  }

  /** Swap the ends so that the walk runs towards larger a. */
  function Oriented(a1: int, b1: int, a2: int, b2: int, steep: bool): seq<(int, int)>
  {
    if a1 > a2 then Normalised(a2, b2, a1, b1, steep) else Normalised(a1, b1, a2, b2, steep)
  }

  /** The pixels a non-horizontal edge from (x1, y1) to (x2, y2) records: swap
      axes when steep, then swap ends so the walk runs towards larger x. */
  function EdgePixels(x1: int, y1: int, x2: int, y2: int): seq<(int, int)>
  {
    var steep := Abs(y2 - y1) > Abs(x2 - x1);
    if steep then Oriented(y1, x1, y2, x2, steep) else Oriented(x1, y1, x2, y2, steep)
  }

  /** What an edge contributes: both ends of a horizontal edge, the walked
      pixels of any other. */
  function EdgeRecord(p: (int, int), q: (int, int)): seq<(int, int)>
  {
    if p.1 == q.1 then [(Min(p.0, q.0), p.1), (Max(p.0, q.0), p.1)]
    else EdgePixels(p.0, p.1, q.0, q.1)
  }

  /** The edges from the current vertex p through the remaining vertices. */
  function EdgesFrom(p: (int, int), rest: seq<(int, int)>): seq<(int, int)>
    decreases |rest|
  {
    if rest == [] then [] else EdgeRecord(p, rest[0]) + EdgesFrom(rest[0], rest[1..])
  }

  /** Every pixel fill_polygon records, in order: the first vertex, then each edge. */
  function PolygonPixels(coords: seq<(int, int)>): seq<(int, int)>
    requires |coords| >= 1
  {
    [coords[0]] + EdgesFrom(coords[0], coords[1..])
  }

  /** The span table of fill_polygon. */
  function Spans(coords: seq<(int, int)>): Table
    requires |coords| >= 1
  {
    Recorded(map[], PolygonPixels(coords))
  }

  // ---------------------------------------------------------------------------
  // The walk reaches the far end of the edge

  lemma MulBounds(m: int, d: int)
    requires d >= 1
    ensures m > 0 ==> m * d >= d
    ensures m < 0 ==> m * d <= -d
    decreases if m > 0 then m else -m
  {
    if m > 0 {
      assert m * d == (m - 1) * d + d;
      MulBounds(m - 1, d);
    } else if m < 0 {
      assert m * d == (m + 1) * d - d;
      MulBounds(m + 1, d);
    }
  }

  /** One step of the walk keeps the error in 0 .. dx - 1 and the wrap count right. */
  lemma WalkStep(n: int, error: int, dx: int, ady: int, m: int)
    requires n >= 1 && 0 <= ady <= dx && 0 <= error < dx
    requires 0 <= error - n * ady + m * dx < dx
    ensures var e := error - ady;
            var (e', m') := if e < 0 then (e + dx, m - 1) else (e, m);
            0 <= e' < dx && 0 <= e' - (n - 1) * ady + m' * dx < dx
  {
    assert n * ady == (n - 1) * ady + ady;
    assert (m - 1) * dx == m * dx - dx;
  }

  /** A wrap moves the walk one row: one row now and m - 1 later is m rows. */
  lemma RowsAfterWrap(y: int, ystep: int, m: int)
    ensures (y + ystep) + ystep * (m - 1) == y + ystep * m
  {
  }

  /** With no steps left, an error that stays in 0 .. dx - 1 has not wrapped. */
  lemma NoWrap(error: int, dx: int, ady: int, m: int)
    requires 0 <= error < dx && 0 <= error - 0 * ady + m * dx < dx
    ensures m == 0
  {
    MulBounds(m, dx);
  }

  /** The walk over x .. x2 has one pixel per column and starts at (x, y). */
  lemma {:induction false} WalkLength(x: int, x2: int, y: int, error: int, dx: int, ady: int, ystep: int, steep: bool)
    requires x <= x2 + 1
    ensures |Walk(x, x2, y, error, dx, ady, ystep, steep)| == x2 - x + 1
    ensures x <= x2 ==> Walk(x, x2, y, error, dx, ady, ystep, steep)[0] == if steep then (y, x) else (x, y)
    decreases x2 - x + 1
  {
    if x <= x2 {
      var e := error - ady;
      var (y', e') := if e < 0 then (y + ystep, e + dx) else (y, e);
      WalkLength(x + 1, x2, y', e', dx, ady, ystep, steep);
    }
  }

  /** With the error kept in 0 .. dx - 1, the walk over x .. x2 ends m rows
      away, m being the number of times the error must wrap:
      0 <= error - n * |dy| + m * dx < dx for the n = x2 - x steps left. */
  lemma {:induction false} WalkLast(x: int, x2: int, y: int, error: int, dx: int, ady: int, ystep: int,
                                    steep: bool, m: int)
    requires x <= x2 && 0 <= ady <= dx && 0 <= error < dx
    requires 0 <= error - (x2 - x) * ady + m * dx < dx
    ensures var w := Walk(x, x2, y, error, dx, ady, ystep, steep);
            |w| > 0 && w[|w| - 1] == (if steep then (y + ystep * m, x2) else (x2, y + ystep * m))
    decreases x2 - x
  {
    var e := error - ady;
    var (y', e') := if e < 0 then (y + ystep, e + dx) else (y, e);
    var w := Walk(x, x2, y, error, dx, ady, ystep, steep);
    var rest := Walk(x + 1, x2, y', e', dx, ady, ystep, steep);
    assert w == [if steep then (y, x) else (x, y)] + rest;
    if x < x2 {
      var n := x2 - x;
      WalkStep(n, error, dx, ady, m);
      assert n - 1 == x2 - (x + 1);
      var m' := if e < 0 then m - 1 else m;
      RowsAfterWrap(y, ystep, m);
      WalkLast(x + 1, x2, y', e', dx, ady, ystep, steep, m');
      assert w[|w| - 1] == rest[|rest| - 1];
    } else {
      NoWrap(error, dx, ady, m);
      assert rest == [];
    }
  }

  lemma HalfBound(dx: int, ady: int)
    requires 1 <= dx && 0 <= ady
    ensures 0 <= dx / 2 - dx * ady + ady * dx < dx
  {
    assert dx * ady == ady * dx;
  }

  function Placed(steep: bool, a: int, b: int): (int, int)
  {
    if steep then (b, a) else (a, b)
  }

  lemma NormalisedEnds(c1: int, d1: int, c2: int, d2: int, steep: bool)
    requires c1 < c2 && Abs(d2 - d1) <= c2 - c1
    ensures var w := Normalised(c1, d1, c2, d2, steep);
            |w| == c2 - c1 + 1 && w[0] == Placed(steep, c1, d1) && w[|w| - 1] == Placed(steep, c2, d2)
  {
    var dx, dy := c2 - c1, d2 - d1;
    var ystep := if d1 < d2 then 1 else -1;
    HalfBound(dx, Abs(dy));
    WalkLength(c1, c2, d1, dx / 2, dx, Abs(dy), ystep, steep);
    WalkLast(c1, c2, d1, dx / 2, dx, Abs(dy), ystep, steep, Abs(dy));
    assert d1 + ystep * Abs(dy) == d2;
  }

  /** A non-horizontal edge records one pixel per step along its major axis,
      starting at one of its ends and finishing exactly at the other. */
  lemma EdgeEnds(x1: int, y1: int, x2: int, y2: int)
    requires y1 != y2
    ensures var w := EdgePixels(x1, y1, x2, y2);
            |w| == Max(Abs(x2 - x1), Abs(y2 - y1)) + 1 &&
            ((w[0] == (x1, y1) && w[|w| - 1] == (x2, y2)) || (w[0] == (x2, y2) && w[|w| - 1] == (x1, y1)))
  {
    if Abs(y2 - y1) > Abs(x2 - x1) {
      if y1 > y2 {
        NormalisedEnds(y2, x2, y1, x1, true);
      } else {
        NormalisedEnds(y1, x1, y2, x2, true);
      }
    } else {
      if x1 > x2 {
        NormalisedEnds(x2, y2, x1, y1, false);
      } else {
        NormalisedEnds(x1, y1, x2, y2, false);
      }
    }
  }

  // ---------------------------------------------------------------------------
  // What the table holds

  /** The rows the pixels occupy. */
  function Rows(pts: seq<(int, int)>): set<int>
  {
    set i | 0 <= i < |pts| :: pts[i].1
  }

  /** t is the span table of pts: it has a row for each row the pixels occupy
      and no other, every pixel lies within its row's span, and both ends of
      each span are pixels of that row. */
  predicate SpanTableOf(t: Table, pts: seq<(int, int)>)
  {
    t.Keys == Rows(pts) &&
    (forall i :: 0 <= i < |pts| ==> pts[i].1 in t && t[pts[i].1].0 <= pts[i].0 <= t[pts[i].1].1) &&
    (forall y :: y in t ==> (t[y].0, y) in pts && (t[y].1, y) in pts)
  }

  lemma {:induction false} RecordedAppend(t: Table, a: seq<(int, int)>, b: seq<(int, int)>)
    ensures Recorded(t, a + b) == Recorded(Recorded(t, a), b)
    decreases |a|
  {
    if a == [] {
      assert a + b == b;
    } else {
      assert (a + b)[0] == a[0] && (a + b)[1..] == a[1..] + b;
      RecordedAppend(Record(t, a[0].0, a[0].1), a[1..], b);
    }
  }

  lemma RecordKeeps(t: Table, pts: seq<(int, int)>, p: (int, int))
    requires SpanTableOf(t, pts)
    ensures SpanTableOf(Record(t, p.0, p.1), pts + [p])
  {
    var t' := Record(t, p.0, p.1);
    var pts' := pts + [p];
    assert Rows(pts') == Rows(pts) + {p.1} by {
      forall y | y in Rows(pts')
        ensures y in Rows(pts) + {p.1}
      {
        var i :| 0 <= i < |pts'| && pts'[i].1 == y;
        if i < |pts| {
          assert pts[i] == pts'[i];
        }
      }
      forall y | y in Rows(pts) + {p.1}
        ensures y in Rows(pts')
      {
        if y == p.1 {
          assert pts'[|pts|] == p;
        } else {
          var i :| 0 <= i < |pts| && pts[i].1 == y;
          assert pts'[i] == pts[i];
        }
      }
    }
    forall i | 0 <= i < |pts'|
      ensures pts'[i].1 in t' && t'[pts'[i].1].0 <= pts'[i].0 <= t'[pts'[i].1].1
    {
      if i < |pts| {
        assert pts'[i] == pts[i];
      }
    }
    forall y | y in t'
      ensures (t'[y].0, y) in pts' && (t'[y].1, y) in pts'
    {
      if y != p.1 {
        assert (t[y].0, y) in pts && (t[y].1, y) in pts;
      }
    }
  }

  /** Recording a sequence of pixels into an empty table gives their span table. */
  lemma {:induction false} RecordedSpans(pts: seq<(int, int)>)
    ensures SpanTableOf(Recorded(map[], pts), pts)
    decreases |pts|
  {
    if pts == [] {
      assert Rows(pts) == {};
    } else {
      var init, last := pts[..|pts| - 1], pts[|pts| - 1];
      assert pts == init + [last];
      RecordedSpans(init);
      RecordedAppend(map[], init, [last]);
      assert Recorded(Recorded(map[], init), [last]) == Record(Recorded(map[], init), last.0, last.1);
      RecordKeeps(Recorded(map[], init), init, last);
    }
  }

  /** fill_polygon's table: for each row some edge reaches, the leftmost and the
      rightmost pixel the edges record in it, each of them recorded. */
  lemma SpansAreMinMax(coords: seq<(int, int)>)
    requires |coords| >= 1
    ensures SpanTableOf(Spans(coords), PolygonPixels(coords))
  {
    RecordedSpans(PolygonPixels(coords));
  }

  // ---------------------------------------------------------------------------
  // The loops that build the table

  /** The inner loop of one non-horizontal edge. */
  method WalkEdge(xdict: Table, x1: int, x2: int, y1: int, error0: int, dx: int, ady: int, ystep: int,
                  steep: bool) returns (t: Table)
    ensures t == Recorded(xdict, Walk(x1, x2, y1, error0, dx, ady, ystep, steep))
  {
    t := xdict;
    var y, error := y1, error0;
    var x := x1;
    while x < x2 + 1
      invariant x1 <= x || x > x2
      invariant Recorded(t, Walk(x, x2, y, error, dx, ady, ystep, steep)) ==
                Recorded(xdict, Walk(x1, x2, y1, error0, dx, ady, ystep, steep))
      decreases x2 + 1 - x
    {
      if steep {
        if x in t {
          t := t[x := (Min(y, t[x].0), Max(y, t[x].1))];
        } else {
          t := t[x := (y, y)];
        }
      } else {
        if y in t {
          t := t[y := (Min(x, t[y].0), Max(x, t[y].1))];
        } else {
          t := t[y := (x, x)];
        }
      }
      error := error - ady;
      if error < 0 {
        y := y + ystep;
        error := error + dx;
      }
      x := x + 1;
    }
  }

  /** One pass of the outer loop of fill_polygon: record the edge from the
      current vertex (x1, y1) to the next vertex (x2, y2). */
  method AddEdge(xdict: Table, x1: int, y1: int, x2: int, y2: int) returns (t: Table)
    ensures t == Recorded(xdict, EdgeRecord((x1, y1), (x2, y2)))
  {
    var x1, y1, x2, y2 := x1, y1, x2, y2;
    if y1 == y2 {
      if x1 > x2 {
        x1, x2 := x2, x1;
      }
      if y1 in xdict {
        t := xdict[y1 := (Min(x1, xdict[y1].0), Max(x2, xdict[y1].1))];
      } else {
        t := xdict[y1 := (x1, x2)];
      }
      var lo, hi := [(x1, y1)], [(x2, y1)];
      assert Recorded(xdict, lo) == Record(xdict, x1, y1);
      assert Recorded(Record(xdict, x1, y1), hi) == Record(Record(xdict, x1, y1), x2, y1);
      RecordedAppend(xdict, lo, hi);
      assert lo + hi == [(x1, y1), (x2, y1)];
    } else {
      t := AddSlopedEdge(xdict, x1, y1, x2, y2);
    }
  }

  /** A non-horizontal edge: normalise, then walk. */
  method AddSlopedEdge(xdict: Table, x1: int, y1: int, x2: int, y2: int) returns (t: Table)
    ensures t == Recorded(xdict, EdgePixels(x1, y1, x2, y2))
  {
    ghost var pixels := EdgePixels(x1, y1, x2, y2);
    var x1, y1, x2, y2 := x1, y1, x2, y2;
    var dx, dy := x2 - x1, y2 - y1;
    var isSteep := Abs(dy) > Abs(dx);
    if isSteep {
      x1, y1 := y1, x1;
      x2, y2 := y2, x2;
    }
    assert pixels == Oriented(x1, y1, x2, y2, isSteep);
    if x1 > x2 {
      x1, x2 := x2, x1;
      y1, y2 := y2, y1;
    }
    assert pixels == Normalised(x1, y1, x2, y2, isSteep);
    dx, dy := x2 - x1, y2 - y1;
    var error := dx / 2;
    var ystep := if y1 < y2 then 1 else -1;
    t := WalkEdge(xdict, x1, x2, y1, error, dx, Abs(dy), ystep, isSteep);
  }

  /** The table-building part of fill_polygon(sides, x0, y0, r, invert, rotate),
      given the vertex list it computes. */
  method SpanTable(coords: seq<(int, int)>) returns (xdict: Table)
    requires |coords| >= 1
    ensures xdict == Spans(coords)
  {
    var x1, y1 := coords[0].0, coords[0].1;
    xdict := map[y1 := (x1, x1)];
    assert xdict == Recorded(map[], [coords[0]]);
    RecordedAppend(map[], [coords[0]], EdgesFrom(coords[0], coords[1..]));
    var i := 1;
    while i < |coords|
      invariant 1 <= i <= |coords|
      invariant (x1, y1) == coords[i - 1]
      invariant Recorded(xdict, EdgesFrom((x1, y1), coords[i..])) == Spans(coords)
    {
      var x2, y2 := coords[i].0, coords[i].1;
      assert coords[i..][0] == coords[i] && coords[i..][1..] == coords[i + 1..];
      RecordedAppend(xdict, EdgeRecord((x1, y1), (x2, y2)), EdgesFrom((x2, y2), coords[i + 1..]));
      xdict := AddEdge(xdict, x1, y1, x2, y2);
      x1, y1 := x2, y2;
      i := i + 1;
    }
    assert coords[i..] == [];
  }

  /** The run fill_polygon draws for a row: draw_hline(lo, y, hi - lo + 2), so it
      covers lo .. hi + 1, one column past the row's rightmost recorded pixel. */
  function FillRun(span: (int, int)): (int, int)
  {
    (span.0, span.1 - span.0 + 2)
  }
}
