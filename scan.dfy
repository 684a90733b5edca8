/*
  The integer scan-conversion recurrences of the driver: the midpoint circle
  of draw_circle and fill_circle (pico/ssd1309.py:298-322, 606-623) and the
  two-region midpoint ellipse of draw_ellipse and fill_ellipse
  (pico/ssd1309.py:339-381, 639-675).

  Each loop is a step function on its state; the states a loop passes
  through, one per iteration, are a sequence. What is drawn per state (the
  symmetric pixels, or the vertical runs and chords of the fills) is given as
  offsets from the centre (x0, y0).
*/
module Scan {

  function Abs(a: int): int { if a < 0 then -a else a }
  function Max(a: int, b: int): int { if a < b then b else a }

  // ---------------------------------------------------------------------------
  // Midpoint circle

  /** The variables of the circle loop. */
  datatype Circle = Circle(f: int, dx: int, dy: int, x: int, y: int)

  /** f = 1 - r, dx = 1, dy = -r - r, x = 0, y = r. */
  function CircleStart(r: int): Circle
  {
    Circle(1 - r, 1, -r - r, 0, r)
  }

  /** One iteration: step down a row when f >= 0, then one column right. */
  function CircleStep(s: Circle): Circle
  {
    var (y, dy, f) := if s.f >= 0 then (s.y - 1, s.dy + 2, s.f + (s.dy + 2)) else (s.y, s.dy, s.f);
    Circle(f + (s.dx + 2), s.dx + 2, dy, s.x + 1, y)
  }

  /** The states after each iteration of `while x < y`. */
  function CircleStates(s: Circle): seq<Circle>
    decreases s.y - s.x
  {
    if s.x < s.y then [CircleStep(s)] + CircleStates(CircleStep(s)) else []
  }

  /** The eight pixels draw_circle plots per state, in the source's order. */
  function Octants(x: int, y: int): seq<(int, int)>
  {
    [(x, y), (-x, y), (x, -y), (-x, -y), (y, x), (-y, x), (y, -x), (-y, -x)]
  }

  function OctantsOf(states: seq<Circle>): seq<(int, int)>
  {
    if states == [] then [] else Octants(states[0].x, states[0].y) + OctantsOf(states[1..])
  }

  /** Every pixel offset draw_circle plots: the four axis points at distance r,
      then eight per iteration. */
  function CirclePoints(r: int): seq<(int, int)>
  {
    [(0, r), (0, -r), (r, 0), (-r, 0)] + OctantsOf(CircleStates(CircleStart(r)))
  }

  /** The four vertical runs (x, y, height) fill_circle draws per state. */
  function CircleRuns(x: int, y: int): seq<(int, int, int)>
  {
    [(x, -y, 2 * y + 1), (-x, -y, 2 * y + 1), (-y, -x, 2 * x + 1), (y, -x, 2 * x + 1)]
  }

  function CircleRunsOf(states: seq<Circle>): seq<(int, int, int)>
  {
    if states == [] then [] else CircleRuns(states[0].x, states[0].y) + CircleRunsOf(states[1..])
  }

  /** Every vertical run fill_circle draws: the centre column, then four per iteration. */
  function DiskRuns(r: int): seq<(int, int, int)>
  {
    [(0, -r, 2 * r + 1)] + CircleRunsOf(CircleStates(CircleStart(r)))
  }

  /** How far (x, y) is from the circle of radius r, as x^2 + y^2 - r^2. */
  function CircleError(r: int, x: int, y: int): int
  {
    x * x + y * y - r * r
  }

  /** What the loop keeps: dx and dy track 2x + 1 and -2y, f is the circle
      function at the midpoint (x + 1, y - 1/2) less 1/4, and the pixel is
      within half a pixel of the circle (|x^2 + y^2 - r^2| <= y), and a little
      closer before the last step. */
  predicate CircleInv(r: int, s: Circle)
  {
    s.dx == 2 * s.x + 1 && s.dy == -2 * s.y && 0 <= s.x &&
    s.f == (s.x + 1) * (s.x + 1) + s.y * s.y - s.y - r * r &&
    -s.y <= CircleError(r, s.x, s.y) <= s.y &&
    (s.x < s.y ==> CircleError(r, s.x, s.y) <= s.y - 1)
  }

  lemma CircleStartInv(r: int)
    requires r >= 0
    ensures CircleInv(r, CircleStart(r))
  {
  }

  /** One iteration keeps the invariant, moves one column right and at most one row down. */
  lemma CircleStepInv(r: int, s: Circle)
    requires CircleInv(r, s) && s.x < s.y
    ensures CircleInv(r, CircleStep(s))
    ensures CircleStep(s).x == s.x + 1 && s.y - 1 <= CircleStep(s).y <= s.y
  {
    var x, y := s.x, s.y;
    CircleSums(r, x, y, s.f, CircleError(r, x, y), CircleError(r, x + 1, y), CircleError(r, x + 1, y - 1));
    if s.f >= 0 {
      assert CircleStep(s) == Circle(s.f + (s.dy + 2) + (s.dx + 2), s.dx + 2, s.dy + 2, x + 1, y - 1);
    } else {
      assert CircleStep(s) == Circle(s.f + (s.dx + 2), s.dx + 2, s.dy, x + 1, y);
    }
  }

  /** The squares behind a midpoint circle step, with the circle errors of
      the three points involved as e (here), e1 (right) and e2 (right and down). */
  lemma CircleSums(r: int, x: int, y: int, f: int, e: int, e1: int, e2: int)
    requires e == CircleError(r, x, y) && e1 == CircleError(r, x + 1, y) && e2 == CircleError(r, x + 1, y - 1)
    requires f == (x + 1) * (x + 1) + y * y - y - r * r
    ensures e1 == e + 2 * x + 1 && e2 == e + 2 * x - 2 * y + 2 && f == e1 - y
    ensures f + 2 * x + 3 == (x + 2) * (x + 2) + y * y - y - r * r
    ensures f + 2 * x - 2 * y + 5 == (x + 2) * (x + 2) + (y - 1) * (y - 1) - (y - 1) - r * r
  {
    assert (x + 1) * (x + 1) == x * x + 2 * x + 1;
    assert (x + 2) * (x + 2) == (x + 1) * (x + 1) + 2 * x + 3;
    assert (y - 1) * (y - 1) == y * y - 2 * y + 1;
  }

  /** Every state the loop passes through keeps the invariant; the loop ends with x >= y. */
  lemma {:induction false} CircleStatesInv(r: int, s: Circle)
    requires CircleInv(r, s)
    ensures forall i :: 0 <= i < |CircleStates(s)| ==> CircleInv(r, CircleStates(s)[i])
    ensures CircleStates(s) != [] ==> CircleStates(s)[|CircleStates(s)| - 1].x >= CircleStates(s)[|CircleStates(s)| - 1].y
    decreases s.y - s.x
  {
    if s.x < s.y {
      CircleStepInv(r, s);
      CircleStatesInv(r, CircleStep(s));
    }
  }

  /** A plotted offset lies within half a pixel of the circle: |a^2 + b^2 - r^2| <= max(|a|, |b|). */
  predicate NearCircle(r: int, p: (int, int))
  {
    -Max(Abs(p.0), Abs(p.1)) <= CircleError(r, p.0, p.1) <= Max(Abs(p.0), Abs(p.1))
  }

  /** Mirroring a point keeps its distance from the circle. */
  lemma NearImages(r: int, x: int, y: int, a: int, b: int)
    requires a == x || a == -x
    requires b == y || b == -y
    requires -y <= CircleError(r, x, y) <= y
    ensures NearCircle(r, (a, b)) && NearCircle(r, (b, a))
  {
    assert a * a == x * x;
    assert b * b == y * y;
  }

  lemma OctantsNear(r: int, s: Circle)
    requires CircleInv(r, s)
    ensures forall p :: p in Octants(s.x, s.y) ==> NearCircle(r, p)
  {
    var x, y := s.x, s.y;
    NearImages(r, x, y, x, y);
    NearImages(r, x, y, -x, y);
    NearImages(r, x, y, x, -y);
    NearImages(r, x, y, -x, -y);
  }

  lemma {:induction false} OctantsOfNear(r: int, states: seq<Circle>)
    requires forall i :: 0 <= i < |states| ==> CircleInv(r, states[i])
    ensures AllNear(r, OctantsOf(states))
  {
    if states != [] {
      OctantsNear(r, states[0]);
      OctantsOfNear(r, states[1..]);
    }
  }

  predicate AllNear(r: int, pts: seq<(int, int)>)
  {
    forall p :: p in pts ==> NearCircle(r, p)
  }

  /** Nearness holds of a concatenation when it holds of both parts. */
  lemma AllNearConcat(r: int, a: seq<(int, int)>, b: seq<(int, int)>)
    requires AllNear(r, a) && AllNear(r, b)
    ensures AllNear(r, a + b)
  {
    forall p | p in a + b
      ensures NearCircle(r, p)
    {
      if p !in a {
        assert p in b;
      }
    }
  }

  lemma AxesNear(r: int)
    requires r >= 0
    ensures AllNear(r, [(0, r), (0, -r), (r, 0), (-r, 0)])
  {
    NearImages(r, 0, r, 0, r);
    NearImages(r, 0, r, 0, -r);
  }

  /** Every pixel draw_circle plots lies within half a pixel of the true circle. */
  lemma CirclePointsNear(r: int)
    requires r >= 0
    ensures AllNear(r, CirclePoints(r))
  {
    var rest := OctantsOf(CircleStates(CircleStart(r)));
    StartNear(r);
    AxesAndNear(r, rest);
    assert CirclePoints(r) == [(0, r), (0, -r), (r, 0), (-r, 0)] + rest;
  }

  /** The octant points of every state of the loop lie near the circle. */
  lemma StartNear(r: int)
    requires r >= 0
    ensures AllNear(r, OctantsOf(CircleStates(CircleStart(r))))
  {
    CircleStartInv(r);
    StatesNear(r, CircleStart(r));
  }

  lemma AxesAndNear(r: int, rest: seq<(int, int)>)
    requires r >= 0 && AllNear(r, rest)
    ensures AllNear(r, [(0, r), (0, -r), (r, 0), (-r, 0)] + rest)
  {
    AxesNear(r);
    AllNearConcat(r, [(0, r), (0, -r), (r, 0), (-r, 0)], rest);
  }

  /** The octant points of every state from s on lie near the circle. */
  lemma StatesNear(r: int, s: Circle)
    requires CircleInv(r, s)
    ensures AllNear(r, OctantsOf(CircleStates(s)))
  {
    CircleStatesInv(r, s);
    OctantsOfNear(r, CircleStates(s));
  }

  /** The plotted set is symmetric under both mirrors and the diagonal swap. */
  predicate Symmetric8(pts: seq<(int, int)>)
  {
    forall p {:trigger Images(pts, p)} :: p in pts ==> Images(pts, p)
  }

  /** The reflections of p in the diagonal and in both axes are all in pts. */
  predicate Images(pts: seq<(int, int)>, p: (int, int))
  {
    (p.1, p.0) in pts && (-p.0, p.1) in pts && (p.0, -p.1) in pts
  }

  lemma OctantsClosed(x: int, y: int, p: (int, int))
    requires p in Octants(x, y)
    ensures (p.1, p.0) in Octants(x, y) && (-p.0, p.1) in Octants(x, y) && (p.0, -p.1) in Octants(x, y)
  {
  }

  lemma {:induction false} OctantsOfMembers(states: seq<Circle>, p: (int, int))
    requires p in OctantsOf(states)
    ensures (p.1, p.0) in OctantsOf(states) && (-p.0, p.1) in OctantsOf(states) && (p.0, -p.1) in OctantsOf(states)
  {
    var o := Octants(states[0].x, states[0].y);
    var rest := OctantsOf(states[1..]);
    assert OctantsOf(states) == o + rest;
    if p in o {
      OctantsClosed(states[0].x, states[0].y, p);
    } else {
      OctantsOfMembers(states[1..], p);
    }
  }

  lemma CirclePointImages(r: int, p: (int, int))
    requires p in CirclePoints(r)
    ensures (p.1, p.0) in CirclePoints(r) && (-p.0, p.1) in CirclePoints(r) && (p.0, -p.1) in CirclePoints(r)
  {
    var axes := [(0, r), (0, -r), (r, 0), (-r, 0)];
    var rest := OctantsOf(CircleStates(CircleStart(r)));
    assert CirclePoints(r) == axes + rest;
    if p in rest {
      OctantsOfMembers(CircleStates(CircleStart(r)), p);
    }
  }

  /** draw_circle plots all eight symmetric images of each pixel it plots. */
  lemma CirclePointsSymmetric(r: int)
    ensures Symmetric8(CirclePoints(r))
  {
    var pts := CirclePoints(r);
    forall p {:trigger Images(pts, p)} | p in pts
      ensures Images(pts, p)
    {
      CirclePointImages(r, p);
    }
  }

  /** Both ends of each run of one state are among that state's octant points. */
  lemma CircleRunEnds(x: int, y: int, k: int)
    requires 0 <= k < 4
    ensures var (a, b, n) := CircleRuns(x, y)[k];
            (a, b) in Octants(x, y) && (a, b + n - 1) in Octants(x, y)
  {
    var o := Octants(x, y);
    if k == 0 { assert o[0] == (x, -y + 2 * y + 1 - 1) && o[2] == (x, -y); }
    else if k == 1 { assert o[1] == (-x, -y + 2 * y + 1 - 1) && o[3] == (-x, -y); }
    else if k == 2 { assert o[5] == (-y, -x + 2 * x + 1 - 1) && o[7] == (-y, -x); }
    else { assert o[4] == (y, -x + 2 * x + 1 - 1) && o[6] == (y, -x); }
  }

  /** Each vertical run of fill_circle joins two pixels draw_circle plots for
      the same state, so the fill spans the outline row for row. */
  lemma {:induction false} CircleRunsJoinOutline(states: seq<Circle>, k: int)
    requires 0 <= k < |CircleRunsOf(states)|
    ensures var (a, b, n) := CircleRunsOf(states)[k];
            (a, b) in OctantsOf(states) && (a, b + n - 1) in OctantsOf(states)
  {
    var s := states[0];
    var runs := CircleRuns(s.x, s.y);
    var t := CircleRunsOf(states)[k];
    var here, later := Octants(s.x, s.y), OctantsOf(states[1..]);
    assert CircleRunsOf(states) == runs + CircleRunsOf(states[1..]);
    assert OctantsOf(states) == here + later;
    if k < 4 {
      assert t == runs[k];
      CircleRunEnds(s.x, s.y, k);
      assert (t.0, t.1) in here && (t.0, t.1 + t.2 - 1) in here;
    } else {
      assert t == CircleRunsOf(states[1..])[k - 4];
      CircleRunsJoinOutline(states[1..], k - 4);
      assert (t.0, t.1) in later && (t.0, t.1 + t.2 - 1) in later;
    }
    InEither(here, later, (t.0, t.1));
    InEither(here, later, (t.0, t.1 + t.2 - 1));
  }

  /** Membership in a concatenation: a sequence fact for the proofs above,
      not part of the driver. */
  lemma InEither(a: seq<(int, int)>, b: seq<(int, int)>, p: (int, int))
    ensures p in a + b <==> p in a || p in b
  {
  }

  // ---------------------------------------------------------------------------
  // Midpoint ellipse

  /** round() on n / 4: Python rounds halves to the even neighbour. */
  function RoundQuarter(n: int): (r: int)
    ensures -2 <= 4 * r - n <= 2
    ensures (4 * r - n == 2 || 4 * r - n == -2) ==> r % 2 == 0
  {
    var q, m := n / 4, n % 4;
    if m < 2 then q else if m > 2 then q + 1 else if q % 2 == 0 then q else q + 1
  }

  /** The variables of the ellipse loops; a2 = a*a and b2 = b*b are fixed. */
  datatype Ellipse = Ellipse(x: int, y: int, px: int, py: int, p: int)

  /** x = 0, y = b, px = 0, py = twoa2 * y, p = round(b2 - a2 * b + 0.25 * a2). */
  function EllipseStart(a2: int, b2: int, b: int): Ellipse
  {
    Ellipse(0, b, 0, (a2 + a2) * b, RoundQuarter(4 * b2 - 4 * a2 * b + a2))
  }

  /** One iteration of region 1: a column right, and a row down when p >= 0. */
  function Step1(a2: int, b2: int, s: Ellipse): Ellipse
  {
    var x, px := s.x + 1, s.px + (b2 + b2);
    if s.p < 0 then Ellipse(x, s.y, px, s.py, s.p + b2 + px)
    else Ellipse(x, s.y - 1, px, s.py - (a2 + a2), s.p + b2 + px - (s.py - (a2 + a2)))
  }

  /** The states after each iteration of region 1, `while px < py`. */
  function Region1(a2: int, b2: int, s: Ellipse): seq<Ellipse>
    requires a2 >= 0 && (b2 > 0 || s.py <= s.px)
    decreases s.py - s.px
  {
    if s.px < s.py then [Step1(a2, b2, s)] + Region1(a2, b2, Step1(a2, b2, s)) else []
  }

  /** Region 2 starts where region 1 stopped, with p = round(b2 (x + 0.5)^2 + a2 (y - 1)^2 - a2 b2). */
  function Shift(a2: int, b2: int, s: Ellipse): Ellipse
  {
    s.(p := RoundQuarter(b2 * (2 * s.x + 1) * (2 * s.x + 1) + 4 * a2 * (s.y - 1) * (s.y - 1) - 4 * a2 * b2))
  }

  /** One iteration of region 2: a row down, and a column right when p <= 0. */
  function Step2(a2: int, b2: int, s: Ellipse): Ellipse
  {
    var y, py := s.y - 1, s.py - (a2 + a2);
    if s.p > 0 then Ellipse(s.x, y, s.px, py, s.p + a2 - py)
    else Ellipse(s.x + 1, y, s.px + (b2 + b2), py, s.p + a2 - py + (s.px + (b2 + b2)))
  }

  /** The states after each iteration of region 2, `while y > 0`. */
  function Region2(a2: int, b2: int, s: Ellipse): seq<Ellipse>
    decreases s.y
  {
    if s.y > 0 then [Step2(a2, b2, s)] + Region2(a2, b2, Step2(a2, b2, s)) else []
  }

  /** The state a loop leaves behind: its last state, or its start when it did not run. */
  function Final(s: Ellipse, states: seq<Ellipse>): Ellipse
  {
    if states == [] then s else states[|states| - 1]
  }

  /** The state left behind by a loop that still has s to go through. */
  lemma FinalCons(s: Ellipse, t: Ellipse, rest: seq<Ellipse>)
    ensures Final(s, [t] + rest) == Final(t, rest)
  {
  }

  /** Every state both regions pass through, for semi axes a and b. */
  function EllipseStates(a: int, b: int): seq<Ellipse>
  {
    var a2, b2 := a * a, b * b;
    var s := EllipseStart(a2, b2, b);
    var r1 := Region1(a2, b2, s);
    r1 + Region2(a2, b2, Shift(a2, b2, Final(s, r1)))
  }

  /** The four pixels draw_ellipse plots per state, in the source's order. */
  function Quadrants(x: int, y: int): seq<(int, int)>
  {
    [(x, y), (-x, y), (x, -y), (-x, -y)]
  }

  function QuadrantsOf(states: seq<Ellipse>): seq<(int, int)>
  {
    if states == [] then [] else Quadrants(states[0].x, states[0].y) + QuadrantsOf(states[1..])
  }

  lemma {:induction false} QuadrantsOfAppend(a: seq<Ellipse>, b: seq<Ellipse>)
    ensures QuadrantsOf(a + b) == QuadrantsOf(a) + QuadrantsOf(b)
  {
    if a == [] {
      assert a + b == b;
    } else {
      assert (a + b)[0] == a[0] && (a + b)[1..] == a[1..] + b;
      QuadrantsOfAppend(a[1..], b);
    }
  }

  /** Every pixel offset draw_ellipse plots. */
  function EllipsePoints(a: int, b: int): seq<(int, int)>
  {
    Quadrants(0, b) + QuadrantsOf(EllipseStates(a, b))
  }

  /** The two vertical chords (x1, y1, x2, y2) fill_ellipse draws per state. */
  function Chords(x: int, y: int): seq<(int, int, int, int)>
  {
    [(x, -y, x, y), (-x, -y, -x, y)]
  }

  function ChordsOf(states: seq<Ellipse>): seq<(int, int, int, int)>
  {
    if states == [] then [] else Chords(states[0].x, states[0].y) + ChordsOf(states[1..])
  }

  lemma {:induction false} ChordsOfAppend(a: seq<Ellipse>, b: seq<Ellipse>)
    ensures ChordsOf(a + b) == ChordsOf(a) + ChordsOf(b)
  {
    if a == [] {
      assert a + b == b;
    } else {
      assert (a + b)[0] == a[0] && (a + b)[1..] == a[1..] + b;
      ChordsOfAppend(a[1..], b);
    }
  }

  /** Every chord fill_ellipse draws: the centre column, then two per state. */
  function EllipseChords(a: int, b: int): seq<(int, int, int, int)>
  {
    [(0, -b, 0, b)] + ChordsOf(EllipseStates(a, b))
  }

  /** Four times the ellipse function b2 x^2 + a2 y^2 - a2 b2 at the region 1
      midpoint (x + 1, y - 1/2). */
  function Mid1(a2: int, b2: int, x: int, y: int): int
  {
    4 * b2 * (x + 1) * (x + 1) + a2 * (2 * y - 1) * (2 * y - 1) - 4 * a2 * b2
  }

  /** Four times the ellipse function at the region 2 midpoint (x + 1/2, y - 1). */
  function Mid2(a2: int, b2: int, x: int, y: int): int
  {
    b2 * (2 * x + 1) * (2 * x + 1) + 4 * a2 * (y - 1) * (y - 1) - 4 * a2 * b2
  }

  /** What region 1 keeps: px = 2 b2 x, py = 2 a2 y, and p is the ellipse
      function at the midpoint rounded to the nearest integer. */
  predicate Region1Inv(a2: int, b2: int, s: Ellipse)
  {
    s.px == 2 * b2 * s.x && s.py == 2 * a2 * s.y && -2 <= 4 * s.p - Mid1(a2, b2, s.x, s.y) <= 2
  }

  predicate Region2Inv(a2: int, b2: int, s: Ellipse)
  {
    s.px == 2 * b2 * s.x && s.py == 2 * a2 * s.y && -2 <= 4 * s.p - Mid2(a2, b2, s.x, s.y) <= 2
  }

  lemma EllipseStartInv(a: int, b: int)
    ensures Region1Inv(a * a, b * b, EllipseStart(a * a, b * b, b))
  {
    var a2, b2 := a * a, b * b;
    assert (2 * b - 1) * (2 * b - 1) == 4 * b2 - 4 * b + 1;
    assert a2 * (4 * b2 - 4 * b + 1) == 4 * a2 * b2 - 4 * a2 * b + a2;
    assert Mid1(a2, b2, 0, b) == 4 * b2 - 4 * a2 * b + a2;
  }

  lemma Mid1Right(a2: int, b2: int, x: int, y: int)
    ensures Mid1(a2, b2, x + 1, y) == Mid1(a2, b2, x, y) + 4 * b2 * (2 * x + 3)
  {
    assert (x + 2) * (x + 2) == (x + 1) * (x + 1) + (2 * x + 3);
  }

  lemma Mid1Down(a2: int, b2: int, x: int, y: int)
    ensures Mid1(a2, b2, x, y - 1) == Mid1(a2, b2, x, y) - 8 * a2 * (y - 1)
  {
    assert (2 * y - 3) * (2 * y - 3) == (2 * y - 1) * (2 * y - 1) - 8 * (y - 1);
  }

  /** A region 1 step keeps the invariant; it stays on the row only when the
      midpoint is strictly inside the ellipse. */
  lemma Step1Inv(a2: int, b2: int, s: Ellipse)
    requires Region1Inv(a2, b2, s)
    ensures Region1Inv(a2, b2, Step1(a2, b2, s))
    ensures Step1(a2, b2, s).x == s.x + 1
    ensures Step1(a2, b2, s).y == s.y ==> Mid1(a2, b2, s.x, s.y) < 0
    ensures Step1(a2, b2, s).y == s.y - 1 ==> Mid1(a2, b2, s.x, s.y) >= -2
  {
    if s.p < 0 {
      Step1Across(a2, b2, s);
    } else {
      Step1Diagonal(a2, b2, s);
    }
  }

  /** The sums behind every ellipse step: px and py move by 2 b2 and 2 a2 with
      x and y, and p moves with the midpoint value m (by dx when x moves and by
      dy when y moves), so 4 p - m is kept. */
  lemma StepSums(a2: int, b2: int, x: int, y: int, p: int, px: int, py: int, m: int, m': int, dx: int, dy: int)
    requires px == 2 * b2 * x && py == 2 * a2 * y
    requires m' == m + dx - dy
    ensures px + (b2 + b2) == 2 * b2 * (x + 1) && py - (a2 + a2) == 2 * a2 * (y - 1)
    ensures dx == 4 * b2 * (2 * x + 3) && dy == 0 ==> 4 * (p + b2 + px + (b2 + b2)) - m' == 4 * p - m
    ensures dx == 4 * b2 * (2 * x + 3) && dy == 8 * a2 * (y - 1) ==>
            4 * (p + b2 + px + (b2 + b2) - (py - (a2 + a2))) - m' == 4 * p - m
  {
  }

  /** A region 1 step with p < 0 stays on the row. */
  lemma Step1Across(a2: int, b2: int, s: Ellipse)
    requires Region1Inv(a2, b2, s) && s.p < 0
    ensures Step1(a2, b2, s) == Ellipse(s.x + 1, s.y, s.px + (b2 + b2), s.py, s.p + b2 + s.px + (b2 + b2))
    ensures Region1Inv(a2, b2, Step1(a2, b2, s))
  {
    var x, y := s.x, s.y;
    Mid1Right(a2, b2, x, y);
    StepSums(a2, b2, x, y, s.p, s.px, s.py, Mid1(a2, b2, x, y), Mid1(a2, b2, x + 1, y), 4 * b2 * (2 * x + 3), 0);
  }

  /** A region 1 step with p >= 0 moves a row down as well. */
  lemma Step1Diagonal(a2: int, b2: int, s: Ellipse)
    requires Region1Inv(a2, b2, s) && s.p >= 0
    ensures Step1(a2, b2, s).x == s.x + 1 && Step1(a2, b2, s).y == s.y - 1
    ensures Region1Inv(a2, b2, Step1(a2, b2, s))
  {
    var x, y := s.x, s.y;
    Mid1Right(a2, b2, x, y);
    Mid1Down(a2, b2, x + 1, y);
    StepSums(a2, b2, x, y, s.p, s.px, s.py, Mid1(a2, b2, x, y), Mid1(a2, b2, x + 1, y - 1),
             4 * b2 * (2 * x + 3), 8 * a2 * (y - 1));
  }

  /** Every state of region 1 keeps the invariant, and region 1 stops once px >= py. */
  lemma {:induction false} Region1States(a2: int, b2: int, s: Ellipse)
    requires a2 >= 0 && (b2 > 0 || s.py <= s.px) && Region1Inv(a2, b2, s)
    ensures forall i :: 0 <= i < |Region1(a2, b2, s)| ==> Region1Inv(a2, b2, Region1(a2, b2, s)[i])
    ensures Region1Inv(a2, b2, Final(s, Region1(a2, b2, s)))
    ensures Final(s, Region1(a2, b2, s)).px >= Final(s, Region1(a2, b2, s)).py
    decreases s.py - s.px
  {
    if s.px < s.py {
      var t := Step1(a2, b2, s);
      Step1Inv(a2, b2, s);
      Region1States(a2, b2, t);
      assert Region1(a2, b2, s) == [t] + Region1(a2, b2, t);
      assert Final(s, Region1(a2, b2, s)) == Final(t, Region1(a2, b2, t));
    }
  }

  /** Region 2's p starts as the rounded midpoint value of where region 1 stopped. */
  lemma ShiftInv(a2: int, b2: int, s: Ellipse)
    requires Region1Inv(a2, b2, s)
    ensures Region2Inv(a2, b2, Shift(a2, b2, s))
  {
  }

  lemma Mid2Down(a2: int, b2: int, x: int, y: int)
    ensures Mid2(a2, b2, x, y - 1) == Mid2(a2, b2, x, y) - 8 * a2 * y + 12 * a2
  {
    assert (y - 2) * (y - 2) == (y - 1) * (y - 1) - 2 * y + 3;
  }

  lemma Mid2Right(a2: int, b2: int, x: int, y: int)
    ensures Mid2(a2, b2, x + 1, y) == Mid2(a2, b2, x, y) + 8 * b2 * (x + 1)
  {
    assert (2 * x + 3) * (2 * x + 3) == (2 * x + 1) * (2 * x + 1) + 8 * (x + 1);
  }

  /** A region 2 step keeps the invariant; it stays in the column only when the
      midpoint is strictly outside the ellipse. */
  lemma Step2Inv(a2: int, b2: int, s: Ellipse)
    requires Region2Inv(a2, b2, s)
    ensures Region2Inv(a2, b2, Step2(a2, b2, s))
    ensures Step2(a2, b2, s).y == s.y - 1
    ensures Step2(a2, b2, s).x == s.x ==> Mid2(a2, b2, s.x, s.y) > 0
    ensures Step2(a2, b2, s).x == s.x + 1 ==> Mid2(a2, b2, s.x, s.y) <= 2
  {
    if s.p > 0 {
      Step2Down(a2, b2, s);
    } else {
      Step2Diagonal(a2, b2, s);
    }
  }

  /** The same sums for region 2, whose p is the midpoint value below. */
  lemma Step2Sums(a2: int, b2: int, x: int, y: int, p: int, px: int, py: int, m: int, m': int, dx: int, dy: int)
    requires px == 2 * b2 * x && py == 2 * a2 * y
    requires m' == m + dx - dy
    ensures px + (b2 + b2) == 2 * b2 * (x + 1) && py - (a2 + a2) == 2 * a2 * (y - 1)
    ensures dx == 0 && dy == 8 * a2 * y - 12 * a2 ==> 4 * (p + a2 - (py - (a2 + a2))) - m' == 4 * p - m
    ensures dx == 8 * b2 * (x + 1) && dy == 8 * a2 * y - 12 * a2 ==>
            4 * (p + a2 - (py - (a2 + a2)) + (px + (b2 + b2))) - m' == 4 * p - m
  {
  }

  /** A region 2 step with p > 0 stays in the column. */
  lemma Step2Down(a2: int, b2: int, s: Ellipse)
    requires Region2Inv(a2, b2, s) && s.p > 0
    ensures Step2(a2, b2, s).x == s.x && Step2(a2, b2, s).y == s.y - 1
    ensures Region2Inv(a2, b2, Step2(a2, b2, s))
  {
    var x, y := s.x, s.y;
    Mid2Down(a2, b2, x, y);
    Step2Sums(a2, b2, x, y, s.p, s.px, s.py, Mid2(a2, b2, x, y), Mid2(a2, b2, x, y - 1), 0, 8 * a2 * y - 12 * a2);
  }

  /** A region 2 step with p <= 0 moves a column right as well. */
  lemma Step2Diagonal(a2: int, b2: int, s: Ellipse)
    requires Region2Inv(a2, b2, s) && s.p <= 0
    ensures Step2(a2, b2, s).x == s.x + 1 && Step2(a2, b2, s).y == s.y - 1
    ensures Region2Inv(a2, b2, Step2(a2, b2, s))
  {
    var x, y := s.x, s.y;
    Mid2Down(a2, b2, x, y);
    Mid2Right(a2, b2, x, y - 1);
    Step2Sums(a2, b2, x, y, s.p, s.px, s.py, Mid2(a2, b2, x, y), Mid2(a2, b2, x + 1, y - 1),
              8 * b2 * (x + 1), 8 * a2 * y - 12 * a2);
  }

  /** Every state of region 2 keeps the invariant, and region 2 stops on the
      axis (y == 0) when it starts on or above it. */
  lemma {:induction false} Region2States(a2: int, b2: int, s: Ellipse)
    requires Region2Inv(a2, b2, s)
    ensures forall i :: 0 <= i < |Region2(a2, b2, s)| ==> Region2Inv(a2, b2, Region2(a2, b2, s)[i])
    ensures s.y >= 0 ==> Final(s, Region2(a2, b2, s)).y == 0
    decreases s.y
  {
    if s.y > 0 {
      var t := Step2(a2, b2, s);
      Step2Inv(a2, b2, s);
      Region2States(a2, b2, t);
      assert Region2(a2, b2, s) == [t] + Region2(a2, b2, t);
      assert Final(s, Region2(a2, b2, s)) == Final(t, Region2(a2, b2, t));
    }
  }

  /** The pixels draw_ellipse plots are symmetric under both mirrors. */
  predicate Symmetric4(pts: seq<(int, int)>)
  {
    forall p {:trigger Mirrors(pts, p)} :: p in pts ==> Mirrors(pts, p)
  }

  /** The reflections of p in both axes are in pts. */
  predicate Mirrors(pts: seq<(int, int)>, p: (int, int))
  {
    (-p.0, p.1) in pts && (p.0, -p.1) in pts
  }

  lemma {:induction false} QuadrantsOfMembers(states: seq<Ellipse>, p: (int, int))
    requires p in QuadrantsOf(states)
    ensures (-p.0, p.1) in QuadrantsOf(states) && (p.0, -p.1) in QuadrantsOf(states)
  {
    if p !in Quadrants(states[0].x, states[0].y) {
      QuadrantsOfMembers(states[1..], p);
    }
  }

  lemma EllipsePointsSymmetric(a: int, b: int)
    ensures Symmetric4(EllipsePoints(a, b))
  {
    var pts, rest := EllipsePoints(a, b), QuadrantsOf(EllipseStates(a, b));
    forall p {:trigger Mirrors(pts, p)} | p in pts
      ensures Mirrors(pts, p)
    {
      if p in rest {
        QuadrantsOfMembers(EllipseStates(a, b), p);
      }
    }
  }
}
