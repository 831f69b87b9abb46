/** Circles on the integer grid, by closed form. Points are offsets from the centre. */
module CircleModel {
  import opened Arithmetic
  import opened LineModel

  function Long(p: Point): nat { Max(Abs(p.x), Abs(p.y)) }

  function Short(p: Point): nat { Min(Abs(p.x), Abs(p.y)) }

  /** The longer coordinate is the integer nearest to where the true circle is at the shorter one. */
  predicate OnCircle(r: nat, p: Point) {
    if r == 0 then p == Point(0, 0)
    else Long(p) * Long(p) - Long(p) < r * r - Short(p) * Short(p) <= Long(p) * Long(p) + Long(p)
  }

  /** The circle's offsets whose shorter coordinate is at most `k`. */
  function Arc(r: nat, k: int): set<Point> {
    set x: int, y: int | -(r as int) <= x <= r && -(r as int) <= y <= r &&
                         OnCircle(r, Point(x, y)) && Short(Point(x, y)) <= k :: Point(x, y)
  }

  function Circle(r: nat): set<Point> {
    Arc(r, r)
  }

  function Disc(r: nat): set<Point> {
    set x: int, y: int | -(r as int) <= x <= r && -(r as int) <= y <= r && x * x + y * y <= r * r :: Point(x, y)
  }

  /** The eight reflections of an offset. */
  function Octants(x: int, y: int): set<Point> {
    {Point(x, y), Point(-x, y), Point(x, -y), Point(-x, -y), Point(y, x), Point(-y, x), Point(y, -x), Point(-y, -x)}
  }

  lemma SquareMono(a: nat, b: nat)
    ensures a < b <==> a * a < b * b
    ensures a < b ==> a * a + a <= b * b - b
  {
    if a < b {
      assert b * b - a * a == (b - a) * (b + a);
      MulMono(b + a, 1, b - a);
    } else {
      assert a * a - b * b == (a - b) * (a + b);
      MulMono(a + b, 0, a - b);
    }
  }

  lemma LongInside(r: nat, p: Point)
    requires OnCircle(r, p)
    ensures Long(p) <= r
  {
    if Long(p) > r {
      SquareMono(r, Long(p));
    }
  }

  lemma InArc(r: nat, k: int, p: Point)
    ensures p in Arc(r, k) <==> OnCircle(r, p) && Short(p) <= k
  {
    if OnCircle(r, p) {
      LongInside(r, p);
    }
    assert p == Point(p.x, p.y);
  }

  /** The circle is all offsets that satisfy the rounding condition. */
  lemma InCircle(r: nat, p: Point)
    ensures p in Circle(r) <==> OnCircle(r, p)
  {
    InArc(r, r, p);
    if OnCircle(r, p) {
      LongInside(r, p);
    }
  }

  /** For each shorter coordinate there is at most one longer one. */
  lemma OneLong(r: nat, p: Point, q: Point)
    requires r > 0 && OnCircle(r, p) && OnCircle(r, q) && Short(p) == Short(q)
    ensures Long(p) == Long(q)
  {
    SquareMono(Long(p), Long(q));
    SquareMono(Long(q), Long(p));
  }

  lemma OctantsByLength(x: int, y: int, p: Point)
    ensures p in Octants(x, y) <==>
            (Abs(p.x) == Abs(x) && Abs(p.y) == Abs(y)) || (Abs(p.x) == Abs(y) && Abs(p.y) == Abs(x))
  {
    assert p == Point(p.x, p.y);
  }

  lemma InOctants(x: int, y: int, p: Point)
    ensures p in Octants(x, y) <==> Short(p) == Short(Point(x, y)) && Long(p) == Long(Point(x, y))
  {
    OctantsByLength(x, y, p);
  }

  lemma SameLengths(r: nat, p: Point, q: Point)
    requires p in Circle(r) && Short(p) == Short(q) && Long(p) == Long(q)
    ensures q in Circle(r)
  {
    InCircle(r, p);
    InCircle(r, q);
  }

  /** The set of offsets is closed under all eight reflections. */
  lemma CircleSymmetric(r: nat, p: Point)
    requires p in Circle(r)
    ensures Octants(p.x, p.y) <= Circle(r)
  {
    forall q | q in Octants(p.x, p.y) ensures q in Circle(r) {
      InOctants(p.x, p.y, q);
      SameLengths(r, p, q);
    }
  }

  lemma SumOfSquares(p: Point)
    ensures p.x * p.x + p.y * p.y == Long(p) * Long(p) + Short(p) * Short(p)
  {
    assert Abs(p.x) * Abs(p.x) == p.x * p.x;
    assert Abs(p.y) * Abs(p.y) == p.y * p.y;
  }

  /** Every offset is as near to the true circle as its longer coordinate allows; the outline keeps
      strictly between the circles of radius r - 1 and r + 1. */
  lemma CircleAccurate(r: nat, p: Point)
    requires p in Circle(r)
    ensures Abs(p.x * p.x + p.y * p.y - r * r) <= Long(p) <= r
    ensures p in Disc(r + 1)
    ensures r > 0 ==> (r - 1) * (r - 1) < p.x * p.x + p.y * p.y < (r + 1) * (r + 1)
  {
    InCircle(r, p);
    LongInside(r, p);
    SumOfSquares(p);
    assert (r + 1) * (r + 1) == r * r + 2 * r + 1;
    assert r > 0 ==> (r - 1) * (r - 1) == r * r - 2 * r + 1;
    assert p == Point(p.x, p.y);
  }

  // ----- what the drawing loop keeps

  /** The decision variable's value at (x, y). */
  function Decision(r: int, x: int, y: int): int {
    (x + 1) * (x + 1) + y * y - y - r * r
  }

  /** `y` is nearest to the true circle at `x`. */
  predicate Tracks(r: nat, x: int, y: int) {
    y * y - y <= r * r - x * x <= y * y + y
  }

  /** One turn of the loop: the decision variable keeps its closed form and the point stays on the
      circle, unless it steps across the diagonal. */
  lemma CircleStep(r: nat, x: nat, y: nat)
    requires x < y && Tracks(r, x, y)
    requires y * y - y < r * r - x * x
    ensures var f := Decision(r, x, y);
            var y' := if f >= 0 then y - 1 else y;
            var f' := if f >= 0 then f - 2 * y + 2 else f;
            && f' + 2 * x + 3 == Decision(r, x + 1, y')
            && Tracks(r, x + 1, y')
            && (x + 1 <= y' ==> y' * y' - y' < r * r - (x + 1) * (x + 1))
            && x <= y'
  {
    var f := Decision(r, x, y);
    assert (x + 1) * (x + 1) == x * x + 2 * x + 1;
    assert (x + 2) * (x + 2) == x * x + 4 * x + 4;
    assert (y - 1) * (y - 1) == y * y - 2 * y + 1;
  }

  lemma GrowsAt(r: nat, x: nat, y: nat, p: Point)
    requires r > 0 && x < y && OnCircle(r, Point(x + 1, y))
    ensures p in Arc(r, x + 1) <==> p in Arc(r, x) || p in Octants(x + 1, y)
  {
    InArc(r, x, p);
    InArc(r, x + 1, p);
    InOctants(x + 1, y, p);
    if OnCircle(r, p) && Short(p) == x + 1 {
      OneLong(r, p, Point(x + 1, y));
    }
  }

  /** The arc grows by the octants of the next point. */
  lemma ArcGrows(r: nat, x: nat, y: nat)
    requires r > 0 && x < y && OnCircle(r, Point(x + 1, y))
    ensures Arc(r, x + 1) == Arc(r, x) + Octants(x + 1, y)
  {
    var next := Arc(r, x) + Octants(x + 1, y);
    forall p: Point ensures p in Arc(r, x + 1) <==> p in next {
      GrowsAt(r, x, y, p);
    }
  }

  /** Past the diagonal no offset is left. */
  lemma NoShorter(r: nat, x: nat, y: nat, p: Point)
    requires r > 0 && Tracks(r, x, y) && y < x && OnCircle(r, p)
    ensures Short(p) != x
  {
    SquareMono(y, Long(p));
  }

  lemma CrossesAt(r: nat, x: nat, p: Point)
    requires r > 0 && Tracks(r, x + 1, x) && OnCircle(r, Point(x, x + 1))
    ensures p in Arc(r, x + 1) <==> p in Arc(r, x) || p in Octants(x + 1, x)
  {
    InArc(r, x, p);
    InArc(r, x + 1, p);
    InOctants(x + 1, x, p);
    if OnCircle(r, p) {
      NoShorter(r, x + 1, x, p);
    }
  }

  /** A step across the diagonal adds nothing: its reflections are those of the point before. */
  lemma ArcCrosses(r: nat, x: nat)
    requires r > 0 && Tracks(r, x + 1, x) && OnCircle(r, Point(x, x + 1))
    ensures Arc(r, x + 1) == Arc(r, x) + Octants(x + 1, x)
  {
    var next := Arc(r, x) + Octants(x + 1, x);
    forall p: Point ensures p in Arc(r, x + 1) <==> p in next {
      CrossesAt(r, x, p);
    }
  }

  /** When the loop stops, nothing of the circle is missing. */
  lemma ArcComplete(r: nat, x: nat, y: nat)
    requires Tracks(r, x, y) && y <= x
    requires r > 0
    ensures Arc(r, x) == Circle(r)
  {
    forall p: Point ensures p in Arc(r, x) <==> p in Circle(r) {
      InArc(r, x, p);
      InCircle(r, p);
      if OnCircle(r, p) && Short(p) > x {
        SquareMono(y, Long(p));
        SquareMono(x, Short(p));
        assert false;
      }
    }
  }

  /** The four axis pixels drawn before the loop. */
  lemma ArcStart(r: nat)
    ensures Arc(r, 0) == Octants(0, r)
  {
    forall p: Point ensures p in Arc(r, 0) <==> p in Octants(0, r) {
      InArc(r, 0, p);
      InOctants(0, r, p);
      if r > 0 && OnCircle(r, p) && Short(p) == 0 {
        OneLong(r, p, Point(0, r));
      }
      if p in Octants(0, r) {
        SquareMono(0, r);
      }
    }
  }

  /** The loop's variables after one turn; `f` is the decision variable. */
  datatype CircleTurn = CircleTurn(x: int, y: int, f: int)

  /** The offsets plotted by the first `n` turns. */
  function Plotted(turns: seq<CircleTurn>, n: nat): set<Point>
    requires n <= |turns|
  {
    if n == 0 then {} else Plotted(turns, n - 1) + Octants(turns[n - 1].x, turns[n - 1].y)
  }

  lemma {:induction false} PlottedPrefix(turns: seq<CircleTurn>, t: CircleTurn, n: nat)
    requires n <= |turns|
    ensures Plotted(turns + [t], n) == Plotted(turns, n)
  {
    if n == 0 {
    } else {
      PlottedPrefix(turns, t, n - 1);
    }
  }

  /** What each turn keeps: the closed form of the decision variable, and the point on the circle
      unless it just crossed the diagonal. */
  ghost predicate OnTrack(r: nat, t: CircleTurn) {
    && 0 <= t.x <= t.y + 1 && 0 <= t.y <= r
    && t.f == Decision(r, t.x, t.y) && Tracks(r, t.x, t.y)
    && (t.x <= t.y && r > 0 ==> OnCircle(r, Point(t.x, t.y)))
  }

  /** The decision variable stays small, so nothing overflows an int. */
  lemma DecisionSmall(r: nat, t: CircleTurn)
    requires OnTrack(r, t)
    ensures -2 * r <= t.f <= 2 * r + 3
  {
    assert (t.x + 1) * (t.x + 1) == t.x * t.x + 2 * t.x + 1;
  }

  function NextTurn(t: CircleTurn): CircleTurn {
    CircleTurn(t.x + 1, if t.f >= 0 then t.y - 1 else t.y, (if t.f >= 0 then t.f - 2 * t.y + 2 else t.f) + 2 * t.x + 3)
  }

  lemma NextOnTrack(r: nat, t: CircleTurn)
    requires OnTrack(r, t) && t.x < t.y
    ensures OnTrack(r, NextTurn(t))
  {
    CircleStep(r, t.x, t.y);
    var u := NextTurn(t);
    if u.x <= u.y {
      assert Short(Point(u.x, u.y)) == u.x && Long(Point(u.x, u.y)) == u.y;
    }
  }

  /** One turn plots just what the arc grows by. */
  lemma NextArc(r: nat, t: CircleTurn)
    requires OnTrack(r, t) && t.x < t.y
    ensures OnTrack(r, NextTurn(t))
    ensures Arc(r, NextTurn(t).x) == Arc(r, t.x) + Octants(NextTurn(t).x, NextTurn(t).y)
  {
    NextOnTrack(r, t);
    var u := NextTurn(t);
    if u.x <= u.y {
      ArcGrows(r, t.x, u.y);
    } else {
      assert u.y == t.x && t.y == t.x + 1;
      ArcCrosses(r, t.x);
    }
  }

  lemma FirstOnTrack(r: nat)
    ensures OnTrack(r, CircleTurn(0, r, 1 - r))
    ensures Arc(r, 0) == Octants(0, r)
  {
    ArcStart(r);
    SquareMono(0, r);
    assert Long(Point(0, r)) == r && Short(Point(0, r)) == 0;
  }

  lemma LastTurn(r: nat, t: CircleTurn)
    requires OnTrack(r, t) && t.y <= t.x
    ensures Arc(r, t.x) == Circle(r)
  {
    if r > 0 {
      ArcComplete(r, t.x, t.y);
    } else {
      assert t.x == 0;
    }
  }

  // ----- an outline without gaps

  /** A walk from (x, y) towards the diagonal: one column further and at most one row down each time. */
  ghost predicate Walk(r: nat, path: seq<Point>, x: int) {
    && path != []
    && (forall k | 0 <= k < |path| :: path[k].x == x + k <= path[k].y && OnCircle(r, path[k]))
    && (forall i, j | 0 <= i < j < |path| && j == i + 1 :: path[i].y - 1 <= path[j].y <= path[i].y)
  }

  lemma WalkFrom(r: nat, path: seq<Point>, p: Point)
    requires Walk(r, path, p.x + 1) && OnCircle(r, p) && p.x <= p.y && p.y - 1 <= path[0].y <= p.y
    ensures Walk(r, [p] + path, p.x)
  {
    var all := [p] + path;
    forall k | 0 <= k < |all| ensures all[k].x == p.x + k <= all[k].y && OnCircle(r, all[k]) {
      if k > 0 {
        assert all[k] == path[k - 1];
      }
    }
    forall i, j | 0 <= i < j < |all| && j == i + 1 ensures all[i].y - 1 <= all[j].y <= all[i].y {
      if i > 0 {
        assert all[i] == path[i - 1] && all[j] == path[j - 1];
      }
    }
  }

  /** The walk from a turn of the loop ends next to its own mirror image, and behind it no column of
      the octant holds an offset. */
  lemma {:induction false} ArcWalk(r: nat, t: CircleTurn) returns (path: seq<Point>)
    requires r > 0 && OnTrack(r, t) && t.x <= t.y
    ensures Walk(r, path, t.x) && path[0] == Point(t.x, t.y)
    ensures var last := path[|path| - 1]; last.y <= last.x + 1
    ensures forall p | p in Circle(r) :: Short(p) < t.x + |path|
    decreases t.y - t.x
  {
    var p := Point(t.x, t.y);
    if t.x == t.y {
      path := [p];
      LastTurn(r, t);
      forall q | q in Circle(r) ensures Short(q) <= t.x { InArc(r, t.x, q); }
    } else {
      var u := NextTurn(t);
      NextOnTrack(r, t);
      if u.x <= u.y {
        var rest := ArcWalk(r, u);
        WalkFrom(r, rest, p);
        path := [p] + rest;
      } else {
        path := [p];
        LastTurn(r, u);
        forall q | q in Circle(r) ensures Short(q) <= t.x {
          InArc(r, u.x, q);
          NoShorter(r, u.x, u.y, q);
        }
      }
    }
  }

  /** The outline has no gaps: from the top of the circle a walk of king's moves takes every column
      up to the diagonal, its last offset is at most a king's move from its mirror image, and every
      offset of the circle is a reflection of one on the walk. */
  lemma CircleConnected(r: nat) returns (path: seq<Point>)
    requires r > 0
    ensures Walk(r, path, 0) && path[0] == Point(0, r)
    ensures var last := path[|path| - 1]; last.x <= last.y <= last.x + 1
    ensures forall p :: p in Circle(r) <==> Short(p) < |path| && p in Octants(path[Short(p)].x, path[Short(p)].y)
  {
    FirstOnTrack(r);
    path := ArcWalk(r, CircleTurn(0, r, 1 - r));
    forall p ensures p in Circle(r) <==> Short(p) < |path| && p in Octants(path[Short(p)].x, path[Short(p)].y) {
      if Short(p) < |path| {
        var q := path[Short(p)];
        InOctants(q.x, q.y, p);
        InCircle(r, p);
        if p in Circle(r) {
          OneLong(r, p, q);
        }
      }
    }
  }

  ghost predicate TurnsSoFar(r: nat, turns: seq<CircleTurn>) {
    && turns != [] && turns[0] == CircleTurn(0, r, 1 - r)
    && (forall k {:trigger turns[k + 1]} | 0 <= k < |turns| - 1 :: turns[k + 1] == NextTurn(turns[k]))
    && (forall k | 0 <= k < |turns| - 1 :: turns[k].x < turns[k].y)
    && (forall k | 0 <= k < |turns| :: -2 * r <= turns[k].f <= 2 * r + 3)
  }

  lemma ExtendTurns(r: nat, turns: seq<CircleTurn>, t: CircleTurn)
    requires TurnsSoFar(r, turns) && t == turns[|turns| - 1] && t.x < t.y
    requires -2 * r <= NextTurn(t).f <= 2 * r + 3
    ensures TurnsSoFar(r, turns + [NextTurn(t)])
    ensures Plotted(turns + [NextTurn(t)], |turns| + 1)
            == Plotted(turns, |turns|) + Octants(NextTurn(t).x, NextTurn(t).y)
  {
    PlottedPrefix(turns, NextTurn(t), |turns|);
  }

  /** A run of the loop so far, `t` being its last turn: just the arc up to its x is plotted. */
  ghost predicate RunSoFar(r: nat, turns: seq<CircleTurn>, t: CircleTurn) {
    && TurnsSoFar(r, turns) && t == turns[|turns| - 1]
    && OnTrack(r, t)
    && Plotted(turns, |turns|) == Arc(r, t.x)
  }

  lemma StartRun(r: nat)
    ensures RunSoFar(r, [CircleTurn(0, r, 1 - r)], CircleTurn(0, r, 1 - r))
  {
    FirstOnTrack(r);
    var turns := [CircleTurn(0, r, 1 - r)];
    assert Plotted(turns, 0) == {};
  }

  lemma ExtendRun(r: nat, turns: seq<CircleTurn>, t: CircleTurn)
    requires RunSoFar(r, turns, t) && t.x < t.y
    ensures RunSoFar(r, turns + [NextTurn(t)], NextTurn(t))
  {
    NextArc(r, t);
    DecisionSmall(r, NextTurn(t));
    ExtendTurns(r, turns, t);
  }

  lemma EndRun(r: nat, turns: seq<CircleTurn>, t: CircleTurn)
    requires RunSoFar(r, turns, t) && t.x >= t.y
    ensures turns[0] == CircleTurn(0, r, 1 - r)
    ensures forall k {:trigger turns[k + 1]} | 0 <= k < |turns| - 1 :: turns[k + 1] == NextTurn(turns[k])
    ensures forall k | 0 <= k < |turns| :: turns[k].x < turns[k].y <==> k < |turns| - 1
    ensures forall k | 0 <= k < |turns| :: -2 * r <= turns[k].f <= 2 * r + 3
    ensures Plotted(turns, |turns|) == Circle(r)
  {
    LastTurn(r, t);
  }

  /** The turns of the drawing loop: it stops once x reaches y, and by then has plotted exactly the
      circle; the decision variable stays within twice the radius. */
  lemma CircleTurns(r: nat) returns (turns: seq<CircleTurn>)
    ensures turns != [] && turns[0] == CircleTurn(0, r, 1 - r)
    ensures forall k {:trigger turns[k + 1]} | 0 <= k < |turns| - 1 :: turns[k + 1] == NextTurn(turns[k])
    ensures forall k | 0 <= k < |turns| :: turns[k].x < turns[k].y <==> k < |turns| - 1
    ensures forall k | 0 <= k < |turns| :: -2 * r <= turns[k].f <= 2 * r + 3
    ensures Plotted(turns, |turns|) == Circle(r)
  {
    var t := CircleTurn(0, r, 1 - r);
    turns := [t];
    StartRun(r);
    while t.x < t.y
      invariant turns != [] && RunSoFar(r, turns, t)
      decreases t.y - t.x
    {
      ExtendRun(r, turns, t);
      t := NextTurn(t);
      turns := turns + [t];
    }
    EndRun(r, turns, t);
  }
}
