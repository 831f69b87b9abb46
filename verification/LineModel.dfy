/** Straight lines on the integer grid: the point nearest the true line, by closed form. */
module LineModel {
  import opened Arithmetic

  datatype Point = Point(x: int, y: int)

  function Abs(a: int): nat { if a < 0 then -a else a }

  function Sign(from: int, to: int): int { if from < to then 1 else -1 }

  /** `k * minor / major` rounded to the nearest integer, ties towards zero. */
  function Nearest(k: nat, minor: nat, major: nat): nat {
    if major == 0 then 0 else (2 * (minor * k) + major - 1) / (2 * major)
  }

  /** Number of steps along the longer axis. */
  function Steps(a: Point, b: Point): nat {
    if Abs(b.x - a.x) >= Abs(b.y - a.y) then Abs(b.x - a.x) else Abs(b.y - a.y)
  }

  /** Steps taken along x and along y when `k` points are behind. */
  function StepsX(a: Point, b: Point, k: nat): nat {
    var dx, dy := Abs(b.x - a.x), Abs(b.y - a.y);
    if dx >= dy then k else Nearest(k, dx, dy)
  }

  function StepsY(a: Point, b: Point, k: nat): nat {
    var dx, dy := Abs(b.x - a.x), Abs(b.y - a.y);
    if dx >= dy then Nearest(k, dy, dx) else k
  }

  /** The `k`-th point of the line from `a` to `b`. */
  function LinePoint(a: Point, b: Point, k: nat): Point {
    Point(a.x + Sign(a.x, b.x) * StepsX(a, b, k), a.y + Sign(a.y, b.y) * StepsY(a, b, k))
  }

  function LineSet(a: Point, b: Point): set<Point> {
    set k | 0 <= k <= Steps(a, b) :: LinePoint(a, b, k)
  }

  /** `Nearest` is the one integer within half a unit, ties taken downwards. */
  lemma NearestIff(k: nat, minor: nat, major: nat, q: int)
    requires major > 0
    ensures q == Nearest(k, minor, major) <==>
            2 * (minor * k) - major <= 2 * (major * q) < 2 * (minor * k) + major
  {
    var n := 2 * (minor * k) + major - 1;
    DivIff(n, 2 * major, q);
    assert 2 * major * q == 2 * (major * q);
  }

  /** What the error term decides, `minor` being the shorter extent: after `k` steps along the major
      axis and the nearest number of minor steps, the loop always takes a major step, and takes a
      minor step exactly when the nearest number grows. */
  lemma ErrorDecides(k: nat, minor: nat, major: nat)
    requires minor <= major && k < major
    ensures var q := Nearest(k, minor, major);
            var e: int := 2 * (major - minor - minor * k + major * q);
            && 0 < e + minor
            && Nearest(k + 1, minor, major) == if e < major then q + 1 else q
  {
    var q := Nearest(k, minor, major);
    var a, b := minor * k, major * q;
    var e := 2 * (major - minor - a + b);
    assert 2 * a - major <= 2 * b < 2 * a + major by { NearestIff(k, minor, major, q); }
    assert a == b || minor < major by {
      if minor == major { NearestIff(k, minor, major, k); }
    }
    TimesNext(minor, k);
    if e < major {
      TimesNext(major, q);
      NearestIff(k + 1, minor, major, q + 1);
    } else {
      NearestIff(k + 1, minor, major, q);
    }
  }

  /** The error term when `k` points are behind. */
  function ErrorAt(a: Point, b: Point, k: nat): int {
    var dx, dy := Abs(b.x - a.x), Abs(b.y - a.y);
    dx - dy - dy * StepsX(a, b, k) + dx * StepsY(a, b, k)
  }

  /** Which axes one turn of the drawing loop steps along. */
  lemma StepCounts(a: Point, b: Point, k: nat)
    requires k < Steps(a, b)
    ensures var e2 := 2 * ErrorAt(a, b, k);
            && StepsX(a, b, k + 1) == StepsX(a, b, k) + (if 0 < e2 + Abs(b.y - a.y) then 1 else 0)
            && StepsY(a, b, k + 1) == StepsY(a, b, k) + (if e2 < Abs(b.x - a.x) then 1 else 0)
  {
    var dx, dy := Abs(b.x - a.x), Abs(b.y - a.y);
    if dx >= dy {
      ErrorDecides(k, dy, dx);
    } else {
      ErrorDecides(k, dx, dy);
    }
  }

  /** One turn of the drawing loop leads from each point of the line to the next. */
  lemma LineStep(a: Point, b: Point, k: nat)
    requires k < Steps(a, b)
    ensures var dx, dy := Abs(b.x - a.x), Abs(b.y - a.y);
            var e2 := 2 * ErrorAt(a, b, k);
            var p, q := LinePoint(a, b, k), LinePoint(a, b, k + 1);
            && q.x == (if 0 < e2 + dy then p.x + Sign(a.x, b.x) else p.x)
            && q.y == (if e2 < dx then p.y + Sign(a.y, b.y) else p.y)
            && ErrorAt(a, b, k + 1)
               == ErrorAt(a, b, k) - (if 0 < e2 + dy then dy else 0) + if e2 < dx then dx else 0
  {
    StepCounts(a, b, k);
    TimesNext(Abs(b.y - a.y), StepsX(a, b, k));
    TimesNext(Abs(b.x - a.x), StepsY(a, b, k));
    TimesNext(Sign(a.x, b.x), StepsX(a, b, k));
    TimesNext(Sign(a.y, b.y), StepsY(a, b, k));
  }

  lemma NearestBelow(k: nat, minor: nat, major: nat)
    requires major > 0 && k <= major
    ensures Nearest(k, minor, major) <= minor
  {
    var q := Nearest(k, minor, major);
    NearestIff(k, minor, major, q);
    MulMono(minor, k, major);
    assert minor * major == major * minor;
    if minor < q {
      MulMono(major, minor + 1, q);
    }
  }

  lemma NearestRange(k: nat, minor: nat, major: nat)
    requires minor <= major && k <= major
    ensures Nearest(k, minor, major) <= minor
    ensures k == major ==> Nearest(k, minor, major) == minor
    ensures k == 0 ==> Nearest(k, minor, major) == 0
  {
    if major > 0 {
      NearestBelow(k, minor, major);
      if k == major {
        NearestIff(major, minor, major, minor);
        assert minor * major == major * minor;
      } else if k == 0 {
        NearestIff(0, minor, major, 0);
        assert minor * 0 == 0 && major * 0 == 0;
      }
    }
  }

  predicate Between(a: int, b: int, c: int) {
    a <= b <= c || c <= b <= a
  }

  /** One coordinate after `k` steps. */
  lemma Coordinate(from: int, to: int, k: nat)
    ensures var x := from + Sign(from, to) * k;
            && (k == 0 ==> x == from)
            && (k <= Abs(to - from) ==> Between(from, x, to) && (x == to <==> k == Abs(to - from)))
  {
  }

  lemma CoordinateMoves(from: int, to: int, i: nat, j: nat)
    ensures Abs((from + Sign(from, to) * j) - (from + Sign(from, to) * i)) == Abs(j - i)
  {
  }

  lemma StepsInside(a: Point, b: Point, k: nat)
    requires k <= Steps(a, b)
    ensures StepsX(a, b, k) <= Abs(b.x - a.x) && StepsY(a, b, k) <= Abs(b.y - a.y)
    ensures k == 0 ==> StepsX(a, b, k) == 0 && StepsY(a, b, k) == 0
    ensures k == Steps(a, b) <==> StepsX(a, b, k) == Abs(b.x - a.x) && StepsY(a, b, k) == Abs(b.y - a.y)
  {
    var dx, dy := Abs(b.x - a.x), Abs(b.y - a.y);
    if dx >= dy {
      NearestRange(k, dy, dx);
    } else {
      NearestRange(k, dx, dy);
    }
  }

  /** Every point lies in the box of the end points, and off `b` before the last step. */
  lemma LineInside(a: Point, b: Point, k: nat)
    requires k <= Steps(a, b)
    ensures var p := LinePoint(a, b, k);
            && Between(a.x, p.x, b.x) && Between(a.y, p.y, b.y)
            && (p == b <==> k == Steps(a, b))
  {
    StepsInside(a, b, k);
    Coordinate(a.x, b.x, StepsX(a, b, k));
    Coordinate(a.y, b.y, StepsY(a, b, k));
  }

  /** The line starts and ends at its end points. */
  lemma LineEnds(a: Point, b: Point)
    ensures LinePoint(a, b, 0) == a
    ensures LinePoint(a, b, Steps(a, b)) == b
  {
    StepsInside(a, b, 0);
    Coordinate(a.x, b.x, 0);
    Coordinate(a.y, b.y, 0);
    LineInside(a, b, Steps(a, b));
  }

  lemma LineStart(a: Point, b: Point)
    ensures LinePoint(a, b, 0) == a
    ensures ErrorAt(a, b, 0) == Abs(b.x - a.x) - Abs(b.y - a.y)
  {
    LineEnds(a, b);
    StepsInside(a, b, 0);
  }

  lemma PointsDiffer(a: Point, b: Point, k: nat, l: nat)
    requires k != l
    ensures LinePoint(a, b, l) != LinePoint(a, b, k)
  {
    if Abs(b.x - a.x) >= Abs(b.y - a.y) {
      CoordinateMoves(a.x, b.x, k, l);
    } else {
      CoordinateMoves(a.y, b.y, k, l);
    }
  }

  /** The line has `Steps + 1` different points, each a king's move from the one before. */
  lemma LineConnected(a: Point, b: Point, k: nat)
    requires k < Steps(a, b)
    ensures var p, q := LinePoint(a, b, k), LinePoint(a, b, k + 1);
            p != q && Abs(q.x - p.x) <= 1 && Abs(q.y - p.y) <= 1
    ensures forall l | 0 <= l <= Steps(a, b) && l != k :: LinePoint(a, b, l) != LinePoint(a, b, k)
  {
    StepCounts(a, b, k);
    CoordinateMoves(a.x, b.x, StepsX(a, b, k), StepsX(a, b, k + 1));
    CoordinateMoves(a.y, b.y, StepsY(a, b, k), StepsY(a, b, k + 1));
    forall l | 0 <= l <= Steps(a, b) && l != k ensures LinePoint(a, b, l) != LinePoint(a, b, k) {
      PointsDiffer(a, b, k, l);
    }
  }

  lemma NearestAccurate(k: nat, minor: nat, major: nat)
    requires minor <= major
    ensures 2 * Abs(major * Nearest(k, minor, major) - minor * k) <= major
  {
    if major > 0 {
      NearestIff(k, minor, major, Nearest(k, minor, major));
    }
  }

  lemma SignedCross(dx: nat, dy: nat, sx: int, sy: int, i: nat, j: nat, vx: int, vy: int, px: int, py: int)
    requires (sx == 1 || sx == -1) && (sy == 1 || sy == -1)
    requires vx == sx * dx && vy == sy * dy && px == sx * i && py == sy * j
    ensures Abs(vx * py - vy * px) == Abs(dx * j - dy * i)
  {
    if sx == 1 && sy == 1 {
      assert vx * py == dx * j && vy * px == dy * i;
    } else if sx == 1 {
      assert vx * py == -(dx * j) && vy * px == -(dy * i);
    } else if sy == 1 {
      assert vx * py == -(dx * j) && vy * px == -(dy * i);
    } else {
      assert vx * py == dx * j && vy * px == dy * i;
    }
  }

  lemma StepsAccurate(a: Point, b: Point, k: nat)
    ensures 2 * Abs(Abs(b.x - a.x) * StepsY(a, b, k) - Abs(b.y - a.y) * StepsX(a, b, k)) <= Steps(a, b)
  {
    var dx, dy := Abs(b.x - a.x), Abs(b.y - a.y);
    if dx >= dy {
      NearestAccurate(k, dy, dx);
    } else {
      NearestAccurate(k, dx, dy);
    }
  }

  /** Every point is within half a pixel of the true line along the minor axis. */
  lemma LineAccurate(a: Point, b: Point, k: nat)
    requires k <= Steps(a, b)
    ensures var p := LinePoint(a, b, k);
            2 * Abs((b.x - a.x) * (p.y - a.y) - (b.y - a.y) * (p.x - a.x)) <= Steps(a, b)
  {
    var dx, dy, sx, sy := Abs(b.x - a.x), Abs(b.y - a.y), Sign(a.x, b.x), Sign(a.y, b.y);
    var i, j, p := StepsX(a, b, k), StepsY(a, b, k), LinePoint(a, b, k);
    StepsAccurate(a, b, k);
    SignedCross(dx, dy, sx, sy, i, j, b.x - a.x, b.y - a.y, p.x - a.x, p.y - a.y);
  }

  /** The error term stays small, so nothing overflows an int. */
  lemma ErrorSmall(a: Point, b: Point, k: nat)
    ensures Abs(ErrorAt(a, b, k)) <= 2 * Steps(a, b)
  {
    StepsAccurate(a, b, k);
  }

  /** The loop's variables at the top of one turn. */
  datatype Turn = Turn(p: Point, err: int)

  predicate StepsTo(t: Turn, u: Turn, dx: int, dy: int, sx: int, sy: int) {
    var e2 := 2 * t.err;
    && u.p.x == (if e2 > -dy then t.p.x + sx else t.p.x)
    && u.p.y == (if e2 < dx then t.p.y + sy else t.p.y)
    && u.err == t.err - (if e2 > -dy then dy else 0) + if e2 < dx then dx else 0
  }

  function Visited(turns: seq<Turn>, n: nat): set<Point>
    requires n <= |turns|
  {
    set k | 0 <= k < n :: turns[k].p
  }

  /** The loop's variables when `k` points are behind. */
  function TurnAt(a: Point, b: Point, k: nat): Turn {
    Turn(LinePoint(a, b, k), ErrorAt(a, b, k))
  }

  lemma TurnFollows(a: Point, b: Point, k: nat)
    requires k < Steps(a, b)
    ensures StepsTo(TurnAt(a, b, k), TurnAt(a, b, k + 1),
                    Abs(b.x - a.x), Abs(b.y - a.y), Sign(a.x, b.x), Sign(a.y, b.y))
  {
    LineStep(a, b, k);
  }

  lemma TurnInside(a: Point, b: Point, k: nat)
    requires k <= Steps(a, b)
    ensures var t := TurnAt(a, b, k);
            && Between(a.x, t.p.x, b.x) && Between(a.y, t.p.y, b.y)
            && (t.p == b <==> k == Steps(a, b))
            && Abs(t.err) <= 2 * Steps(a, b)
  {
    LineInside(a, b, k);
    ErrorSmall(a, b, k);
  }

  /** The turns of the drawing loop from `a` to `b`: it plots the line's points in order, stays in the
      box of the end points, and meets `b` at the last turn only. */
  lemma LineTurns(a: Point, b: Point) returns (turns: seq<Turn>)
    ensures |turns| == Steps(a, b) + 1
    ensures turns[0] == Turn(a, Abs(b.x - a.x) - Abs(b.y - a.y))
    ensures forall k {:trigger turns[k + 1]} | 0 <= k < |turns| - 1 ::
              StepsTo(turns[k], turns[k + 1], Abs(b.x - a.x), Abs(b.y - a.y), Sign(a.x, b.x), Sign(a.y, b.y))
    ensures forall k | 0 <= k < |turns| ::
              && Between(a.x, turns[k].p.x, b.x) && Between(a.y, turns[k].p.y, b.y)
              && (turns[k].p == b <==> k == |turns| - 1)
              && Abs(turns[k].err) <= 2 * Steps(a, b)
    ensures Visited(turns, |turns|) == LineSet(a, b)
  {
    turns := seq(Steps(a, b) + 1, k requires k >= 0 => TurnAt(a, b, k));
    LineStart(a, b);
    forall k {:trigger turns[k + 1]} | 0 <= k < |turns| - 1
      ensures StepsTo(turns[k], turns[k + 1], Abs(b.x - a.x), Abs(b.y - a.y), Sign(a.x, b.x), Sign(a.y, b.y))
    {
      TurnFollows(a, b, k);
    }
    forall k | 0 <= k < |turns|
      ensures Between(a.x, turns[k].p.x, b.x) && Between(a.y, turns[k].p.y, b.y)
      ensures turns[k].p == b <==> k == |turns| - 1
      ensures Abs(turns[k].err) <= 2 * Steps(a, b)
    {
      TurnInside(a, b, k);
    }
    assert forall k | 0 <= k < |turns| :: turns[k].p == LinePoint(a, b, k);
  }

  // ----- axis-aligned lines

  /** A horizontal or vertical line is the plain segment, drawn from either end. */
  lemma LineSetAxis(a: Point, b: Point)
    requires a.x == b.x || a.y == b.y
    ensures forall p :: p in LineSet(a, b) <==>
              Min(a.x, b.x) <= p.x <= Max(a.x, b.x) && Min(a.y, b.y) <= p.y <= Max(a.y, b.y)
  {
    forall k | 0 <= k <= Steps(a, b)
      ensures LinePoint(a, b, k) ==
              if a.y == b.y then Point(a.x + Sign(a.x, b.x) * k, a.y) else Point(a.x, a.y + Sign(a.y, b.y) * k)
    {
      var dx, dy := Abs(b.x - a.x), Abs(b.y - a.y);
      NearestRange(k, Min(dx, dy), Max(dx, dy));
    }
    forall p: Point | Min(a.x, b.x) <= p.x <= Max(a.x, b.x) && Min(a.y, b.y) <= p.y <= Max(a.y, b.y)
      ensures p in LineSet(a, b)
    {
      var k := Abs(p.x - a.x) + Abs(p.y - a.y);
      assert LinePoint(a, b, k) == p;
    }
  }

  lemma OnAxisLine(a: Point, b: Point, p: Point)
    requires a.x == b.x || a.y == b.y
    ensures p in LineSet(a, b) <==>
            Min(a.x, b.x) <= p.x <= Max(a.x, b.x) && Min(a.y, b.y) <= p.y <= Max(a.y, b.y)
  {
    LineSetAxis(a, b);
  }

  /** The outline of the box with corners (x, y) and (x2, y2), in either order. */
  function Perimeter(x: int, y: int, x2: int, y2: int): set<Point> {
    set px, py | Min(x, x2) <= px <= Max(x, x2) && Min(y, y2) <= py <= Max(y, y2) &&
                 (px == x || px == x2 || py == y || py == y2) :: Point(px, py)
  }

  lemma InPerimeter(x: int, y: int, x2: int, y2: int, p: Point)
    ensures p in Perimeter(x, y, x2, y2) <==>
            Min(x, x2) <= p.x <= Max(x, x2) && Min(y, y2) <= p.y <= Max(y, y2) &&
            (p.x == x || p.x == x2 || p.y == y || p.y == y2)
  {
    assert p == Point(p.x, p.y);
  }

  function Outline(x: int, y: int, x2: int, y2: int): set<Point> {
    LineSet(Point(x, y), Point(x2, y)) + LineSet(Point(x, y2), Point(x2, y2))
    + LineSet(Point(x, y), Point(x, y2)) + LineSet(Point(x2, y), Point(x2, y2))
  }

  /** Four axis-aligned lines between the corners draw exactly the outline. */
  lemma FourLines(x: int, y: int, x2: int, y2: int)
    ensures Outline(x, y, x2, y2) == Perimeter(x, y, x2, y2)
  {
    forall p: Point
      ensures p in Outline(x, y, x2, y2) <==> p in Perimeter(x, y, x2, y2)
    {
      InPerimeter(x, y, x2, y2, p);
      OnAxisLine(Point(x, y), Point(x2, y), p);
      OnAxisLine(Point(x, y2), Point(x2, y2), p);
      OnAxisLine(Point(x, y), Point(x, y2), p);
      OnAxisLine(Point(x2, y), Point(x2, y2), p);
    }
  }
}
