/** The drawing routines, each writing pixels one by one into a clipped framebuffer. */
module Graphics {
  import opened Arithmetic
  import opened LineModel
  import opened CircleModel

  type UInt16 = n: int | 0 <= n < 0x1_0000
  type Color = bv32

  /** Conversion of an int argument to `uint16_t`. */
  function U16(n: int): UInt16 { n % 0x1_0000 }

  /** A coordinate off the left or top edge ends far to the right or below instead. */
  lemma U16Wraps(n: int)
    ensures 0 <= n < 0x1_0000 ==> U16(n) == n
    ensures -0x1_0000 <= n < 0 ==> U16(n) == n + 0x1_0000
    ensures 0x1_0000 <= n < 0x2_0000 ==> U16(n) == n - 0x1_0000
  {
  }

  /** The framebuffer after every on-screen point of `pts` was given one colour. */
  function Paint(fb: seq<Color>, width: nat, pts: set<Point>, color: Color): (painted: seq<Color>)
    ensures |painted| == |fb|
  {
    seq(|fb|, i requires 0 <= i < |fb| =>
      if width > 0 && Point(i % width, i / width) in pts then color else fb[i])
  }

  /** Offsets moved to a centre, in 16-bit coordinates. */
  function Around(pts: set<Point>, cx: int, cy: int): set<Point> {
    set p | p in pts :: Point(U16(cx + p.x), U16(cy + p.y))
  }

  lemma AroundUnion(a: set<Point>, b: set<Point>, cx: int, cy: int)
    ensures Around(a + b, cx, cy) == Around(a, cx, cy) + Around(b, cx, cy)
  {
  }

  lemma PaintUnion(fb: seq<Color>, width: nat, a: set<Point>, b: set<Point>, color: Color)
    ensures Paint(Paint(fb, width, a, color), width, b, color) == Paint(fb, width, a + b, color)
  {
  }

  /** A framebuffer cell and its coordinates determine one another. */
  lemma CellOf(width: nat, x: nat, y: nat, i: nat)
    requires x < width
    ensures i == y * width + x <==> i % width == x && i / width == y
  {
    DivIff(i, width, y);
    assert width * y == y * width;
    assert i == width * (i / width) + i % width;
  }

  lemma CellInside(width: nat, height: nat, x: nat, y: nat)
    requires x < width && y < height
    ensures y * width + x < width * height
  {
    MulMono(width, y + 1, height);
    assert width * (y + 1) == y * width + width;
  }

  /** What a painted framebuffer shows at a cell on the screen, and nothing else. */
  lemma PaintAt(fb: seq<Color>, width: nat, height: nat, pts: set<Point>, color: Color, x: nat, y: nat)
    requires |fb| == width * height && x < width && y < height
    ensures y * width + x < |fb|
    ensures Paint(fb, width, pts, color)[y * width + x]
            == if Point(x, y) in pts then color else fb[y * width + x]
  {
    CellInside(width, height, x, y);
    CellOf(width, x, y, y * width + x);
  }

  predicate Within(p: Point, width: nat, height: nat) {
    0 <= p.x < width && 0 <= p.y < height
  }

  /** The cell of the framebuffer that shows a point of the screen. */
  function CellAt(fb: seq<Color>, width: nat, height: nat, p: Point): Color
    requires |fb| == width * height && Within(p, width, height)
  {
    CellInside(width, height, p.x, p.y);
    fb[p.y * width + p.x]
  }

  lemma PaintedCell(fb: seq<Color>, width: nat, height: nat, pts: set<Point>, color: Color, p: Point)
    requires |fb| == width * height && Within(p, width, height)
    ensures CellAt(Paint(fb, width, pts, color), width, height, p)
            == if p in pts then color else CellAt(fb, width, height, p)
  {
    PaintAt(fb, width, height, pts, color, p.x, p.y);
  }

  lemma PaintOne(fb: seq<Color>, width: nat, height: nat, x: nat, y: nat, color: Color)
    requires |fb| == width * height
    ensures x < width && y < height ==>
              && y * width + x < |fb|
              && fb[y * width + x := color] == Paint(fb, width, {Point(x, y)}, color)
    ensures !(x < width && y < height) ==> fb == Paint(fb, width, {Point(x, y)}, color)
  {
    if x < width && y < height {
      CellInside(width, height, x, y);
      forall i | 0 <= i < |fb|
        ensures fb[y * width + x := color][i] == Paint(fb, width, {Point(x, y)}, color)[i]
      {
        CellOf(width, x, y, i);
      }
    } else {
      forall i | 0 <= i < |fb|
        ensures fb[i] == Paint(fb, width, {Point(x, y)}, color)[i]
      {
        if width > 0 && i / width >= height {
          MulMono(width, height, i / width);
          assert false;
        }
      }
    }
  }

  function Quad(a: int, b: int): set<Point> {
    {Point(a, b), Point(-a, b), Point(a, -b), Point(-a, -b)}
  }

  lemma AroundQuad(a: int, b: int, cx: int, cy: int)
    ensures Around(Quad(a, b), cx, cy)
            == {Point(U16(cx + a), U16(cy + b))} + {Point(U16(cx - a), U16(cy + b))}
               + {Point(U16(cx + a), U16(cy - b))} + {Point(U16(cx - a), U16(cy - b))}
  {
    assert cx + (-a) == cx - a && cy + (-b) == cy - b;
  }

  function Box(x: int, y: int, x2: int, y2: int): set<Point> {
    set px, py | x <= px < x2 && y <= py < y2 :: Point(px, py)
  }

  lemma InBox(x: int, y: int, x2: int, y2: int)
    ensures forall p: Point :: p in Box(x, y, x2, y2) <==> x <= p.x < x2 && y <= p.y < y2
  {
    assert forall p: Point :: p == Point(p.x, p.y);
  }

  /** The outermost pixels of a rectangle `w` wide and `h` high. */
  ghost function Frame(x: int, y: int, w: int, h: int): iset<Point> {
    iset p: Point | x <= p.x < x + w && y <= p.y < y + h &&
                    (p.x == x || p.x == x + w - 1 || p.y == y || p.y == y + h - 1)
  }

  ghost function Rectangle(x: int, y: int, w: int, h: int): iset<Point> {
    iset p: Point | x <= p.x < x + w && y <= p.y < y + h
  }

  /** The circle and the disc of radius `r` around a centre, in coordinates without a bound. */
  ghost function Ring(cx: int, cy: int, r: nat): iset<Point> {
    iset p: Point | Point(p.x - cx, p.y - cy) in Circle(r)
  }

  ghost function Ball(cx: int, cy: int, r: nat): iset<Point> {
    iset p: Point | (p.x - cx) * (p.x - cx) + (p.y - cy) * (p.y - cy) <= r * r
  }

  lemma PerimeterFrame(x: UInt16, y: UInt16, w: UInt16, h: UInt16)
    requires 0 < w <= 0x1_0000 - x && 0 < h <= 0x1_0000 - y
    ensures forall p :: p in Perimeter(x, y, U16(x + w - 1), U16(y + h - 1)) <==> p in Frame(x, y, w, h)
  {
    U16Wraps(x + w - 1);
    U16Wraps(y + h - 1);
    forall p: Point
      ensures p in Perimeter(x, y, x + w - 1, y + h - 1) <==> p in Frame(x, y, w, h)
    {
      InPerimeter(x, y, x + w - 1, y + h - 1, p);
    }
  }

  lemma PaintNothing(fb: seq<Color>, width: nat, color: Color)
    ensures Paint(fb, width, {}, color) == fb
  {
  }

  /** The part of a disc that comes before offset (i, j), column by column. */
  function DiscPart(r: nat, i: int, j: int): set<Point> {
    set p | p in Disc(r) && (p.x < i || (p.x == i && p.y < j))
  }

  lemma InDisc(r: nat, p: Point)
    ensures p in Disc(r) <==> p.x * p.x + p.y * p.y <= r * r
  {
    assert p == Point(p.x, p.y);
    assert Abs(p.x) * Abs(p.x) == p.x * p.x && Abs(p.y) * Abs(p.y) == p.y * p.y;
    SquareMono(r, Abs(p.x));
    SquareMono(r, Abs(p.y));
  }

  lemma DiscNext(r: nat, i: int, j: int)
    ensures DiscPart(r, i, j + 1)
            == if i * i + j * j <= r * r then DiscPart(r, i, j) + {Point(i, j)} else DiscPart(r, i, j)
  {
    InDisc(r, Point(i, j));
  }

  lemma DiscRow(r: nat, i: int)
    ensures DiscPart(r, i + 1, -(r as int)) == DiscPart(r, i, r + 1)
  {
  }

  lemma DiscAll(r: nat)
    ensures DiscPart(r, r + 1, -(r as int)) == Disc(r)
  {
  }

  lemma PaintFour(fb: seq<Color>, width: nat, p: Point, q: Point, s: Point, t: Point, color: Color)
    ensures Paint(Paint(Paint(Paint(fb, width, {p}, color), width, {q}, color), width, {s}, color), width, {t}, color)
            == Paint(fb, width, {p} + {q} + {s} + {t}, color)
  {
    PaintUnion(fb, width, {p}, {q}, color);
    PaintUnion(fb, width, {p} + {q}, {s}, color);
    PaintUnion(fb, width, {p} + {q} + {s}, {t}, color);
  }

  function Move(p: Point, cx: int, cy: int): Point {
    Point(U16(cx + p.x), U16(cy + p.y))
  }

  lemma AroundOne(p: Point, cx: int, cy: int)
    ensures Around({p}, cx, cy) == {Move(p, cx, cy)}
  {
  }

  lemma AroundFour(p: Point, q: Point, s: Point, t: Point, cx: int, cy: int)
    ensures Around({p} + {q} + {s} + {t}, cx, cy)
            == {Move(p, cx, cy)} + {Move(q, cx, cy)} + {Move(s, cx, cy)} + {Move(t, cx, cy)}
  {
  }

  lemma OctantsOfAxis(r: int)
    ensures Octants(0, r) == {Point(0, r)} + {Point(0, -r)} + {Point(r, 0)} + {Point(-r, 0)}
  {
  }

  lemma MoveAxis(x: UInt16, y: UInt16, r: int)
    ensures Move(Point(0, r), x, y) == Point(x, U16(y + r)) && Move(Point(0, -r), x, y) == Point(x, U16(y - r))
    ensures Move(Point(r, 0), x, y) == Point(U16(x + r), y) && Move(Point(-r, 0), x, y) == Point(U16(x - r), y)
  {
  }

  /** The four axis pixels are the octants of offset (0, r). */
  lemma AroundAxes(x: UInt16, y: UInt16, r: int)
    ensures {Point(x, U16(y + r))} + {Point(x, U16(y - r))} + {Point(U16(x + r), y)} + {Point(U16(x - r), y)}
            == Around(Octants(0, r), x, y)
  {
    AroundFour(Point(0, r), Point(0, -r), Point(r, 0), Point(-r, 0), x, y);
    OctantsOfAxis(r);
    MoveAxis(x, y, r);
  }

  /** One turn of the inner fill loop on the framebuffer. */
  lemma PaintDiscNext(fb: seq<Color>, width: nat, r: nat, i: int, j: int, x: int, y: int, color: Color)
    ensures var part := Paint(fb, width, Around(DiscPart(r, i, j), x, y), color);
            Paint(fb, width, Around(DiscPart(r, i, j + 1), x, y), color)
            == if i * i + j * j <= r * r then Paint(part, width, {Point(U16(x + i), U16(y + j))}, color) else part
  {
    DiscNext(r, i, j);
    if i * i + j * j <= r * r {
      PaintUnion(fb, width, Around(DiscPart(r, i, j), x, y), Around({Point(i, j)}, x, y), color);
      AroundUnion(DiscPart(r, i, j), {Point(i, j)}, x, y);
      AroundOne(Point(i, j), x, y);
    }
  }

  /** No offset of at most `r` in either direction wraps around onto the screen. */
  predicate Reaches(cx: int, cy: int, r: nat, width: nat, height: nat) {
    cx + r < 0x1_0000 && cy + r < 0x1_0000 && width + r <= 0x1_0000 && height + r <= 0x1_0000
  }

  lemma MovedTo(q: Point, r: nat, cx: UInt16, cy: UInt16, p: Point)
    requires Abs(q.x) <= r && Abs(q.y) <= r && 0 <= p.x && 0 <= p.y
    requires cx + r < 0x1_0000 && cy + r < 0x1_0000 && p.x + r < 0x1_0000 && p.y + r < 0x1_0000
    ensures Move(q, cx, cy) == p <==> q == Point(p.x - cx, p.y - cy)
  {
    U16Wraps(cx + q.x);
    U16Wraps(cy + q.y);
  }

  /** On the screen, offsets around a centre show up where they belong and nowhere else: what falls
      off the left or the top edge does not come back. */
  lemma AroundOnScreen(pts: set<Point>, r: nat, cx: UInt16, cy: UInt16, p: Point)
    requires forall q | q in pts :: Abs(q.x) <= r && Abs(q.y) <= r
    requires 0 <= p.x && 0 <= p.y
    requires cx + r < 0x1_0000 && cy + r < 0x1_0000 && p.x + r < 0x1_0000 && p.y + r < 0x1_0000
    ensures p in Around(pts, cx, cy) <==> Point(p.x - cx, p.y - cy) in pts
  {
    forall q | q in pts ensures Move(q, cx, cy) == p <==> q == Point(p.x - cx, p.y - cy) {
      MovedTo(q, r, cx, cy, p);
    }
    var offset := Point(p.x - cx, p.y - cy);
    assert offset in pts ==> Move(offset, cx, cy) == p;
    assert forall q | q in pts :: Move(q, cx, cy) in Around(pts, cx, cy);
    assert p in Around(pts, cx, cy) ==> exists q | q in pts :: Move(q, cx, cy) == p;
  }

  lemma CircleWithin(r: nat)
    ensures forall q | q in Circle(r) :: Abs(q.x) <= r && Abs(q.y) <= r
  {
  }

  lemma CircleOnScreen(r: nat, cx: UInt16, cy: UInt16, p: Point)
    requires 0 <= p.x && 0 <= p.y
    requires cx + r < 0x1_0000 && cy + r < 0x1_0000 && p.x + r < 0x1_0000 && p.y + r < 0x1_0000
    ensures p in Around(Circle(r), cx, cy) <==> p in Ring(cx, cy, r)
  {
    assert forall q | q in Circle(r) :: Abs(q.x) <= r && Abs(q.y) <= r by { CircleWithin(r); }
    AroundOnScreen(Circle(r), r, cx, cy, p);
  }

  lemma DiscOnScreen(r: nat, cx: UInt16, cy: UInt16, p: Point)
    requires 0 <= p.x && 0 <= p.y
    requires cx + r < 0x1_0000 && cy + r < 0x1_0000 && p.x + r < 0x1_0000 && p.y + r < 0x1_0000
    ensures p in Around(Disc(r), cx, cy) <==> p in Ball(cx, cy, r)
  {
    AroundOnScreen(Disc(r), r, cx, cy, p);
    InDisc(r, Point(p.x - cx, p.y - cy));
  }

  class Screen {
    var framebuffer: array<Color>
    var width: UInt16
    var height: UInt16

    ghost predicate Valid()
      reads this
    {
      framebuffer.Length == width * height
    }

    ghost predicate Painted(before: seq<Color>, pts: set<Point>, color: Color)
      reads this, framebuffer
    {
      framebuffer[..] == Paint(before, width, pts, color)
    }

    /** On the screen exactly the points of `pts` have changed, to the colour. */
    ghost predicate Shows(before: seq<Color>, pts: iset<Point>, color: Color)
      requires Valid() && |before| == framebuffer.Length
      reads this, framebuffer
    {
      forall p: Point | Within(p, width, height) ::
        CellAt(framebuffer[..], width, height, p) == if p in pts then color else CellAt(before, width, height, p)
    }

    lemma PaintedShows(before: seq<Color>, pts: set<Point>, shown: iset<Point>, color: Color)
      requires Valid() && |before| == framebuffer.Length && Painted(before, pts, color)
      requires forall p: Point | Within(p, width, height) :: p in pts <==> p in shown
      ensures Shows(before, shown, color)
    {
      forall p: Point | Within(p, width, height)
        ensures CellAt(framebuffer[..], width, height, p)
                == if p in shown then color else CellAt(before, width, height, p)
      {
        PaintedCell(before, width, height, pts, color, p);
      }
    }

    constructor (width: UInt16, height: UInt16)
      ensures Valid() && this.width == width && this.height == height
    {
      this.width, this.height := width, height;
      framebuffer := new Color[width * height];
    }

    method PutPixel(x: UInt16, y: UInt16, color: Color)
      requires Valid()
      modifies framebuffer
      ensures Painted(old(framebuffer[..]), {Point(x, y)}, color)
    {
      PaintOne(framebuffer[..], width, height, x, y, color);
      if x >= width || y >= height {
        return;
      }
      framebuffer[y * width + x] := color;
    }

    /** The pixel of one turn of the line loop (kernel/graphics.c:99), on top of what was drawn
        before. */
    method PlotTurn(x: UInt16, y: UInt16, color: Color, ghost fb: seq<Color>, ghost turns: seq<Turn>, ghost k: nat)
      requires Valid() && k < |turns| && turns[k].p == Point(x, y)
      requires Painted(fb, Visited(turns, k), color)
      modifies framebuffer
      ensures Painted(fb, Visited(turns, k + 1), color)
    {
      PutPixel(x, y, color);
      PaintUnion(fb, width, Visited(turns, k), {Point(x, y)}, color);
      assert Visited(turns, k + 1) == Visited(turns, k) + {turns[k].p};
    }

    /** The loop of the line (kernel/graphics.c:98-110). */
    method LineLoop(fromX: UInt16, fromY: UInt16, x1: UInt16, y1: UInt16, dx: int, dy: int, sx: int, sy: int,
                    color: Color, ghost fb: seq<Color>, ghost turns: seq<Turn>)
      requires Valid() && Painted(fb, Visited(turns, 0), color)
      requires turns != [] && turns[0] == Turn(Point(fromX, fromY), dx - dy)
      requires forall k {:trigger turns[k + 1]} | 0 <= k < |turns| - 1 ::
                 StepsTo(turns[k], turns[k + 1], dx, dy, sx, sy)
      requires forall k | 0 <= k < |turns| ::
                 && 0 <= turns[k].p.x < 0x1_0000 && 0 <= turns[k].p.y < 0x1_0000
                 && (turns[k].p == Point(x1, y1) <==> k == |turns| - 1)
      modifies framebuffer
      ensures Painted(fb, Visited(turns, |turns|), color)
    {
      var x0: UInt16, y0: UInt16 := fromX, fromY;
      var err := dx - dy;
      ghost var k := 0;
      while true
        invariant k < |turns| && turns[k] == Turn(Point(x0, y0), err)
        invariant Painted(fb, Visited(turns, k), color)
        decreases |turns| - k
      {
        PlotTurn(x0, y0, color, fb, turns, k);
        if x0 == x1 && y0 == y1 {
          break;
        }
        assert StepsTo(turns[k], turns[k + 1], dx, dy, sx, sy);
        var e2 := 2 * err;
        if e2 > -dy {
          err := err - dy;
          x0 := x0 + sx;
        }
        if e2 < dx {
          err := err + dx;
          y0 := y0 + sy;
        }
        k := k + 1;
      }
    }

    method DrawLine(x0: UInt16, y0: UInt16, x1: UInt16, y1: UInt16, color: Color)
      requires Valid()
      modifies framebuffer
      ensures Painted(old(framebuffer[..]), LineSet(Point(x0, y0), Point(x1, y1)), color)
    {
      var dx: int := Abs(x1 - x0);
      var dy: int := Abs(y1 - y0);
      var sx := if x0 < x1 then 1 else -1;
      var sy := if y0 < y1 then 1 else -1;
      ghost var turns := LineTurns(Point(x0, y0), Point(x1, y1));
      assert Visited(turns, 0) == {};
      PaintNothing(framebuffer[..], width, color);
      LineLoop(x0, y0, x1, y1, dx, dy, sx, sy, color, framebuffer[..], turns);
    }

    method DrawRect(x: UInt16, y: UInt16, w: UInt16, h: UInt16, color: Color)
      requires Valid()
      modifies framebuffer
      ensures Painted(old(framebuffer[..]), Perimeter(x, y, U16(x + w - 1), U16(y + h - 1)), color)
      ensures 0 < w <= 0x1_0000 - x && 0 < h <= 0x1_0000 - y ==>
                Shows(old(framebuffer[..]), Frame(x, y, w, h), color)
    {
      var x2, y2 := U16(x + w - 1), U16(y + h - 1);
      ghost var fb := framebuffer[..];
      ghost var a, b := LineSet(Point(x, y), Point(x2, y)), LineSet(Point(x, y2), Point(x2, y2));
      ghost var c, d := LineSet(Point(x, y), Point(x, y2)), LineSet(Point(x2, y), Point(x2, y2));
      DrawLine(x, y, x2, y, color);
      DrawLine(x, y2, x2, y2, color);
      DrawLine(x, y, x, y2, color);
      DrawLine(x2, y, x2, y2, color);
      PaintUnion(fb, width, a, b, color);
      PaintUnion(fb, width, a + b, c, color);
      PaintUnion(fb, width, a + b + c, d, color);
      FourLines(x, y, x2, y2);
      if 0 < w <= 0x1_0000 - x && 0 < h <= 0x1_0000 - y {
        PerimeterFrame(x, y, w, h);
        PaintedShows(fb, Perimeter(x, y, x2, y2), Frame(x, y, w, h), color);
      }
    }

    method FillRect(x: UInt16, y: UInt16, w: UInt16, h: UInt16, color: Color)
      requires Valid()
      requires y + h < 0x1_0000 && (h > 0 ==> x + w < 0x1_0000)
      modifies framebuffer
      ensures Painted(old(framebuffer[..]), Box(x, y, x + w, y + h), color)
      ensures Shows(old(framebuffer[..]), Rectangle(x, y, w, h), color)
    {
      ghost var fb := framebuffer[..];
      var i: UInt16 := y;
      assert Box(x, y, x + w, y) == {};
      PaintNothing(fb, width, color);
      while i < y + h
        invariant y <= i <= y + h
        invariant Painted(fb, Box(x, y, x + w, i), color)
      {
        ghost var above, row := Box(x, y, x + w, i), framebuffer[..];
        var j: UInt16 := x;
        assert Box(x, i, x, i + 1) == {};
        PaintNothing(row, width, color);
        while j < x + w
          invariant x <= j <= x + w
          invariant Painted(row, Box(x, i, j, i + 1), color)
        {
          PutPixel(j, i, color);
          PaintUnion(row, width, Box(x, i, j, i + 1), {Point(j, i)}, color);
          assert Box(x, i, j + 1, i + 1) == Box(x, i, j, i + 1) + {Point(j, i)};
          j := j + 1;
        }
        PaintUnion(fb, width, above, Box(x, i, x + w, i + 1), color);
        assert Box(x, y, x + w, i + 1) == above + Box(x, i, x + w, i + 1);
        i := i + 1;
      }
      InBox(x, y, x + w, y + h);
      PaintedShows(fb, Box(x, y, x + w, y + h), Rectangle(x, y, w, h), color);
    }

    method Plot4(cx: UInt16, cy: UInt16, a: int, b: int, color: Color)
      requires Valid()
      modifies framebuffer
      ensures Painted(old(framebuffer[..]), Around(Quad(a, b), cx, cy), color)
    {
      ghost var fb := framebuffer[..];
      ghost var p, q := Point(U16(cx + a), U16(cy + b)), Point(U16(cx - a), U16(cy + b));
      ghost var s, t := Point(U16(cx + a), U16(cy - b)), Point(U16(cx - a), U16(cy - b));
      PutPixel(U16(cx + a), U16(cy + b), color);
      PutPixel(U16(cx - a), U16(cy + b), color);
      PutPixel(U16(cx + a), U16(cy - b), color);
      PutPixel(U16(cx - a), U16(cy - b), color);
      PaintFour(fb, width, p, q, s, t, color);
      AroundQuad(a, b, cx, cy);
    }

    /** The eight pixels of one turn of the circle loop (kernel/graphics.c:153-160), on top of what
        was drawn before. */
    method PlotOctants(cx: UInt16, cy: UInt16, a: int, b: int, color: Color,
                       ghost fb: seq<Color>, ghost before: set<Point>)
      requires Valid() && Painted(fb, Around(before, cx, cy), color)
      modifies framebuffer
      ensures Painted(fb, Around(before + Octants(a, b), cx, cy), color)
    {
      Plot4(cx, cy, a, b, color);
      PaintUnion(fb, width, Around(before, cx, cy), Around(Quad(a, b), cx, cy), color);
      AroundUnion(before, Quad(a, b), cx, cy);
      Plot4(cx, cy, b, a, color);
      PaintUnion(fb, width, Around(before + Quad(a, b), cx, cy), Around(Quad(b, a), cx, cy), color);
      AroundUnion(before + Quad(a, b), Quad(b, a), cx, cy);
      assert before + Quad(a, b) + Quad(b, a) == before + Octants(a, b);
    }

    /** The four pixels before the circle loop (kernel/graphics.c:138-141). */
    method PlotAxes(x: UInt16, y: UInt16, radius: UInt16, color: Color)
      requires Valid()
      modifies framebuffer
      ensures Painted(old(framebuffer[..]), Around(Octants(0, radius), x, y), color)
    {
      ghost var fb := framebuffer[..];
      ghost var p, q := Point(x, U16(y + radius)), Point(x, U16(y - radius));
      ghost var s, t := Point(U16(x + radius), y), Point(U16(x - radius), y);
      PutPixel(x, U16(y + radius), color);
      PutPixel(x, U16(y - radius), color);
      PutPixel(U16(x + radius), y, color);
      PutPixel(U16(x - radius), y, color);
      PaintFour(fb, width, p, q, s, t, color);
      AroundAxes(x, y, radius);
    }

    /** The loop of the circle (kernel/graphics.c:132-136 and 143-161). */
    method CircleLoop(x: UInt16, y: UInt16, radius: UInt16, color: Color,
                      ghost fb: seq<Color>, ghost turns: seq<CircleTurn>)
      requires Valid()
      requires turns != [] && turns[0] == CircleTurn(0, radius, 1 - radius)
      requires forall k {:trigger turns[k + 1]} | 0 <= k < |turns| - 1 :: turns[k + 1] == NextTurn(turns[k])
      requires forall k | 0 <= k < |turns| :: turns[k].x < turns[k].y <==> k < |turns| - 1
      requires Painted(fb, Around(Plotted(turns, 1), x, y), color)
      modifies framebuffer
      ensures Painted(fb, Around(Plotted(turns, |turns|), x, y), color)
    {
      var f: int := 1 - radius;
      var ddFx := 1;
      var ddFy := -2 * radius;
      var x1 := 0;
      var y1: int := radius;
      ghost var k := 0;
      while x1 < y1
        invariant k < |turns| && turns[k] == CircleTurn(x1, y1, f)
        invariant ddFx == 2 * x1 + 1 && ddFy == -2 * y1
        invariant Painted(fb, Around(Plotted(turns, k + 1), x, y), color)
        decreases |turns| - k
      {
        assert turns[k + 1] == NextTurn(turns[k]);
        if f >= 0 {
          y1 := y1 - 1;
          ddFy := ddFy + 2;
          f := f + ddFy;
        }
        x1 := x1 + 1;
        ddFx := ddFx + 2;
        f := f + ddFx;
        PlotOctants(x, y, x1, y1, color, fb, Plotted(turns, k + 1));
        k := k + 1;
      }
    }

    lemma ShowsCircle(x: UInt16, y: UInt16, r: nat, color: Color, before: seq<Color>)
      requires Valid() && |before| == framebuffer.Length && Reaches(x, y, r, width, height)
      requires Painted(before, Around(Circle(r), x, y), color)
      ensures Shows(before, Ring(x, y, r), color)
    {
      forall p: Point | Within(p, width, height)
        ensures p in Around(Circle(r), x, y) <==> p in Ring(x, y, r)
      {
        CircleOnScreen(r, x, y, p);
      }
      PaintedShows(before, Around(Circle(r), x, y), Ring(x, y, r), color);
    }

    lemma ShowsDisc(x: UInt16, y: UInt16, r: nat, color: Color, before: seq<Color>)
      requires Valid() && |before| == framebuffer.Length && Reaches(x, y, r, width, height)
      requires Painted(before, Around(Disc(r), x, y), color)
      ensures Shows(before, Ball(x, y, r), color)
    {
      forall p: Point | Within(p, width, height)
        ensures p in Around(Disc(r), x, y) <==> p in Ball(x, y, r)
      {
        DiscOnScreen(r, x, y, p);
      }
      PaintedShows(before, Around(Disc(r), x, y), Ball(x, y, r), color);
    }

    method DrawCircle(x: UInt16, y: UInt16, radius: UInt16, color: Color)
      requires Valid()
      modifies framebuffer
      ensures Painted(old(framebuffer[..]), Around(Circle(radius), x, y), color)
      ensures Reaches(x, y, radius, width, height) ==>
                Shows(old(framebuffer[..]), Ring(x, y, radius), color)
    {
      ghost var fb := framebuffer[..];
      ghost var turns := CircleTurns(radius);
      PlotAxes(x, y, radius, color);
      assert Plotted(turns, 1) == Octants(0, radius);
      CircleLoop(x, y, radius, color, fb, turns);
      if Reaches(x, y, radius, width, height) {
        ShowsCircle(x, y, radius, color, fb);
      }
    }

    method FillCircle(x: UInt16, y: UInt16, radius: UInt16, color: Color)
      requires Valid() && radius < 0x8000
      modifies framebuffer
      ensures Painted(old(framebuffer[..]), Around(Disc(radius), x, y), color)
      ensures Reaches(x, y, radius, width, height) ==>
                Shows(old(framebuffer[..]), Ball(x, y, radius), color)
    {
      ghost var fb := framebuffer[..];
      var i: int := -(radius as int);
      assert Around(DiscPart(radius, i, -(radius as int)), x, y) == {};
      PaintNothing(fb, width, color);
      while i <= radius
        invariant -(radius as int) <= i <= radius + 1
        invariant Painted(fb, Around(DiscPart(radius, i, -(radius as int)), x, y), color)
      {
        var j: int := -(radius as int);
        while j <= radius
          invariant -(radius as int) <= j <= radius + 1
          invariant Painted(fb, Around(DiscPart(radius, i, j), x, y), color)
        {
          if i * i + j * j <= radius * radius {
            PutPixel(U16(x + i), U16(y + j), color);
          }
          PaintDiscNext(fb, width, radius, i, j, x, y, color);
          j := j + 1;
        }
        DiscRow(radius, i);
        i := i + 1;
      }
      DiscAll(radius);
      if Reaches(x, y, radius, width, height) {
        ShowsDisc(x, y, radius, color, fb);
      }
    }
  }
}
