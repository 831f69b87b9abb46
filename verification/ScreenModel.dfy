/** The 80x25 text screen as two programs see it: one keeps a row and a column, the other a single
    position. */
module ScreenModel {
  const WIDTH: nat := 80
  const HEIGHT: nat := 25
  const CELLS: nat := 2000

  /** A C `char`. */
  type CChar = c: char | c as int < 256 witness ' '

  type Color = bv8
  type Cell = bv16

  function Byte(c: CChar): bv8 { c as int as bv8 }

  /** `(uint16_t)c | (uint16_t)color << 8`, with `char` signed. */
  function GlyphOf(b: bv8, color: Color): Cell {
    (if b < 0x80 then b as bv16 else b as bv16 | 0xFF00) | (color as bv16 << 8)
  }

  function Glyph(c: CChar, color: Color): Cell { GlyphOf(Byte(c), color) }

  /** The low byte always shows the character. The colour survives exactly for characters below 128,
      or when it is all ones: a character from 128 on is sign-extended over it. */
  lemma GlyphKeepsColor(b: bv8, color: Color)
    ensures GlyphOf(b, color) & 0xFF == b as bv16
    ensures (GlyphOf(b, color) >> 8) as bv8 == color <==> b < 0x80 || color == 0xFF
  {
  }

  lemma HighByte(b: bv8, color: Color)
    ensures (GlyphOf(b, color) >> 8) as bv8 == if b < 0x80 then color else 0xFF
  {
  }

  lemma NextByte(b: bv8)
    requires (b as int) < 255
    ensures (b + 1) as int == b as int + 1
  {
  }

  lemma ByteInt(b: bv8)
    ensures (b as int) as bv8 == b
  {
  }

  /** Every number below 256 is the value of a byte. */
  lemma {:induction false} SomeByte(n: nat) returns (b: bv8)
    requires n < 256
    ensures b as int == n
  {
    if n == 0 {
      b := 0;
    } else {
      b := SomeByte(n - 1);
      NextByte(b);
      b := b + 1;
    }
  }

  lemma IntByte(n: nat)
    requires n < 256
    ensures (n as bv8) as int == n
  {
    var b := SomeByte(n);
    ByteInt(b);
  }

  lemma ByteOf(c: CChar)
    ensures Byte(c) as int == c as int
  {
    IntByte(c as int);
  }

  lemma LowHalf(b: bv8)
    ensures b < 0x80 <==> (b as int) < 128
  {
  }

  lemma Widened(b: bv8)
    ensures (b as bv16) as int == b as int
  {
  }

  /** What a cell shows: the character itself, in its colour if it is below 128 and in all ones if not. */
  lemma GlyphMeans(c: CChar, color: Color)
    ensures (Glyph(c, color) & 0xFF) as int == c as int
    ensures (Glyph(c, color) >> 8) as bv8 == if (c as int) < 128 then color else 0xFF
  {
    GlyphKeepsColor(Byte(c), color);
    HighByte(Byte(c), color);
    ByteOf(c);
    LowHalf(Byte(c));
    Widened(Byte(c));
  }

  // ----- the terminal

  datatype Terminal = Terminal(cells: seq<Cell>, row: nat, column: nat)

  predicate OnScreen(t: Terminal) {
    |t.cells| == CELLS && t.row < HEIGHT && t.column < WIDTH
  }

  function Position(t: Terminal): nat { t.row * WIDTH + t.column }

  function NextRow(row: nat): nat { if row + 1 == HEIGHT then 0 else row + 1 }

  function Put(t: Terminal, c: CChar, color: Color): (u: Terminal)
    requires OnScreen(t)
    ensures OnScreen(u)
  {
    if c == '\n' then Terminal(t.cells, NextRow(t.row), 0)
    else
      var cells := t.cells[Position(t) := Glyph(c, color)];
      if t.column + 1 == WIDTH then Terminal(cells, NextRow(t.row), 0)
      else Terminal(cells, t.row, t.column + 1)
  }

  /** A newline goes to the start of the next row, any other character into the cursor's cell, and the
      cursor one place on; both go from the end of the screen to its start. */
  lemma PutMeans(t: Terminal, c: CChar, color: Color)
    requires OnScreen(t)
    ensures Position(Put(t, c, color))
            == (if c == '\n' then Position(t) / 80 * 80 + 80 else Position(t) + 1) % 2000
    ensures c == '\n' ==> Put(t, c, color).cells == t.cells
    ensures c != '\n' ==> Put(t, c, color).cells == t.cells[80 * t.row + t.column := Glyph(c, color)]
  {
    assert Position(t) / 80 == t.row;
  }

  function Write(t: Terminal, s: seq<CChar>, color: Color): (u: Terminal)
    requires OnScreen(t)
    ensures OnScreen(u)
    decreases s
  {
    if s == [] then t else Write(Put(t, s[0], color), s[1..], color)
  }

  // ----- the boot-time printer

  datatype Linear = Linear(cells: seq<Cell>, pos: nat)

  function EarlyPut(e: Linear, c: CChar, color: Color): (f: Linear)
    requires |e.cells| == CELLS && e.pos < CELLS
    ensures |f.cells| == CELLS && f.pos < CELLS
  {
    var cells := if c == '\n' then e.cells else e.cells[e.pos := Glyph(c, color)];
    var pos := if c == '\n' then e.pos + WIDTH - e.pos % WIDTH else e.pos + 1;
    Linear(cells, if pos >= CELLS then 0 else pos)
  }

  function EarlyWrite(e: Linear, s: seq<CChar>, color: Color): (f: Linear)
    requires |e.cells| == CELLS && e.pos < CELLS
    ensures |f.cells| == CELLS && f.pos < CELLS
    decreases s
  {
    if s == [] then e else EarlyWrite(EarlyPut(e, s[0], color), s[1..], color)
  }

  /** The linear view of a terminal. */
  function Flat(t: Terminal): Linear { Linear(t.cells, Position(t)) }

  lemma PutAgrees(t: Terminal, c: CChar, color: Color)
    requires OnScreen(t)
    ensures Flat(Put(t, c, color)) == EarlyPut(Flat(t), c, color)
  {
    assert Position(t) % WIDTH == t.column;
  }

  /** Both printers, started on the same screen with the same colour, leave the same screen and stop
      at the same place, for every string. */
  lemma {:induction false} PrintersAgree(t: Terminal, s: seq<CChar>, color: Color)
    requires OnScreen(t)
    ensures Flat(Write(t, s, color)) == EarlyWrite(Flat(t), s, color)
    decreases s
  {
    if s == [] {
    } else {
      PutAgrees(t, s[0], color);
      PrintersAgree(Put(t, s[0], color), s[1..], color);
    }
  }

  lemma {:induction false} WriteConcat(t: Terminal, s: seq<CChar>, r: seq<CChar>, color: Color)
    requires OnScreen(t)
    ensures Write(t, s + r, color) == Write(Write(t, s, color), r, color)
    decreases s
  {
    if s == [] {
      assert s + r == r;
    } else {
      assert (s + r)[1..] == s[1..] + r;
      WriteConcat(Put(t, s[0], color), s[1..], r, color);
    }
  }

  /** The cell `k` places after `p`, from the last cell on to the first. */
  function Wrapped(p: nat, k: nat): nat
    requires p < CELLS && k <= CELLS
  {
    if p + k < CELLS then p + k else p + k - CELLS
  }

  /** How many places cell `i` is after `p`. */
  function Ahead(p: nat, i: nat): nat
    requires p < CELLS && i < CELLS
  {
    if i >= p then i - p else i + CELLS - p
  }

  /** `u` is the screen `t` with the line `s` shown from the cursor on. */
  ghost predicate Shows(t: Terminal, u: Terminal, s: seq<CChar>, color: Color) {
    && OnScreen(t) && OnScreen(u) && |s| <= CELLS
    && Position(u) == Wrapped(Position(t), |s|)
    && forall i | 0 <= i < CELLS ::
         u.cells[i] == if Ahead(Position(t), i) < |s| then Glyph(s[Ahead(Position(t), i)], color) else t.cells[i]
  }

  /** An ordinary character goes to the cursor's cell and moves the cursor on by one place. */
  lemma PutPlain(t: Terminal, c: CChar, color: Color)
    requires OnScreen(t) && c != '\n'
    ensures Put(t, c, color).cells == t.cells[Position(t) := Glyph(c, color)]
    ensures Position(Put(t, c, color)) == Wrapped(Position(t), 1)
  {
  }

  lemma ShowsMore(t: Terminal, u: Terminal, s: seq<CChar>, c: CChar, color: Color)
    requires Shows(t, u, s, color) && |s| < CELLS && c != '\n'
    ensures Shows(t, Put(u, c, color), s + [c], color)
  {
    PutPlain(u, c, color);
    var p, w := Position(t), Put(u, c, color);
    assert Ahead(p, Position(u)) == |s|;
    forall i | 0 <= i < CELLS
      ensures w.cells[i] == if Ahead(p, i) < |s| + 1 then Glyph((s + [c])[Ahead(p, i)], color) else t.cells[i]
    {
      assert i != Position(u) ==> Ahead(p, i) != |s|;
    }
  }

  /** A line without newlines shows up character by character from the cursor on, wrapping from the
      last cell to the first, and touches no other cell. */
  lemma {:induction false} PlainText(t: Terminal, s: seq<CChar>, color: Color)
    requires OnScreen(t) && |s| <= CELLS && '\n' !in s
    ensures Shows(t, Write(t, s, color), s, color)
  {
    if s == [] {
    } else {
      var last := |s| - 1;
      var r, c := s[..last], s[last];
      assert s == r + [c] && c in s;
      assert forall x | x in r :: x in s;
      PlainText(t, r, color);
      WriteConcat(t, r, [c], color);
      var v := Write(t, r, color);
      ShowsMore(t, v, r, c, color);
      assert Write(v, [c], color) == Put(v, c, color);
    }
  }

  // ----- cursor keys and deletion

  function Left(t: Terminal): Terminal {
    if t.column > 0 then t.(column := t.column - 1)
    else if t.row > 0 then t.(row := t.row - 1, column := WIDTH - 1)
    else t
  }

  function Right(t: Terminal): Terminal {
    if t.column < WIDTH - 1 then t.(column := t.column + 1)
    else if t.row < HEIGHT - 1 then t.(row := t.row + 1, column := 0)
    else t
  }

  /** The cursor's cell goes, the rest of its row moves up, and the row's last cell is blanked. */
  function DeleteAt(t: Terminal, color: Color): Terminal
    requires OnScreen(t)
  {
    var p, end := Position(t), (t.row + 1) * WIDTH;
    t.(cells := t.cells[..p] + t.cells[p + 1..end] + [Glyph(' ', color)] + t.cells[end..])
  }

  lemma DeleteCells(t: Terminal, color: Color)
    requires OnScreen(t)
    ensures var p, end, cells := Position(t), (t.row + 1) * WIDTH, DeleteAt(t, color).cells;
            && p < end <= CELLS == |cells|
            && forall i | 0 <= i < CELLS ::
                 cells[i] == if i == end - 1 then Glyph(' ', color) else t.cells[if p <= i < end then i + 1 else i]
  {
  }

  /** The cleared screen, cursor in the first cell. */
  function Blank(color: Color): Terminal {
    Terminal(seq(CELLS, _ => Glyph(' ', color)), 0, 0)
  }

  /** The cursor keys move the position by one, and not at all in the corners; deleting keeps it. */
  lemma CursorMoves(t: Terminal, color: Color)
    requires OnScreen(t)
    ensures OnScreen(Left(t)) && OnScreen(Right(t)) && OnScreen(DeleteAt(t, color))
    ensures Position(Left(t)) == if Position(t) > 0 then Position(t) - 1 else 0
    ensures Position(Right(t)) == if Position(t) < CELLS - 1 then Position(t) + 1 else CELLS - 1
    ensures Position(DeleteAt(t, color)) == Position(t)
    ensures Left(t).cells == t.cells && Right(t).cells == t.cells
  {
  }
}
