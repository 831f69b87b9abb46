/** The terminal and the boot-time printer, writing cells into the text buffer. */
module TextScreen {
  import opened Digits
  import opened ScreenModel

  /** A C string seen by the screen, without its terminator. */
  type ScreenString = s: seq<CChar> | '\0' !in s

  /** Decimal digits are ordinary characters. */
  lemma NumeralPrintable(n: nat)
    requires n < 0x1_0000_0000
    ensures forall k | 0 <= k < |Numeral(n, 10)| :: Numeral(n, 10)[k] as int < 256
    ensures |Numeral(n, 10)| <= 10
  {
    NumeralMeans(n, 10);
    TenDigits(n);
    assert forall k | 0 <= k < |Numeral(n, 10)| :: Numeral(n, 10)[k] in Numeral(n, 10);
  }

  /** The decimal numeral of a 32-bit number, as screen characters. */
  function Shown(n: nat): (s: seq<CChar>)
    requires n < 0x1_0000_0000
    ensures s == Numeral(n, 10)
  {
    NumeralPrintable(n);
    Numeral(n, 10)
  }

  lemma ShownBackwards(n: nat)
    requires 0 < n < 0x1_0000_0000
    ensures |Produced(n, 10)| == |Shown(n)| <= 10
    ensures forall k | 0 <= k < |Shown(n)| :: Produced(n, 10)[k] == Shown(n)[|Shown(n)| - 1 - k]
  {
    NumeralPrintable(n);
    ProducedNumeral(n, 10);
    ReversedAt(Numeral(n, 10));
  }

  /** The first loop of `terminal_write_dec` (kernel/terminal.c:99-104): last digit first. */
  method FillDigits(digits: array<CChar>, number: nat) returns (i: nat)
    requires |Produced(number, 10)| <= digits.Length
    modifies digits
    ensures i <= digits.Length && digits[..i] == Produced(number, 10)
  {
    ghost var all := Produced(number, 10);
    var num: nat := number;
    i := 0;
    while num > 0
      invariant 0 <= i <= |all| && all == digits[..i] + Produced(num, 10)
      decreases num
    {
      ghost var done := digits[..i];
      ProducedStep(all, done, num, 10);
      digits[i] := '0' + (num % 10) as char;
      i := i + 1;
      assert digits[..i] == done + [Digit(num % 10)];
      num := num / 10;
    }
  }

  class TerminalDevice {
    const buffer: array<Cell>
    var row: nat
    var column: nat
    var color: Color

    ghost predicate Valid()
      reads this, buffer
    {
      OnScreen(State())
    }

    ghost function State(): Terminal
      reads this, buffer
    {
      Terminal(buffer[..], row, column)
    }

    /** A cleared terminal, in light grey. */
    constructor ()
      ensures Valid() && color == 7
      ensures State() == Blank(7)
      ensures fresh(buffer)
    {
      buffer := new Cell[CELLS];
      row := 0;
      column := 0;
      color := 7;
      new;
      Clear();
    }

    method Clear()
      requires buffer.Length == CELLS
      modifies this`row, this`column, buffer
      ensures Valid()
      ensures State() == Blank(color)
      ensures row == 0 && column == 0 && forall i | 0 <= i < 2000 :: buffer[i] == Glyph(' ', color)
    {
      var y := 0;
      while y < HEIGHT
        invariant y <= HEIGHT
        invariant forall i | 0 <= i < y * WIDTH :: buffer[i] == Glyph(' ', color)
      {
        var x := 0;
        while x < WIDTH
          invariant x <= WIDTH
          invariant forall i | 0 <= i < y * WIDTH + x :: buffer[i] == Glyph(' ', color)
        {
          var index := y * WIDTH + x;
          buffer[index] := Glyph(' ', color);
          x := x + 1;
        }
        y := y + 1;
      }
      row := 0;
      column := 0;
    }

    /** The cursor step after a glyph (kernel/terminal.c:76-82). */
    method Advance()
      requires Valid()
      modifies this`row, this`column
      ensures row == (if old(column) + 1 == WIDTH then NextRow(old(row)) else old(row))
      ensures column == (if old(column) + 1 == WIDTH then 0 else old(column) + 1)
    {
      column := column + 1;
      if column == WIDTH {
        column := 0;
        row := row + 1;
        if row == HEIGHT {
          row := 0;
        }
      }
    }

    method PutChar(c: CChar)
      requires Valid()
      modifies this`row, this`column, buffer
      ensures Valid() && State() == Put(old(State()), c, color)
    {
      if c == '\n' {
        column := 0;
        row := row + 1;
        if row == HEIGHT {
          row := 0;
        }
        return;
      }
      ghost var before := State();
      var index := row * WIDTH + column;
      buffer[index] := Glyph(c, color);
      assert buffer[..] == before.cells[Position(before) := Glyph(c, color)];
      Advance();
    }

    method WriteString(s: ScreenString)
      requires Valid()
      modifies this`row, this`column, buffer
      ensures Valid() && State() == Write(old(State()), s, color)
    {
      var i := 0;
      assert s[0..] == s;
      while i < |s|
        invariant 0 <= i <= |s| && Valid()
        invariant Write(State(), s[i..], color) == Write(old(State()), s, color)
      {
        assert s[i..][1..] == s[i + 1..];
        PutChar(s[i]);
        i := i + 1;
      }
    }

    /** The second loop of `terminal_write_dec` (kernel/terminal.c:106-108). */
    method WriteBackwards(digits: array<CChar>, count: nat, ghost line: seq<CChar>)
      requires Valid() && digits as object != buffer
      requires count == |line| <= digits.Length
      requires forall k | 0 <= k < count :: digits[k] == line[count - 1 - k]
      modifies this`row, this`column, buffer
      ensures Valid() && State() == Write(old(State()), line, color)
    {
      ghost var start := State();
      var i := count - 1;
      assert line[..0] == [];
      while i >= 0
        invariant -1 <= i < count && Valid()
        invariant State() == Write(start, line[..count - 1 - i], color)
        decreases i
      {
        ghost var k := count - 1 - i;
        assert line[..k + 1] == line[..k] + [line[k]];
        WriteConcat(start, line[..k], [line[k]], color);
        PutChar(digits[i]);
        i := i - 1;
      }
      assert line[..count] == line;
    }

    /** Prints exactly the decimal numeral of the number, whichever 32-bit number it is. */
    method WriteDec(number: nat)
      requires Valid() && number < 0x1_0000_0000
      modifies this`row, this`column, buffer
      ensures Valid() && State() == Write(old(State()), Shown(number), color)
    {
      if number == 0 {
        ghost var line := Shown(0);
        assert line[1..] == [];
        PutChar('0');
        return;
      }
      var digits := new CChar[32](_ => ' ');
      ShownBackwards(number);
      var count := FillDigits(digits, number);
      assert forall k | 0 <= k < count :: digits[k] == digits[..count][k];
      WriteBackwards(digits, count, Shown(number));
    }

    method MoveCursorLeft()
      requires Valid()
      modifies this`row, this`column
      ensures Valid() && State() == Left(old(State()))
    {
      if column > 0 {
        column := column - 1;
      } else if row > 0 {
        row := row - 1;
        column := WIDTH - 1;
      }
    }

    method MoveCursorRight()
      requires Valid()
      modifies this`row, this`column
      ensures Valid() && State() == Right(old(State()))
    {
      if column < WIDTH - 1 {
        column := column + 1;
      } else if row < HEIGHT - 1 {
        row := row + 1;
        column := 0;
      }
    }

    /** The loop of `terminal_delete_char` (kernel/terminal.c:175-178), over buffer indices. */
    method ShiftLeft(from: nat, last: nat)
      requires from <= last < buffer.Length
      modifies buffer
      ensures forall i | from <= i < last :: buffer[i] == old(buffer[i + 1])
      ensures forall i | 0 <= i < from || last <= i < buffer.Length :: buffer[i] == old(buffer[i])
    {
      var index := from;
      while index < last
        invariant from <= index <= last
        invariant forall i | from <= i < index :: buffer[i] == old(buffer[i + 1])
        invariant forall i | 0 <= i < from || index <= i < buffer.Length :: buffer[i] == old(buffer[i])
      {
        buffer[index] := buffer[index + 1];
        index := index + 1;
      }
    }

    method DeleteChar()
      requires Valid()
      modifies buffer
      ensures Valid() && State() == DeleteAt(old(State()), color)
    {
      if column < WIDTH && row < HEIGHT {
        ghost var target := DeleteAt(State(), color).cells;
        DeleteCells(State(), color);
        var last := row * WIDTH + (WIDTH - 1);
        ShiftLeft(row * WIDTH + column, last);
        buffer[last] := Glyph(' ', color);
        assert buffer[..] == target;
      }
    }
  }

  class EarlyPrinter {
    const vga: array<Cell>
    var pos: nat

    ghost predicate Valid()
      reads this
    {
      vga.Length == CELLS && pos < CELLS
    }

    ghost function State(): Linear
      reads this, vga
    {
      Linear(vga[..], pos)
    }

    constructor (vga: array<Cell>)
      requires vga.Length == CELLS
      ensures Valid() && this.vga == vga && pos == 0
    {
      this.vga := vga;
      pos := 0;
    }

    /** One turn of the loop (kernel/kernel.c:107-114). */
    method PrintOne(c: CChar, color: Color)
      requires Valid()
      modifies this, vga
      ensures Valid() && State() == EarlyPut(old(State()), c, color)
    {
      if c == '\n' {
        pos := pos + WIDTH - pos % WIDTH;
      } else {
        vga[pos] := Glyph(c, color);
        pos := pos + 1;
      }
      if pos >= WIDTH * HEIGHT {
        pos := 0;
      }
    }

    method Print(s: ScreenString, color: Color)
      requires Valid()
      modifies this, vga
      ensures Valid() && State() == EarlyWrite(old(State()), s, color)
    {
      var i := 0;
      assert s[0..] == s;
      while i < |s|
        invariant 0 <= i <= |s| && Valid()
        invariant EarlyWrite(State(), s[i..], color) == EarlyWrite(old(State()), s, color)
      {
        assert s[i..][1..] == s[i + 1..];
        PrintOne(s[i], color);
        i := i + 1;
      }
    }
  }
}
