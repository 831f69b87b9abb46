/** The keyboard driver's state and the command line it edits in place. */
module CommandLine {
  import opened ScreenModel
  import opened KeyboardModel
  import opened TextScreen

  // ----- a line in a character buffer

  /** Index of the first NUL. */
  function StrLen(buf: seq<char>): (n: nat)
    requires '\0' in buf
    ensures n < |buf| && buf[n] == '\0' && '\0' !in buf[..n]
  {
    if buf[0] == '\0' then 0 else
      assert buf == [buf[0]] + buf[1..];
      var n := 1 + StrLen(buf[1..]);
      assert buf[..n] == [buf[0]] + buf[1..][..n - 1];
      n
  }

  /** A terminated buffer with the cursor inside the text. */
  ghost predicate Terminated(buf: seq<char>, pos: nat) {
    '\0' in buf && pos <= StrLen(buf)
  }

  function LineOf(buf: seq<char>, pos: nat): Line
    requires '\0' in buf && pos <= StrLen(buf)
  {
    Line(buf[..pos], buf[pos..StrLen(buf)])
  }

  lemma BeforeNul(buf: seq<char>)
    requires '\0' in buf
    ensures forall k | 0 <= k < StrLen(buf) :: buf[k] != '\0'
  {
    var n := StrLen(buf);
    assert forall k | 0 <= k < n :: buf[..n][k] == buf[k];
  }

  lemma FirstNul(buf: seq<char>, n: nat)
    requires n < |buf| && buf[n] == '\0' && '\0' !in buf[..n]
    ensures '\0' in buf && StrLen(buf) == n
  {
    var m := StrLen(buf);
    assert forall k | 0 <= k < n :: buf[..n][k] == buf[k];
    assert forall k | 0 <= k < m :: buf[..m][k] == buf[k];
  }

  /** A buffer holding the line's text and a NUL, with the cursor between its halves. */
  lemma HoldsLine(buf: seq<char>, line: Line)
    requires Textual(line) && Length(line) < |buf|
    requires buf[..Length(line)] == line.left + line.right && buf[Length(line)] == '\0'
    ensures Terminated(buf, |line.left|) && LineOf(buf, |line.left|) == line
  {
    FirstNul(buf, Length(line));
    assert buf[..|line.left|] == buf[..Length(line)][..|line.left|] == line.left;
    assert buf[|line.left|..Length(line)] == buf[..Length(line)][|line.left|..] == line.right;
  }

  lemma LineIn(buf: seq<char>, pos: nat)
    requires Terminated(buf, pos)
    ensures var line := LineOf(buf, pos);
            && Textual(line) && Length(line) == StrLen(buf) && |line.left| == pos
            && buf[..StrLen(buf)] == line.left + line.right
  {
    BeforeNul(buf);
    var n := StrLen(buf);
    assert buf[..n] == buf[..pos] + buf[pos..n];
  }

  /** The buffer after everything from `pos` on moved up by one, dropping the last character. */
  function ShiftedIn(buf: seq<char>, pos: nat, c: char): seq<char>
    requires pos < |buf|
  {
    buf[..pos] + [c] + buf[pos..|buf| - 1]
  }

  lemma ShiftedInAt(buf: seq<char>, pos: nat, c: char)
    requires pos < |buf|
    ensures var s := ShiftedIn(buf, pos, c);
            |s| == |buf| && forall k | 0 <= k < |buf| ::
                              s[k] == if k < pos then buf[k] else if k == pos then c else buf[k - 1]
  {
  }

  lemma ShiftedInNul(buf: seq<char>, pos: nat, c: char, n: nat)
    requires pos <= n < |buf| && c != '\0' && buf[n] == '\0' && forall k | 0 <= k < n :: buf[k] != '\0'
    ensures '\0' in ShiftedIn(buf, pos, c) <== n + 2 <= |buf|
    ensures '\0' !in ShiftedIn(buf, pos, c) <== n + 2 > |buf|
  {
    ShiftedInAt(buf, pos, c);
    if n + 2 <= |buf| {
      assert ShiftedIn(buf, pos, c)[n + 1] == buf[n];
    }
  }

  /** An insertion keeps the terminator exactly when there was room for one more character. */
  lemma InsertionTerminated(buf: seq<char>, pos: nat, c: char)
    requires Terminated(buf, pos) && pos + 1 < |buf| && c != '\0'
    ensures '\0' in ShiftedIn(buf, pos, c) <==> StrLen(buf) + 2 <= |buf|
  {
    BeforeNul(buf);
    ShiftedInNul(buf, pos, c, StrLen(buf));
  }

  lemma ShiftedInText(buf: seq<char>, pos: nat, c: char, n: nat)
    requires pos <= n && n + 2 <= |buf|
    ensures var s := ShiftedIn(buf, pos, c);
            |s| == |buf| && s[..n + 1] == buf[..pos] + [c] + buf[pos..n] && s[n + 1] == buf[n]
  {
  }

  /** The shifted buffer holds the line with the character between its halves. */
  lemma InsertedText(buf: seq<char>, pos: nat, c: char)
    requires Terminated(buf, pos) && StrLen(buf) + 2 <= |buf| && c != '\0'
    ensures var line, s := LineOf(buf, pos), ShiftedIn(buf, pos, c);
            var next := Line(line.left + [c], line.right);
            && Textual(next) && |next.left| == pos + 1 && Length(next) < |s|
            && s[..Length(next)] == next.left + next.right && s[Length(next)] == '\0'
  {
    LineIn(buf, pos);
    ShiftedInText(buf, pos, c, StrLen(buf));
  }

  lemma InsertedLine(buf: seq<char>, pos: nat, c: char)
    requires Terminated(buf, pos) && StrLen(buf) + 2 <= |buf| && c != '\0'
    ensures var line, s := LineOf(buf, pos), ShiftedIn(buf, pos, c);
            Terminated(s, pos + 1) && LineOf(s, pos + 1) == Line(line.left + [c], line.right)
  {
    InsertedText(buf, pos, c);
    var line := LineOf(buf, pos);
    HoldsLine(ShiftedIn(buf, pos, c), Line(line.left + [c], line.right));
  }

  /** The buffer after the text behind `pos` and its terminator moved down by one. */
  function ShiftedOut(buf: seq<char>, pos: nat): seq<char>
    requires '\0' in buf && pos < StrLen(buf)
  {
    buf[..pos] + buf[pos + 1..StrLen(buf) + 1] + buf[StrLen(buf)..]
  }

  lemma ShiftedOutAt(buf: seq<char>, pos: nat)
    requires '\0' in buf && pos < StrLen(buf)
    ensures var s := ShiftedOut(buf, pos);
            |s| == |buf| &&
            forall k | 0 <= k < |buf| :: s[k] == buf[if pos <= k < StrLen(buf) then k + 1 else k]
  {
  }

  lemma ShiftedOutText(buf: seq<char>, pos: nat, n: nat)
    requires pos < n < |buf|
    ensures var s := buf[..pos] + buf[pos + 1..n + 1] + buf[n..];
            |s| == |buf| && s[..n - 1] == buf[..pos] + buf[pos + 1..n] && s[n - 1] == buf[n]
    ensures buf[pos..n][1..] == buf[pos + 1..n]
  {
  }

  /** The shifted buffer holds the line without the first character behind the cursor. */
  lemma RemovedText(buf: seq<char>, pos: nat)
    requires Terminated(buf, pos) && pos < StrLen(buf)
    ensures var line, s := LineOf(buf, pos), ShiftedOut(buf, pos);
            var next := Line(line.left, line.right[1..]);
            && |s| == |buf| && Textual(next) && |next.left| == pos && Length(next) < |s|
            && s[..Length(next)] == next.left + next.right && s[Length(next)] == '\0'
  {
    LineIn(buf, pos);
    ShiftedOutText(buf, pos, StrLen(buf));
  }

  lemma RemovedLine(buf: seq<char>, pos: nat)
    requires Terminated(buf, pos) && pos < StrLen(buf)
    ensures var line, s := LineOf(buf, pos), ShiftedOut(buf, pos);
            |s| == |buf| && Terminated(s, pos) && LineOf(s, pos) == Line(line.left, line.right[1..])
  {
    RemovedText(buf, pos);
    var line := LineOf(buf, pos);
    HoldsLine(ShiftedOut(buf, pos), Line(line.left, line.right[1..]));
  }

  /** Backspace in the buffer: the cursor steps back and the character there goes. */
  lemma ErasedLine(buf: seq<char>, pos: nat, size: nat)
    requires Terminated(buf, pos) && pos > 0
    ensures var line, s := LineOf(buf, pos), ShiftedOut(buf, pos - 1);
            && |s| == |buf| && Terminated(s, pos - 1)
            && line.left != "" && LineOf(s, pos - 1) == Edit(line, Erase, size)
  {
    RemovedLine(buf, pos - 1);
    var n := StrLen(buf);
    assert buf[pos - 1..n][1..] == buf[pos..n] && buf[..pos][..pos - 1] == buf[..pos - 1];
  }

  // ----- the cursor in a buffer

  lemma CursorLeftLine(buf: seq<char>, pos: nat, size: nat)
    requires Terminated(buf, pos) && pos > 0
    ensures LineOf(buf, pos - 1) == Edit(LineOf(buf, pos), CursorLeft, size)
  {
    var n := StrLen(buf);
    assert buf[..pos][..pos - 1] == buf[..pos - 1];
    assert [buf[pos - 1]] + buf[pos..n] == buf[pos - 1..n];
  }

  lemma CursorRightLine(buf: seq<char>, pos: nat, size: nat)
    requires Terminated(buf, pos) && pos < StrLen(buf)
    ensures LineOf(buf, pos + 1) == Edit(LineOf(buf, pos), CursorRight, size)
  {
    var n := StrLen(buf);
    assert buf[..pos] + [buf[pos]] == buf[..pos + 1];
    assert buf[pos..n][1..] == buf[pos + 1..n];
  }

  lemma HomeEndLines(buf: seq<char>, pos: nat, size: nat)
    requires Terminated(buf, pos)
    ensures LineOf(buf, 0) == Edit(LineOf(buf, pos), Home, size)
    ensures LineOf(buf, StrLen(buf)) == Edit(LineOf(buf, pos), End, size)
  {
    var n := StrLen(buf);
    assert buf[..pos] + buf[pos..n] == buf[..n] == buf[0..n];
    assert buf[..0] == [] && buf[n..n] == [];
  }

  // ----- the driver

  class Keyboard {
    var shift: bool
    var caps: bool
    var ctrl: bool
    var alt: bool

    ghost function State(): Flags
      reads this
    {
      Flags(shift, caps, ctrl, alt)
    }

    constructor ()
      ensures State() == RELEASED
    {
      shift, caps, ctrl, alt := false, false, false, false;
    }

    method GetAscii(scancode: Scancode) returns (c: CChar)
      ensures c == Ascii(State(), scancode)
    {
      if scancode < TABLE_SIZE {
        if shift || caps {
          ShiftedTable(scancode);
          return SHIFTED.At(scancode);
        } else {
          PlainTable(scancode);
          return PLAIN.At(scancode);
        }
      }
      return '\0';
    }

    method ProcessScancode(code: Scancode) returns (ok: bool, c: CChar)
      modifies this
      ensures State() == FlagsAfter(old(State()), code)
      ensures ok <==> !IsSpecial(code) && KeyOf(old(State()), code) != Ignored
      ensures ok ==> c == Ascii(old(State()), code) != '\0'
    {
      c := '\0';
      if code >= 0x80 {
        var scancode := code - 0x80;
        match scancode {
          case 0x2A => shift := false;
          case 0x1D => ctrl := false;
          case 0x38 => alt := false;
          case _ =>
        }
        return false, c;
      }
      match code {
        case 0x2A =>
          shift := true;
          return false, c;
        case 0x3A =>
          caps := !caps;
          return false, c;
        case 0x1D =>
          ctrl := true;
          return false, c;
        case 0x38 =>
          alt := true;
          return false, c;
        case _ =>
          c := GetAscii(code);
          return c != '\0', c;
      }
    }
  }

  class Editor {
    const buffer: array<char>
    const keyboard: Keyboard
    const terminal: TerminalDevice
    var pos: nat

    ghost predicate Valid()
      reads this, buffer, terminal, terminal.buffer
    {
      && buffer as object != terminal.buffer
      && Terminated(buffer[..], pos)
      && terminal.Valid()
    }

    ghost function Contents(): Line
      requires Terminated(buffer[..], pos)
      reads this, buffer
    {
      LineOf(buffer[..], pos)
    }

    /** An empty line in a zeroed buffer. */
    constructor (buffer: array<char>, keyboard: Keyboard, terminal: TerminalDevice)
      requires buffer.Length > 0 && buffer as object != terminal.buffer && terminal.Valid()
      requires buffer[0] == '\0'
      ensures Valid() && Contents() == Line("", "")
      ensures this.buffer == buffer && this.keyboard == keyboard && this.terminal == terminal
    {
      this.buffer, this.keyboard, this.terminal := buffer, keyboard, terminal;
      pos := 0;
      new;
      FirstNul(buffer[..], 0);
    }

    /** The shifting loop of Backspace and Delete (kernel/keyboard.c:202-204 and 218-220); `n` is
        where it meets the terminator. */
    method ShiftDownTo(ghost n: nat)
      requires pos <= n < buffer.Length && buffer[n] == '\0'
      requires forall k | pos <= k < n :: buffer[k] != '\0'
      modifies buffer
      ensures forall k | pos <= k < n :: buffer[k] == old(buffer[k + 1])
      ensures forall k | 0 <= k < pos || n <= k < buffer.Length :: buffer[k] == old(buffer[k])
    {
      var i := pos;
      while buffer[i] != '\0'
        invariant pos <= i <= n
        invariant forall k | pos <= k < i :: buffer[k] == old(buffer[k + 1])
        invariant forall k | 0 <= k < pos || i <= k < buffer.Length :: buffer[k] == old(buffer[k])
        decreases n - i
      {
        buffer[i] := buffer[i + 1];
        i := i + 1;
      }
    }

    /** Moves the text behind `pos` and its terminator down by one. */
    method ShiftDown()
      requires '\0' in buffer[..] && pos < StrLen(buffer[..])
      modifies buffer
      ensures buffer[..] == ShiftedOut(old(buffer[..]), pos)
    {
      ghost var before := buffer[..];
      BeforeNul(before);
      ShiftDownTo(StrLen(before));
      ShiftedOutAt(before, pos);
      assert forall k | 0 <= k < buffer.Length :: buffer[..][k] == ShiftedOut(before, pos)[k];
    }

    /** Moves everything from `pos` on up by one (kernel/keyboard.c:230-232). */
    method ShiftUp(c: char)
      requires pos < buffer.Length
      modifies buffer
      ensures buffer[..] == ShiftedIn(old(buffer[..]), pos, c)
    {
      ghost var before := buffer[..];
      var i := buffer.Length - 1;
      while i > pos
        invariant pos <= i < buffer.Length
        invariant forall k | 0 <= k <= i :: buffer[k] == before[k]
        invariant forall k | i < k < buffer.Length :: buffer[k] == before[k - 1]
      {
        buffer[i] := buffer[i - 1];
        i := i - 1;
      }
      buffer[pos] := c;
      ShiftedInAt(before, pos, c);
      assert forall k | 0 <= k < buffer.Length :: buffer[..][k] == ShiftedIn(before, pos, c)[k];
    }

    method StepLeft()
      requires Valid() && pos > 0
      modifies `pos, terminal`row, terminal`column
      ensures Valid() && pos == old(pos) - 1
      ensures terminal.State() == Left(old(terminal.State()))
    {
      pos := pos - 1;
      terminal.MoveCursorLeft();
    }

    method StepRight()
      requires Valid() && pos < StrLen(buffer[..])
      modifies `pos, terminal`row, terminal`column
      ensures Valid() && pos == old(pos) + 1
      ensures terminal.State() == Right(old(terminal.State()))
    {
      pos := pos + 1;
      terminal.MoveCursorRight();
    }

    method PressLeft()
      requires Valid()
      modifies `pos, terminal`row, terminal`column
      ensures Valid() && Contents() == Edit(old(Contents()), CursorLeft, buffer.Length)
      ensures terminal.State()
              == Echo(old(terminal.State()), old(Contents()), CursorLeft, buffer.Length, terminal.color)
    {
      if pos > 0 {
        CursorLeftLine(buffer[..], pos, buffer.Length);
        StepLeft();
      }
    }

    /** The cursor is at the end exactly when it stands on a NUL. */
    lemma AtCursor()
      requires Valid()
      ensures pos < buffer.Length
      ensures buffer[pos] == '\0' <==> pos == StrLen(buffer[..])
    {
      BeforeNul(buffer[..]);
    }

    method PressRight()
      requires Valid()
      modifies `pos, terminal`row, terminal`column
      ensures Valid() && Contents() == Edit(old(Contents()), CursorRight, buffer.Length)
      ensures terminal.State()
              == Echo(old(terminal.State()), old(Contents()), CursorRight, buffer.Length, terminal.color)
    {
      AtCursor();
      if buffer[pos] != '\0' {
        CursorRightLine(buffer[..], pos, buffer.Length);
        StepRight();
      }
    }

    method PressHome()
      requires Valid()
      modifies `pos, terminal`row, terminal`column
      ensures Valid() && Contents() == Edit(old(Contents()), Home, buffer.Length)
      ensures terminal.State() == Echo(old(terminal.State()), old(Contents()), Home, buffer.Length, terminal.color)
    {
      ghost var start, t := pos, terminal.State();
      HomeEndLines(buffer[..], pos, buffer.Length);
      while pos > 0
        invariant pos <= start && Valid()
        invariant terminal.State() == LeftBy(t, start - pos)
      {
        StepLeft();
      }
    }

    /** The loop of End (kernel/keyboard.c:193-196). */
    method RunToEnd()
      requires Valid()
      modifies `pos, terminal`row, terminal`column
      ensures Valid() && pos == StrLen(buffer[..]) >= old(pos)
      ensures terminal.State() == RightBy(old(terminal.State()), pos - old(pos))
    {
      BeforeNul(buffer[..]);
      while buffer[pos] != '\0'
        invariant old(pos) <= pos <= StrLen(buffer[..]) && Valid()
        invariant terminal.State() == RightBy(old(terminal.State()), pos - old(pos))
        decreases StrLen(buffer[..]) - pos
      {
        StepRight();
      }
    }

    method PressEnd()
      requires Valid()
      modifies `pos, terminal`row, terminal`column
      ensures Valid() && Contents() == Edit(old(Contents()), End, buffer.Length)
      ensures terminal.State() == Echo(old(terminal.State()), old(Contents()), End, buffer.Length, terminal.color)
    {
      HomeEndLines(buffer[..], pos, buffer.Length);
      RunToEnd();
    }

    method PressDelete()
      requires Valid()
      modifies buffer, terminal.buffer
      ensures Valid() && Contents() == Edit(old(Contents()), Delete, buffer.Length)
      ensures terminal.State() == Echo(old(terminal.State()), old(Contents()), Delete, buffer.Length, terminal.color)
    {
      AtCursor();
      if buffer[pos] != '\0' {
        RemovedLine(buffer[..], pos);
        ShiftDown();
        terminal.DeleteChar();
      }
    }

    /** What Backspace does to the buffer (kernel/keyboard.c:216-220). */
    method EraseBack()
      requires Valid() && pos > 0
      modifies buffer, `pos
      ensures Valid() && Contents() == Edit(old(Contents()), Erase, buffer.Length)
    {
      ErasedLine(buffer[..], pos, buffer.Length);
      pos := pos - 1;
      ShiftDown();
    }

    method PressErase()
      requires Valid()
      modifies buffer, `pos, terminal`row, terminal`column, terminal.buffer
      ensures Valid() && Contents() == Edit(old(Contents()), Erase, buffer.Length)
      ensures terminal.State() == Echo(old(terminal.State()), old(Contents()), Erase, buffer.Length, terminal.color)
    {
      if pos > 0 {
        EraseBack();
        terminal.PutChar(BACKSPACE);
      }
    }

    method PressEnter()
      requires Valid()
      modifies buffer, terminal`row, terminal`column, terminal.buffer
      ensures Valid() && Contents() == Edit(old(Contents()), Enter, buffer.Length)
      ensures terminal.State() == Echo(old(terminal.State()), old(Contents()), Enter, buffer.Length, terminal.color)
      ensures buffer[pos] == '\0' && StrLen(buffer[..]) == pos && buffer[..pos] == old(buffer[..pos])
    {
      LineIn(buffer[..], pos);
      ghost var left := buffer[..pos];
      terminal.PutChar('\n');
      buffer[pos] := '\0';
      assert buffer[..pos] == left + "";
      HoldsLine(buffer[..], Line(left, ""));
    }

    /** An insertion. Without room for it the text runs to the last cell and the terminator is lost. */
    method PressInsert(c: CChar)
      requires Valid() && c != '\0'
      modifies buffer, `pos, terminal`row, terminal`column, terminal.buffer
      ensures terminal.State() == Echo(old(terminal.State()), old(Contents()), Insert(c), buffer.Length, terminal.color)
      ensures if Roomy(old(Contents()), Insert(c), buffer.Length)
              then Valid() && Contents() == Edit(old(Contents()), Insert(c), buffer.Length)
              else buffer[..] == ShiftedIn(old(buffer[..]), old(pos), c) && pos == old(pos) + 1 && '\0' !in buffer[..]
    {
      LineIn(buffer[..], pos);
      if pos < buffer.Length - 1 {
        InsertionTerminated(buffer[..], pos, c);
        if StrLen(buffer[..]) + 2 <= buffer.Length {
          InsertedLine(buffer[..], pos, c);
        }
        ShiftUp(c);
        pos := pos + 1;
        terminal.PutChar(c);
      }
    }

    ghost function Snapshot(): Session
      requires Valid()
      reads this, buffer, keyboard, terminal, terminal.buffer
    {
      Session(Contents(), keyboard.State(), terminal.State())
    }

    /** The keys that produce no character (kernel/keyboard.c:169-210). */
    method UpdateSpecial(scancode: Scancode)
      requires Valid() && IsSpecial(scancode)
      modifies buffer, `pos, terminal`row, terminal`column, terminal.buffer
      ensures Valid() && Contents() == Edit(old(Contents()), SpecialKey(scancode), buffer.Length)
      ensures terminal.State()
              == Echo(old(terminal.State()), old(Contents()), SpecialKey(scancode), buffer.Length, terminal.color)
    {
      match scancode {
        case 0x4B => PressLeft();
        case 0x4D => PressRight();
        case 0x47 => PressHome();
        case 0x4F => PressEnd();
        case 0x53 => PressDelete();
        case _ =>
      }
    }

    /** One scancode: the flags, the line and the screen each make their step. Only an insertion
        without room leaves the line unterminated. */
    method Update(scancode: Scancode)
      requires Valid()
      modifies keyboard, buffer, `pos, terminal`row, terminal`column, terminal.buffer
      ensures var key := KeyOf(old(keyboard.State()), scancode);
              if Roomy(old(Contents()), key, buffer.Length)
              then Valid() && Snapshot() == Press(old(Snapshot()), scancode, buffer.Length, terminal.color)
              else
                && buffer[..] == ShiftedIn(old(buffer[..]), old(pos), key.c) && pos == old(pos) + 1
                && '\0' !in buffer[..]
                && keyboard.State() == FlagsAfter(old(keyboard.State()), scancode)
                && terminal.State()
                   == Echo(old(terminal.State()), old(Contents()), key, buffer.Length, terminal.color)
    {
      if IsSpecial(scancode) {
        PressSpecial(Snapshot(), scancode, buffer.Length, terminal.color);
        UpdateSpecial(scancode);
        return;
      }
      var ok, c := keyboard.ProcessScancode(scancode);
      if ok {
        if c == BACKSPACE {
          PressErase();
        } else if c == '\n' {
          PressEnter();
        } else {
          PressInsert(c);
        }
      }
    }

    /** One call per interrupt (kernel/keyboard.c:241-247). */
    method UpdateAll(scancodes: seq<Scancode>)
      requires Valid() && RoomyRun(Contents(), keyboard.State(), scancodes, buffer.Length)
      modifies keyboard, buffer, `pos, terminal`row, terminal`column, terminal.buffer
      ensures Valid() && Snapshot() == PressAll(old(Snapshot()), scancodes, buffer.Length, terminal.color)
      ensures Contents() == LineAfter(old(Contents()), old(keyboard.State()), scancodes, buffer.Length)
      ensures keyboard.State() == FlagsAfterAll(old(keyboard.State()), scancodes)
    {
      ghost var start, n, color := Snapshot(), buffer.Length, terminal.color;
      SessionParts(start, scancodes, n, color);
      var i := 0;
      assert scancodes[0..] == scancodes;
      while i < |scancodes|
        invariant 0 <= i <= |scancodes| && Valid()
        invariant RoomyRun(Contents(), keyboard.State(), scancodes[i..], n)
        invariant PressAll(Snapshot(), scancodes[i..], n, color) == PressAll(start, scancodes, n, color)
      {
        assert scancodes[i..][1..] == scancodes[i + 1..];
        Update(scancodes[i]);
        i := i + 1;
      }
    }
  }

  // ----- reading a line by polling

  /** Room for characters in a buffer of the given size. */
  function Capacity(maxLength: int): nat {
    if maxLength <= 1 then 0 else maxLength - 1
  }

  lemma ReadLineStep(line: string, pending: seq<Scancode>, capacity: nat)
    requires |line| < capacity && ReadLine(line, pending, capacity).Done?
    ensures pending != []
    ensures var c, all := PolledChar(pending[0]), ReadLine(line, pending, capacity);
            if c == '\n' then all == Done(line, 1)
            else
              var r := ReadLine(Type(line, pending[0]), pending[1..], capacity);
              r.Done? && all == Done(r.line, r.used + 1)
  {
  }

  /** The loop of `keyboard_getline` and what stands behind it. */
  method FillLine(buffer: array<char>, maxLength: int, input: seq<Scancode>) returns (i: nat, used: nat)
    requires 0 < buffer.Length && maxLength <= buffer.Length
    requires ReadLine("", input, Capacity(maxLength)).Done?
    modifies buffer
    ensures i < buffer.Length && buffer[i] == '\0'
    ensures ReadLine("", input, Capacity(maxLength)) == Done(buffer[..i], used)
  {
    i, used := 0, 0;
    ghost var all := ReadLine("", input, Capacity(maxLength));
    assert input[0..] == input && buffer[..0] == [];
    while i < maxLength - 1
      invariant 0 <= i < buffer.Length && used <= |input|
      invariant var rest := ReadLine(buffer[..i], input[used..], Capacity(maxLength));
                rest.Done? && all == Done(rest.line, rest.used + used)
      invariant i <= Capacity(maxLength)
      decreases |input| - used
    {
      ghost var line, pending := buffer[..i], input[used..];
      ReadLineStep(line, pending, Capacity(maxLength));
      assert pending[1..] == input[used + 1..];
      var c := PolledChar(input[used]);
      used := used + 1;
      if c == '\n' {
        buffer[i] := '\0';
        assert buffer[..i] == line;
        return;
      } else if c == BACKSPACE {
        if i > 0 {
          i := i - 1;
          buffer[i] := '\0';
          assert buffer[..i] == line[..i];
        }
      } else if c != '\0' {
        buffer[i] := c;
        i := i + 1;
        assert buffer[..i] == line + [c];
      }
      assert buffer[..i] == Type(line, input[used - 1]);
    }
    ghost var line := buffer[..i];
    buffer[i] := '\0';
    assert buffer[..i] == line;
  }

  /** Reads scancodes until the line ends; the rest of the input stays unread. */
  method GetLine(buffer: array<char>, maxLength: int, input: seq<Scancode>) returns (i: nat, used: nat)
    requires 0 < buffer.Length && maxLength <= buffer.Length
    requires ReadLine("", input, Capacity(maxLength)).Done?
    modifies buffer
    ensures i < buffer.Length && buffer[i] == '\0'
    ensures ReadLine("", input, Capacity(maxLength)) == Done(buffer[..i], used)
    ensures Clean(buffer[..i]) && used <= |input|
    ensures || (used > 0 && PolledChar(input[used - 1]) == '\n' && buffer[..i] == Kept(input[..used - 1], 0))
            || (i == (if maxLength <= 1 then 0 else maxLength - 1) && buffer[..i] == Kept(input[..used], 0))
  {
    i, used := FillLine(buffer, maxLength, input);
    ReadLineEnds(input, Capacity(maxLength));
  }
}
