/** The keyboard as a state machine over scancodes, and the command line as a pair of strings with
    the cursor between them. */
module KeyboardModel {
  import opened ScreenModel

  type Scancode = n: nat | n < 256

  datatype Flags = Flags(shift: bool, caps: bool, ctrl: bool, alt: bool)

  const RELEASED: Flags := Flags(false, false, false, false)

  const BACKSPACE: char := '\U{0008}'

  const TABLE_SIZE: nat := 58

  /** The keys of one keyboard layout, by scancode, in rows of 15, 14, 13, 13 and 3; NUL where a
      scancode has no character. */
  datatype Layout = Layout(digits: string, top: string, home: string, bottom: string, rest: string) {
    predicate Valid() {
      |digits| == 15 && |top| == 14 && |home| == 13 && |bottom| == 13 && |rest| == 3
    }

    function At(scancode: nat): char
      requires Valid() && scancode < TABLE_SIZE
    {
      if scancode < 15 then digits[scancode]
      else if scancode < 29 then top[scancode - 15]
      else if scancode < 42 then home[scancode - 29]
      else if scancode < 55 then bottom[scancode - 42]
      else rest[scancode - 55]
    }
  }

  const PLAIN: Layout :=
    Layout("\0\01234567890-=\U{0008}", "\tqwertyuiop[]\n", "\0asdfghjkl;'`", "\0\\zxcvbnm,./\0", "*\0 ")

  const SHIFTED: Layout :=
    Layout("\0\0!@#$%^&*()_+\U{0008}", "\tQWERTYUIOP{}\n", "\0ASDFGHJKL:\"~", "\0|ZXCVBNM<>?\0", "*\0 ")

  lemma PlainTable(scancode: nat)
    requires scancode < TABLE_SIZE
    ensures PLAIN.Valid() && PLAIN.At(scancode) as int < 256
  {
  }

  lemma ShiftedTable(scancode: nat)
    requires scancode < TABLE_SIZE
    ensures SHIFTED.Valid() && SHIFTED.At(scancode) as int < 256
  {
  }

  function Ascii(flags: Flags, scancode: Scancode): (c: CChar) {
    if scancode >= TABLE_SIZE then '\0'
    else if flags.shift || flags.caps then ShiftedTable(scancode); SHIFTED.At(scancode)
    else PlainTable(scancode); PLAIN.At(scancode)
  }

  /** The letter keys, row by row from their first scancode on; shift and caps lock do the same. */
  lemma LetterKeys(flags: Flags, k: nat)
    ensures var up := flags.shift || flags.caps;
            && (k < 10 ==> Ascii(flags, 0x10 + k) == (if up then "QWERTYUIOP" else "qwertyuiop")[k])
            && (k < 9 ==> Ascii(flags, 0x1E + k) == (if up then "ASDFGHJKL" else "asdfghjkl")[k])
            && (k < 7 ==> Ascii(flags, 0x2C + k) == (if up then "ZXCVBNM" else "zxcvbnm")[k])
  {
  }

  lemma DigitKeys(flags: Flags, k: nat)
    requires k < 12
    ensures Ascii(flags, 0x02 + k) == (if flags.shift || flags.caps then "!@#$%^&*()_+" else "1234567890-=")[k]
  {
  }

  lemma PunctuationKeys(flags: Flags, k: nat)
    ensures var up := flags.shift || flags.caps;
            && (k < 2 ==> Ascii(flags, 0x1A + k) == (if up then "{}" else "[]")[k])
            && (k < 3 ==> Ascii(flags, 0x27 + k) == (if up then ":\"~" else ";'`")[k])
            && (k < 3 ==> Ascii(flags, 0x33 + k) == (if up then "<>?" else ",./")[k])
            && Ascii(flags, 0x2B) == if up then '|' else '\\'
  {
  }

  /** The keys that give the same with and without shift. */
  lemma PlainKeys(flags: Flags)
    ensures Ascii(flags, 0x0E) == '\U{0008}' && Ascii(flags, 0x0F) == '\t' && Ascii(flags, 0x1C) == '\n'
    ensures Ascii(flags, 0x37) == '*' && Ascii(flags, 0x39) == ' '
  {
  }

  lemma SilentKeys(flags: Flags, c: Scancode)
    requires c >= 0x3A || c in {0x00, 0x01, 0x1D, 0x2A, 0x36, 0x38}
    ensures Ascii(flags, c) == '\0'
  {
  }

  predicate IsSpecial(scancode: Scancode) {
    scancode in {0x48, 0x50, 0x4B, 0x4D, 0x47, 0x4F, 0x53, 0x01}
  }

  datatype Key = CursorLeft | CursorRight | Home | End | Delete | Insert(c: CChar) | Erase | Enter | Ignored

  /** Up, Down and Escape are special keys that do nothing. */
  function SpecialKey(scancode: Scancode): Key {
    if scancode == 0x4B then CursorLeft
    else if scancode == 0x4D then CursorRight
    else if scancode == 0x47 then Home
    else if scancode == 0x4F then End
    else if scancode == 0x53 then Delete
    else Ignored
  }

  /** What a scancode means to the command line. */
  function KeyOf(flags: Flags, scancode: Scancode): Key {
    if IsSpecial(scancode) then SpecialKey(scancode)
    else if scancode >= 0x80 || scancode in {0x2A, 0x3A, 0x1D, 0x38} then Ignored
    else
      var c := Ascii(flags, scancode);
      if c == '\0' then Ignored else if c == BACKSPACE then Erase else if c == '\n' then Enter else Insert(c)
  }

  /** The keys that do something else than give a character, whatever the modifiers. */
  lemma CommandKeys(flags: Flags)
    ensures KeyOf(flags, 0x4B) == CursorLeft && KeyOf(flags, 0x4D) == CursorRight
    ensures KeyOf(flags, 0x47) == Home && KeyOf(flags, 0x4F) == End && KeyOf(flags, 0x53) == Delete
    ensures KeyOf(flags, 0x0E) == Erase && KeyOf(flags, 0x1C) == Enter
    ensures KeyOf(flags, 0x01) == KeyOf(flags, 0x48) == KeyOf(flags, 0x50) == Ignored
    ensures forall c: Scancode | c >= 0x80 :: KeyOf(flags, c) == Ignored
  {
  }

  /** The modifier flags after a scancode. */
  function FlagsAfter(flags: Flags, scancode: Scancode): Flags {
    if scancode >= 0x80 then
      match scancode - 0x80
      case 0x2A => flags.(shift := false)
      case 0x1D => flags.(ctrl := false)
      case 0x38 => flags.(alt := false)
      case _ => flags
    else
      match scancode
      case 0x2A => flags.(shift := true)
      case 0x3A => flags.(caps := !flags.caps)
      case 0x1D => flags.(ctrl := true)
      case 0x38 => flags.(alt := true)
      case _ => flags
  }

  function FlagsAfterAll(flags: Flags, history: seq<Scancode>): Flags {
    if history == [] then flags
    else FlagsAfter(FlagsAfterAll(flags, history[..|history| - 1]), history[|history| - 1])
  }

  /** Whether the last of the two scancodes in the history was `on`. */
  function LastWas(history: seq<Scancode>, on: Scancode, off: Scancode): bool {
    if history == [] then false
    else
      var last := history[|history| - 1];
      last == on || (last != off && LastWas(history[..|history| - 1], on, off))
  }

  function Presses(history: seq<Scancode>, code: Scancode): nat {
    multiset(history)[code]
  }

  lemma HistorySnoc(before: seq<Scancode>, last: Scancode, on: Scancode, off: Scancode)
    ensures LastWas(before + [last], on, off) == (last == on || (last != off && LastWas(before, on, off)))
    ensures Presses(before + [last], on) == Presses(before, on) + if last == on then 1 else 0
  {
    assert (before + [last])[..|before|] == before;
  }

  lemma FlagsStep(flags: Flags, last: Scancode)
    ensures FlagsAfter(flags, last) ==
            Flags(last == 0x2A || (last != 0xAA && flags.shift), flags.caps != (last == 0x3A),
                  last == 0x1D || (last != 0x9D && flags.ctrl), last == 0x38 || (last != 0xB8 && flags.alt))
  {
  }

  lemma OneMoreIsOdd(n: nat)
    ensures (n + 1) % 2 == 1 <==> n % 2 != 1
  {
  }

  /** The flags told from the history alone. */
  function Told(history: seq<Scancode>): Flags {
    Flags(LastWas(history, 0x2A, 0xAA), Presses(history, 0x3A) % 2 == 1,
          LastWas(history, 0x1D, 0x9D), LastWas(history, 0x38, 0xB8))
  }

  lemma ToldSnoc(before: seq<Scancode>, last: Scancode)
    ensures Told(before + [last]) == FlagsAfter(Told(before), last)
  {
    HistorySnoc(before, last, 0x2A, 0xAA);
    HistorySnoc(before, last, 0x3A, 0xBA);
    HistorySnoc(before, last, 0x1D, 0x9D);
    HistorySnoc(before, last, 0x38, 0xB8);
    FlagsStep(Told(before), last);
    OneMoreIsOdd(Presses(before, 0x3A));
  }

  /** Shift, control and alt are on exactly when their last event was a press; caps lock is on
      exactly after an odd number of presses. */
  lemma {:induction false} FlagsMean(history: seq<Scancode>)
    ensures FlagsAfterAll(RELEASED, history) ==
            Flags(LastWas(history, 0x2A, 0xAA), Presses(history, 0x3A) % 2 == 1,
                  LastWas(history, 0x1D, 0x9D), LastWas(history, 0x38, 0xB8))
  {
    if history == [] {
    } else {
      var before, last := history[..|history| - 1], history[|history| - 1];
      FlagsMean(before);
      assert history == before + [last];
      ToldSnoc(before, last);
    }
  }

  /** The flags after the first scancode are where the rest of the history starts. */
  lemma {:induction false} FlagsCons(flags: Flags, first: Scancode, history: seq<Scancode>)
    ensures FlagsAfterAll(flags, [first] + history) == FlagsAfterAll(FlagsAfter(flags, first), history)
  {
    var all := [first] + history;
    if history == [] {
      assert all[..0] == [];
    } else {
      var before := history[..|history| - 1];
      FlagsCons(flags, first, before);
      assert all[..|all| - 1] == [first] + before;
    }
  }

  // ----- the command line

  datatype Line = Line(left: string, right: string)

  predicate Textual(line: Line) {
    '\0' !in line.left && '\0' !in line.right
  }

  function Length(line: Line): nat { |line.left| + |line.right| }

  /** The effect of a key on a command line kept in `size` characters. */
  function Edit(line: Line, key: Key, size: nat): Line {
    var l, r := line.left, line.right;
    match key
    case CursorLeft => if l == "" then line else Line(l[..|l| - 1], [l[|l| - 1]] + r)
    case CursorRight => if r == "" then line else Line(l + [r[0]], r[1..])
    case Home => Line("", l + r)
    case End => Line(l + r, "")
    case Delete => if r == "" then line else Line(l, r[1..])
    case Erase => if l == "" then line else Line(l[..|l| - 1], r)
    case Enter => Line(l, "")
    case Insert(c) => if |l| + 1 < size then Line(l + [c], r) else line
    case Ignored => line
  }

  /** An insertion the buffer has room for: the code tests the cursor only, not the length. */
  predicate Roomy(line: Line, key: Key, size: nat) {
    key.Insert? && |line.left| + 1 < size ==> Length(line) + 2 <= size
  }

  function LeftBy(t: Terminal, n: nat): (u: Terminal)
    ensures OnScreen(t) ==> OnScreen(u)
  {
    if n == 0 then t else Left(LeftBy(t, n - 1))
  }

  function RightBy(t: Terminal, n: nat): (u: Terminal)
    ensures OnScreen(t) ==> OnScreen(u)
  {
    if n == 0 then t else Right(RightBy(t, n - 1))
  }

  /** What a key does to the screen. Backspace shows a glyph, since the terminal knows no '\b'. */
  function Echo(t: Terminal, line: Line, key: Key, size: nat, color: Color): (u: Terminal)
    requires OnScreen(t)
    ensures OnScreen(u)
  {
    match key
    case CursorLeft => if line.left == "" then t else Left(t)
    case CursorRight => if line.right == "" then t else Right(t)
    case Home => LeftBy(t, |line.left|)
    case End => RightBy(t, |line.right|)
    case Delete => if line.right == "" then t else DeleteAt(t, color)
    case Erase => if line.left == "" then t else Put(t, BACKSPACE, color)
    case Enter => Put(t, '\n', color)
    case Insert(c) => if |line.left| + 1 < size then Put(t, c, color) else t
    case Ignored => t
  }

  lemma {:induction false} LeftByCells(t: Terminal, n: nat)
    requires OnScreen(t)
    ensures LeftBy(t, n).cells == t.cells
  {
    if n == 0 {
    } else {
      LeftByCells(t, n - 1);
    }
  }

  lemma {:induction false} RightByCells(t: Terminal, n: nat)
    requires OnScreen(t)
    ensures RightBy(t, n).cells == t.cells
  {
    if n == 0 {
    } else {
      RightByCells(t, n - 1);
    }
  }

  /** What each key changes on the screen: a character and Backspace put a glyph into the cursor's
      cell, Delete takes the cursor's cell out of its row, no other key changes a cell; Enter goes to the
      start of the next row. */
  lemma EchoShows(t: Terminal, line: Line, key: Key, size: nat, color: Color)
    requires OnScreen(t)
    ensures var u, p, end := Echo(t, line, key, size, color), Position(t), t.row * 80 + 80;
            match key
            case Insert(c) =>
              if |line.left| + 1 < size then u == Put(t, c, color) else u == t
            case Erase =>
              if line.left != "" then u == Put(t, '\U{0008}', color) else u == t
            case Delete =>
              && u.row == t.row && u.column == t.column
              && forall i | 0 <= i < 2000 ::
                   u.cells[i] == if line.right == "" || i < p || i >= end then t.cells[i]
                                 else if i == end - 1 then Glyph(' ', color) else t.cells[i + 1]
            case Enter => u.cells == t.cells && Position(u) == (p / 80 * 80 + 80) % 2000
            case _ => u.cells == t.cells
  {
    match key
    case Delete => DeleteCells(t, color);
    case Enter => PutMeans(t, '\n', color);
    case Home => LeftByCells(t, |line.left|);
    case End => RightByCells(t, |line.right|);
    case _ =>
  }

  /** Every key keeps the line within the buffer, unless an insertion finds no room. */
  lemma EditFits(line: Line, key: Key, size: nat)
    requires Textual(line) && Length(line) < size && Roomy(line, key, size)
    requires key.Insert? ==> key.c != '\0'
    ensures Textual(Edit(line, key, size)) && Length(Edit(line, key, size)) < size
  {
  }

  /** A run whose insertions all find room. */
  predicate RoomyRun(line: Line, flags: Flags, scancodes: seq<Scancode>, size: nat)
    decreases scancodes
  {
    scancodes == [] ||
    var key := KeyOf(flags, scancodes[0]);
    Roomy(line, key, size) && RoomyRun(Edit(line, key, size), FlagsAfter(flags, scancodes[0]), scancodes[1..], size)
  }

  function LineAfter(line: Line, flags: Flags, scancodes: seq<Scancode>, size: nat): Line
    decreases scancodes
  {
    if scancodes == [] then line
    else LineAfter(Edit(line, KeyOf(flags, scancodes[0]), size), FlagsAfter(flags, scancodes[0]), scancodes[1..], size)
  }

  /** Over every run whose insertions find room, the text and its terminator fit the buffer. */
  lemma {:induction false} StaysInBuffer(line: Line, flags: Flags, scancodes: seq<Scancode>, size: nat)
    requires Textual(line) && Length(line) < size && RoomyRun(line, flags, scancodes, size)
    ensures var u := LineAfter(line, flags, scancodes, size); Textual(u) && Length(u) < size
    decreases scancodes
  {
    if scancodes == [] {
    } else {
      var key := KeyOf(flags, scancodes[0]);
      EditFits(line, key, size);
      StaysInBuffer(Edit(line, key, size), FlagsAfter(flags, scancodes[0]), scancodes[1..], size);
    }
  }

  // ----- what runs of one kind of key do

  /** Scancodes that move the cursor or nothing at all, whatever the modifiers. */
  predicate Harmless(scancode: Scancode) {
    (IsSpecial(scancode) && scancode != 0x53) || scancode >= 0x80 || scancode in {0x2A, 0x3A, 0x1D, 0x38}
  }

  lemma MoveKeepsText(line: Line, key: Key, size: nat)
    requires key.CursorLeft? || key.CursorRight? || key.Home? || key.End? || key.Ignored?
    ensures var e := Edit(line, key, size); e.left + e.right == line.left + line.right
  {
  }

  /** Any run of cursor keys, modifiers and releases keeps the text. */
  lemma {:induction false} CursorKeysKeepText(line: Line, flags: Flags, scancodes: seq<Scancode>, size: nat)
    requires forall c | c in scancodes :: Harmless(c)
    ensures RoomyRun(line, flags, scancodes, size)
    ensures var u := LineAfter(line, flags, scancodes, size); u.left + u.right == line.left + line.right
    decreases scancodes
  {
    if scancodes == [] {
    } else {
      var key := KeyOf(flags, scancodes[0]);
      assert scancodes[0] in scancodes && forall c | c in scancodes[1..] :: c in scancodes;
      MoveKeepsText(line, key, size);
      CursorKeysKeepText(Edit(line, key, size), FlagsAfter(flags, scancodes[0]), scancodes[1..], size);
    }
  }

  /** Every one of the scancodes is a character key, with the given modifiers held throughout. */
  ghost predicate Characters(flags: Flags, scancodes: seq<Scancode>) {
    forall c | c in scancodes :: KeyOf(flags, c).Insert?
  }

  function CharsOf(flags: Flags, scancodes: seq<Scancode>): string
    requires Characters(flags, scancodes)
  {
    seq(|scancodes|, i requires 0 <= i < |scancodes| => assert scancodes[i] in scancodes; KeyOf(flags, scancodes[i]).c)
  }

  function Repeated(scancode: Scancode, n: nat): seq<Scancode> {
    seq(n, _ => scancode)
  }

  lemma CharacterKey(line: Line, flags: Flags, c: Scancode, size: nat)
    requires KeyOf(flags, c).Insert? && |line.left| + 1 < size
    ensures Edit(line, KeyOf(flags, c), size) == Line(line.left + [KeyOf(flags, c).c], line.right)
    ensures FlagsAfter(flags, c) == flags
    ensures Roomy(line, KeyOf(flags, c), size) <==> Length(line) + 2 <= size
  {
  }

  lemma EraserKey(line: Line, c: char, flags: Flags, rest: seq<Scancode>, size: nat)
    ensures var pushed, s := Line(line.left + [c], line.right), [0x0E] + rest;
            && LineAfter(pushed, flags, s, size) == LineAfter(line, flags, rest, size)
            && (RoomyRun(pushed, flags, s, size) <==> RoomyRun(line, flags, rest, size))
  {
    var s := [0x0E] + rest;
    assert s[0] == 0x0E && s[1..] == rest;
    assert KeyOf(flags, 0x0E) == Erase && (line.left + [c])[..|line.left|] == line.left;
  }

  lemma CharsCons(left: string, flags: Flags, c: Scancode, rest: seq<Scancode>)
    requires Characters(flags, [c] + rest) && Characters(flags, rest)
    ensures KeyOf(flags, c).Insert?
    ensures left + [KeyOf(flags, c).c] + CharsOf(flags, rest) == left + CharsOf(flags, [c] + rest)
  {
    var all := [c] + rest;
    assert c in all && all[0] == c;
    assert CharsOf(flags, all) == [KeyOf(flags, c).c] + CharsOf(flags, rest);
  }

  /** Character keys go one after the other in front of the cursor, as long as there is room. */
  lemma {:induction false} TypingInserts(line: Line, flags: Flags, scancodes: seq<Scancode>, size: nat)
    requires Characters(flags, scancodes) && Length(line) + |scancodes| < size
    ensures RoomyRun(line, flags, scancodes, size)
    ensures LineAfter(line, flags, scancodes, size) == Line(line.left + CharsOf(flags, scancodes), line.right)
    ensures FlagsAfterAll(flags, scancodes) == flags
    decreases scancodes
  {
    if scancodes == [] {
      assert line.left + CharsOf(flags, scancodes) == line.left;
    } else {
      var c, rest := scancodes[0], scancodes[1..];
      assert c in scancodes && forall d | d in rest :: d in scancodes;
      CharacterKey(line, flags, c, size);
      var next := Edit(line, KeyOf(flags, c), size);
      TypingInserts(next, flags, rest, size);
      assert [c] + rest == scancodes;
      FlagsCons(flags, c, rest);
      CharsCons(line.left, flags, c, rest);
    }
  }

  /** As many Backspaces take back what was typed, wherever the cursor is and whatever comes next. */
  lemma {:induction false} EraseUndoesTyping(line: Line, flags: Flags, scancodes: seq<Scancode>,
                                             rest: seq<Scancode>, size: nat)
    requires Characters(flags, scancodes) && Length(line) + |scancodes| < size
    ensures var all := scancodes + Repeated(0x0E, |scancodes|) + rest;
            && LineAfter(line, flags, all, size) == LineAfter(line, flags, rest, size)
            && (RoomyRun(line, flags, all, size) <==> RoomyRun(line, flags, rest, size))
    decreases scancodes
  {
    var n := |scancodes|;
    var all := scancodes + Repeated(0x0E, n) + rest;
    if n == 0 {
      assert all == rest;
    } else {
      var c, inner, erased := scancodes[0], scancodes[1..], [0x0E] + rest;
      assert c in scancodes && forall d | d in inner :: d in scancodes;
      assert all[0] == c && all[1..] == inner + Repeated(0x0E, n - 1) + erased;
      CharacterKey(line, flags, c, size);
      EraseUndoesTyping(Edit(line, KeyOf(flags, c), size), flags, inner, erased, size);
      EraserKey(line, KeyOf(flags, c).c, flags, rest, size);
    }
  }

  function EditTimes(line: Line, key: Key, n: nat, size: nat): Line
    decreases n
  {
    if n == 0 then line else EditTimes(Edit(line, key, size), key, n - 1, size)
  }

  lemma {:induction false} RepeatedKey(line: Line, flags: Flags, c: Scancode, n: nat, rest: seq<Scancode>, size: nat)
    requires FlagsAfter(flags, c) == flags
    ensures LineAfter(line, flags, Repeated(c, n) + rest, size)
            == LineAfter(EditTimes(line, KeyOf(flags, c), n, size), flags, rest, size)
    decreases n
  {
    var all := Repeated(c, n) + rest;
    if n == 0 {
      assert all == rest;
    } else {
      RepeatedKey(Edit(line, KeyOf(flags, c), size), flags, c, n - 1, rest, size);
      assert all[0] == c && all[1..] == Repeated(c, n - 1) + rest;
    }
  }

  lemma {:induction false} DeleteTimes(line: Line, n: nat, size: nat)
    requires n <= |line.right|
    ensures EditTimes(line, Delete, n, size) == Line(line.left, line.right[n..])
    decreases n
  {
    if n == 0 {
    } else {
      DeleteTimes(Edit(line, Delete, size), n - 1, size);
      assert line.right[1..][n - 1..] == line.right[n..];
    }
  }

  lemma {:induction false} RightTimes(line: Line, n: nat, size: nat)
    requires n <= |line.right|
    ensures EditTimes(line, CursorRight, n, size) == Line(line.left + line.right[..n], line.right[n..])
    decreases n
  {
    var l, r := line.left, line.right;
    if n == 0 {
      assert l + r[..0] == l;
    } else {
      RightTimes(Edit(line, CursorRight, size), n - 1, size);
      assert r[1..][n - 1..] == r[n..] && (l + [r[0]]) + r[1..][..n - 1] == l + r[..n];
    }
  }

  lemma {:induction false} LeftTimes(line: Line, n: nat, size: nat)
    requires n <= |line.left|
    ensures var k := |line.left| - n;
            EditTimes(line, CursorLeft, n, size) == Line(line.left[..k], line.left[k..] + line.right)
    decreases n
  {
    var l, r := line.left, line.right;
    if n == 0 {
      assert l[..|l|] == l && l[|l|..] + r == r;
    } else {
      LeftTimes(Edit(line, CursorLeft, size), n - 1, size);
      var k := |l| - n;
      assert l[..|l| - 1][..k] == l[..k] && l[..|l| - 1][k..] + ([l[|l| - 1]] + r) == l[k..] + r;
    }
  }

  lemma {:induction false} EraseTimes(line: Line, n: nat, size: nat)
    requires n <= |line.left|
    ensures EditTimes(line, Erase, n, size) == Line(line.left[..|line.left| - n], line.right)
    decreases n
  {
    var l := line.left;
    if n == 0 {
      assert l[..|l|] == l;
    } else {
      EraseTimes(Edit(line, Erase, size), n - 1, size);
      assert l[..|l| - 1][..|l| - n] == l[..|l| - n];
    }
  }

  lemma RightThenErase(line: Line, n: nat, size: nat)
    requires n <= |line.right|
    ensures EditTimes(EditTimes(line, CursorRight, n, size), Erase, n, size) == Line(line.left, line.right[n..])
  {
    var passed := Line(line.left + line.right[..n], line.right[n..]);
    RightTimes(line, n, size);
    EraseTimes(passed, n, size);
    assert passed.left[..|line.left|] == line.left;
  }

  /** Deletes have the effect of as many steps to the right and then as many Backspaces. */
  lemma DeletesEraseAhead(line: Line, flags: Flags, n: nat, rest: seq<Scancode>, size: nat)
    requires n <= |line.right|
    ensures LineAfter(line, flags, Repeated(0x53, n) + rest, size)
            == LineAfter(line, flags, Repeated(0x4D, n) + (Repeated(0x0E, n) + rest), size)
  {
    RepeatedKey(line, flags, 0x53, n, rest, size);
    RepeatedKey(line, flags, 0x4D, n, Repeated(0x0E, n) + rest, size);
    assert KeyOf(flags, 0x0E) == Erase;
    RepeatedKey(EditTimes(line, CursorRight, n, size), flags, 0x0E, n, rest, size);
    DeleteTimes(line, n, size);
    RightThenErase(line, n, size);
  }

  /** Home has the effect of as many steps as it takes to the left, End to the right. */
  lemma HomeIsSteps(line: Line, flags: Flags, rest: seq<Scancode>, size: nat)
    ensures LineAfter(line, flags, [0x47] + rest, size)
            == LineAfter(line, flags, Repeated(0x4B, |line.left|) + rest, size)
            == LineAfter(Line("", line.left + line.right), flags, rest, size)
  {
    var l := line.left;
    CommandKeys(flags);
    assert ([0x47] + rest)[1..] == rest;
    RepeatedKey(line, flags, 0x4B, |l|, rest, size);
    LeftTimes(line, |l|, size);
    assert l[..0] == "" && l[0..] == l;
  }

  lemma EndIsSteps(line: Line, flags: Flags, rest: seq<Scancode>, size: nat)
    ensures LineAfter(line, flags, [0x4F] + rest, size)
            == LineAfter(line, flags, Repeated(0x4D, |line.right|) + rest, size)
            == LineAfter(Line(line.left + line.right, ""), flags, rest, size)
  {
    var r := line.right;
    CommandKeys(flags);
    assert ([0x4F] + rest)[1..] == rest;
    RepeatedKey(line, flags, 0x4D, |r|, rest, size);
    RightTimes(line, |r|, size);
    assert r[..|r|] == r && r[|r|..] == "";
  }

  /** Two runs, one after the other. */
  lemma {:induction false} LineConcat(line: Line, flags: Flags, xs: seq<Scancode>, ys: seq<Scancode>, size: nat)
    ensures LineAfter(line, flags, xs + ys, size)
            == LineAfter(LineAfter(line, flags, xs, size), FlagsAfterAll(flags, xs), ys, size)
    decreases xs
  {
    if xs == [] {
      assert xs + ys == ys;
    } else {
      var c, rest := xs[0], xs[1..];
      assert (xs + ys)[1..] == rest + ys;
      LineConcat(Edit(line, KeyOf(flags, c), size), FlagsAfter(flags, c), rest, ys, size);
      FlagsCons(flags, c, rest);
      assert [c] + rest == xs;
    }
  }

  lemma {:induction false} RoomyConcat(line: Line, flags: Flags, xs: seq<Scancode>, ys: seq<Scancode>, size: nat)
    ensures RoomyRun(line, flags, xs + ys, size) <==>
            && RoomyRun(line, flags, xs, size)
            && RoomyRun(LineAfter(line, flags, xs, size), FlagsAfterAll(flags, xs), ys, size)
    decreases xs
  {
    if xs == [] {
      assert xs + ys == ys;
    } else {
      var c, rest := xs[0], xs[1..];
      assert (xs + ys)[1..] == rest + ys;
      RoomyConcat(Edit(line, KeyOf(flags, c), size), FlagsAfter(flags, c), rest, ys, size);
      FlagsCons(flags, c, rest);
      assert [c] + rest == xs;
    }
  }

  /** Enter after typing and stepping back leaves exactly what is in front of the cursor. */
  lemma EnterCuts(line: Line, flags: Flags, scancodes: seq<Scancode>, k: nat, size: nat)
    requires Characters(flags, scancodes) && Length(line) + |scancodes| < size
    requires k <= |line.left| + |scancodes|
    ensures var text := line.left + CharsOf(flags, scancodes);
            LineAfter(line, flags, scancodes + (Repeated(0x4B, k) + [0x1C]), size) == Line(text[..|text| - k], "")
  {
    var typed := LineAfter(line, flags, scancodes, size);
    TypingInserts(line, flags, scancodes, size);
    LineConcat(line, flags, scancodes, Repeated(0x4B, k) + [0x1C], size);
    CommandKeys(flags);
    RepeatedKey(typed, flags, 0x4B, k, [0x1C], size);
    LeftTimes(typed, k, size);
    assert [0x1C][1..] == [];
  }

  lemma LeftAfter(line: Line, scancodes: seq<Scancode>, size: nat)
    requires FlagsAfterAll(RELEASED, scancodes) == RELEASED
    ensures FlagsAfterAll(RELEASED, scancodes + [0x4B]) == RELEASED
    ensures LineAfter(line, RELEASED, scancodes + [0x4B], size)
            == Edit(LineAfter(line, RELEASED, scancodes, size), CursorLeft, size)
    ensures RoomyRun(line, RELEASED, scancodes + [0x4B], size) <==> RoomyRun(line, RELEASED, scancodes, size)
  {
    CommandKeys(RELEASED);
    LineConcat(line, RELEASED, scancodes, [0x4B], size);
    RoomyConcat(line, RELEASED, scancodes, [0x4B], size);
    assert [0x4B][1..] == [] && (scancodes + [0x4B])[..|scancodes|] == scancodes;
  }

  /** From an empty line of any size, typing until the line is full and stepping left once leads to
      an insertion that finds no room. */
  lemma NoRoomReached(size: nat)
    requires size >= 2
    ensures var scancodes := Repeated(0x1E, size - 1) + [0x4B];
            && RoomyRun(Line("", ""), RELEASED, scancodes, size)
            && !Roomy(LineAfter(Line("", ""), RELEASED, scancodes, size),
                      KeyOf(FlagsAfterAll(RELEASED, scancodes), 0x1E), size)
  {
    var typed := Repeated(0x1E, size - 1);
    assert KeyOf(RELEASED, 0x1E) == Insert('a');
    TypingInserts(Line("", ""), RELEASED, typed, size);
    LeftAfter(Line("", ""), typed, size);
  }

  // ----- whole sessions

  datatype Session = Session(line: Line, flags: Flags, screen: Terminal)

  function Press(s: Session, scancode: Scancode, size: nat, color: Color): (u: Session)
    requires OnScreen(s.screen)
    ensures OnScreen(u.screen)
  {
    var key := KeyOf(s.flags, scancode);
    Session(Edit(s.line, key, size), FlagsAfter(s.flags, scancode), Echo(s.screen, s.line, key, size, color))
  }

  lemma PressSpecial(s: Session, scancode: Scancode, size: nat, color: Color)
    requires OnScreen(s.screen) && IsSpecial(scancode)
    ensures var key := SpecialKey(scancode);
            && KeyOf(s.flags, scancode) == key
            && Press(s, scancode, size, color)
               == Session(Edit(s.line, key, size), s.flags, Echo(s.screen, s.line, key, size, color))
  {
  }

  function PressAll(s: Session, scancodes: seq<Scancode>, size: nat, color: Color): (u: Session)
    requires OnScreen(s.screen)
    ensures OnScreen(u.screen)
    decreases scancodes
  {
    if scancodes == [] then s else PressAll(Press(s, scancodes[0], size, color), scancodes[1..], size, color)
  }

  /** The line and the flags of a session go their way whatever the screen shows, and the flags
      whatever the line holds. */
  lemma {:induction false} SessionParts(s: Session, scancodes: seq<Scancode>, size: nat, color: Color)
    requires OnScreen(s.screen)
    ensures var u := PressAll(s, scancodes, size, color);
            && u.line == LineAfter(s.line, s.flags, scancodes, size)
            && u.flags == FlagsAfterAll(s.flags, scancodes)
    decreases scancodes
  {
    if scancodes == [] {
    } else {
      var c, rest := scancodes[0], scancodes[1..];
      SessionParts(Press(s, c, size, color), rest, size, color);
      FlagsCons(s.flags, c, rest);
      assert [c] + rest == scancodes;
    }
  }

  /** Where the line starts on the screen, if the screen cursor follows the line cursor. */
  function Base(s: Session): int {
    Position(s.screen) - |s.line.left|
  }

  predicate InBounds(s: Session) {
    OnScreen(s.screen) && Base(s) >= 0 && Base(s) + Length(s.line) < CELLS
  }

  /** Backspace, which prints a glyph, does not print it in the last cell of the screen. */
  predicate PrintsInside(s: Session, key: Key) {
    key.Erase? && s.line.left != "" ==> Position(s.screen) + 1 < CELLS
  }

  /** A run without Enter that stays within the screen. */
  predicate Follows(s: Session, scancodes: seq<Scancode>, size: nat, color: Color)
    decreases scancodes
  {
    InBounds(s) &&
    (scancodes == [] ||
     (KeyOf(s.flags, scancodes[0]) != Enter && PrintsInside(s, KeyOf(s.flags, scancodes[0])) &&
      Follows(Press(s, scancodes[0], size, color), scancodes[1..], size, color)))
  }

  /** How many of the keys erased a character. */
  function Erasures(s: Session, scancodes: seq<Scancode>, size: nat, color: Color): nat
    requires OnScreen(s.screen)
    decreases scancodes
  {
    if scancodes == [] then 0
    else (if KeyOf(s.flags, scancodes[0]) == Erase && s.line.left != "" then 1 else 0)
         + Erasures(Press(s, scancodes[0], size, color), scancodes[1..], size, color)
  }

  lemma {:induction false} LeftByMoves(t: Terminal, n: nat)
    requires OnScreen(t) && n <= Position(t)
    ensures OnScreen(LeftBy(t, n)) && Position(LeftBy(t, n)) == Position(t) - n
  {
    if n == 0 {
    } else {
      LeftByMoves(t, n - 1);
      CursorMoves(LeftBy(t, n - 1), 0);
    }
  }

  lemma {:induction false} RightByMoves(t: Terminal, n: nat)
    requires OnScreen(t) && Position(t) + n < CELLS
    ensures OnScreen(RightBy(t, n)) && Position(RightBy(t, n)) == Position(t) + n
  {
    if n == 0 {
    } else {
      RightByMoves(t, n - 1);
      CursorMoves(RightBy(t, n - 1), 0);
    }
  }

  /** One key moves the screen cursor exactly as it moves the line cursor, except that Backspace goes
      one way on the line and the other on the screen. */
  lemma EchoMoves(t: Terminal, line: Line, key: Key, size: nat, color: Color)
    requires OnScreen(t) && |line.left| <= Position(t) && Position(t) + |line.right| < CELLS
    requires key != Enter && (key.Insert? ==> key.c != '\n')
    requires (key.Insert? && |line.left| + 1 < size) || (key.Erase? && line.left != "") ==> Position(t) + 1 < CELLS
    ensures var u := Echo(t, line, key, size, color);
            && OnScreen(u)
            && Position(u) - |Edit(line, key, size).left|
               == Position(t) - |line.left| + if key == Erase && line.left != "" then 2 else 0
  {
    match key
    case Insert(c) => PutPlain(t, c, color);
    case Erase => PutPlain(t, BACKSPACE, color);
    case Home => LeftByMoves(t, |line.left|);
    case End => RightByMoves(t, |line.right|);
    case _ => CursorMoves(t, color);
  }

  lemma PressFollows(s: Session, scancode: Scancode, size: nat, color: Color)
    requires InBounds(s) && KeyOf(s.flags, scancode) != Enter
    requires PrintsInside(s, KeyOf(s.flags, scancode)) && InBounds(Press(s, scancode, size, color))
    ensures var u := Press(s, scancode, size, color);
            Base(u) == Base(s) + if KeyOf(s.flags, scancode) == Erase && s.line.left != "" then 2 else 0
  {
    EchoMoves(s.screen, s.line, KeyOf(s.flags, scancode), size, color);
  }

  /** Over every run without Enter that stays within the screen, the screen cursor keeps its distance
      from the line cursor, growing by two with every character erased. */
  lemma {:induction false} CursorTracks(s: Session, scancodes: seq<Scancode>, size: nat, color: Color)
    requires Follows(s, scancodes, size, color)
    ensures var u := PressAll(s, scancodes, size, color);
            Base(u) == Base(s) + 2 * Erasures(s, scancodes, size, color)
    decreases scancodes
  {
    if scancodes == [] {
    } else {
      PressFollows(s, scancodes[0], size, color);
      CursorTracks(Press(s, scancodes[0], size, color), scancodes[1..], size, color);
    }
  }

  lemma FollowsCons(s: Session, c: Scancode, rest: seq<Scancode>, size: nat, color: Color)
    requires OnScreen(s.screen)
    ensures var u, key := Press(s, c, size, color), KeyOf(s.flags, c);
            && (Follows(s, [c] + rest, size, color) <==>
                InBounds(s) && key != Enter && PrintsInside(s, key) && Follows(u, rest, size, color))
            && Erasures(s, [c] + rest, size, color)
               == (if key == Erase && s.line.left != "" then 1 else 0) + Erasures(u, rest, size, color)
            && PressAll(s, [c] + rest, size, color) == PressAll(u, rest, size, color)
  {
    assert ([c] + rest)[0] == c && ([c] + rest)[1..] == rest;
  }

  lemma PressA(t: Terminal, size: nat, color: Color)
    requires OnScreen(t) && size >= 2
    ensures KeyOf(RELEASED, 0x1E) == Insert('a')
    ensures Press(Session(Line("", ""), RELEASED, t), 0x1E, size, color)
            == Session(Line("a", ""), RELEASED, Put(t, 'a', color))
  {
  }

  lemma PressBackspace(t: Terminal, size: nat, color: Color)
    requires OnScreen(t)
    ensures KeyOf(RELEASED, 0x0E) == Erase
    ensures Press(Session(Line("a", ""), RELEASED, t), 0x0E, size, color)
            == Session(Line("", ""), RELEASED, Put(t, BACKSPACE, color))
  {
  }

  lemma EraseOnce(t: Terminal, size: nat, color: Color)
    requires OnScreen(t) && 0 < Position(t) && Position(t) + 1 < CELLS
    ensures var s, u := Session(Line("a", ""), RELEASED, t), Session(Line("", ""), RELEASED, Put(t, BACKSPACE, color));
            && Follows(s, [0x0E], size, color) && Erasures(s, [0x0E], size, color) == 1
            && PressAll(s, [0x0E], size, color) == u && Base(u) == Base(s) + 2
  {
    PutPlain(t, BACKSPACE, color);
    PressBackspace(t, size, color);
    FollowsCons(Session(Line("a", ""), RELEASED, t), 0x0E, [], size, color);
    assert [0x0E] + [] == [0x0E];
  }

  /** One character typed and erased again leaves the line empty and the screen cursor two places on. */
  lemma DriftReached(t: Terminal, size: nat, color: Color)
    requires OnScreen(t) && Position(t) + 2 < CELLS && size >= 2
    ensures var s, scancodes := Session(Line("", ""), RELEASED, t), [0x1E, 0x0E];
            && Follows(s, scancodes, size, color) && Erasures(s, scancodes, size, color) == 1
            && PressAll(s, scancodes, size, color).line == s.line
            && Base(PressAll(s, scancodes, size, color)) == Base(s) + 2
  {
    PutPlain(t, 'a', color);
    PressA(t, size, color);
    EraseOnce(Put(t, 'a', color), size, color);
    FollowsCons(Session(Line("", ""), RELEASED, t), 0x1E, [0x0E], size, color);
    assert [0x1E] + [0x0E] == [0x1E, 0x0E];
  }

  // ----- reading a line

  /** The character the polling reader sees: no modifiers, no releases. */
  function PolledChar(scancode: Scancode): char {
    if scancode >= TABLE_SIZE then '\0' else PlainTable(scancode); PLAIN.At(scancode)
  }

  /** A stack of characters: printable ones are pushed, Backspace pops. */
  function Type(line: string, scancode: Scancode): string {
    var c := PolledChar(scancode);
    if c == BACKSPACE then (if line == "" then "" else line[..|line| - 1])
    else if c == '\0' then line
    else line + [c]
  }

  function Typed(line: string, scancodes: seq<Scancode>): string
    decreases scancodes
  {
    if scancodes == [] then line else Typed(Type(line, scancodes[0]), scancodes[1..])
  }

  /** How many scancodes are read: up to and including the first newline, or until the line is full;
      nothing if neither comes. */
  datatype Reading = Done(line: string, used: nat) | Unfinished

  function ReadLine(line: string, scancodes: seq<Scancode>, capacity: nat): Reading
    decreases scancodes
  {
    if |line| >= capacity then Done(line, 0)
    else if scancodes == [] then Unfinished
    else
      var c := PolledChar(scancodes[0]);
      if c == '\n' then Done(line, 1)
      else
        var r := ReadLine(Type(line, scancodes[0]), scancodes[1..], capacity);
        if r.Done? then r.(used := r.used + 1) else r
  }

  /** After `n` scancodes the line is full. */
  ghost predicate FullAt(line: string, scancodes: seq<Scancode>, n: nat, capacity: nat)
    requires n <= |scancodes|
  {
    |Typed(line, scancodes[..n])| >= capacity
  }

  /** Neither a newline nor a full line among the first `n` scancodes. */
  ghost predicate Quiet(line: string, scancodes: seq<Scancode>, n: nat, capacity: nat)
    requires n <= |scancodes|
  {
    forall k | 0 <= k < n :: !FullAt(line, scancodes, k, capacity) && PolledChar(scancodes[k]) != '\n'
  }

  lemma TypedShift(line: string, scancodes: seq<Scancode>, n: nat)
    requires n < |scancodes|
    ensures Typed(line, scancodes[..n + 1]) == Typed(Type(line, scancodes[0]), scancodes[1..][..n])
  {
    assert scancodes[..n + 1][1..] == scancodes[1..][..n];
  }

  lemma FullShifted(line: string, scancodes: seq<Scancode>, n: nat, capacity: nat)
    requires n < |scancodes|
    ensures FullAt(line, scancodes, n + 1, capacity) <==> FullAt(Type(line, scancodes[0]), scancodes[1..], n, capacity)
  {
    TypedShift(line, scancodes, n);
  }

  lemma QuietShift(line: string, scancodes: seq<Scancode>, n: nat, capacity: nat)
    requires n < |scancodes| && |line| < capacity && PolledChar(scancodes[0]) != '\n'
    requires Quiet(Type(line, scancodes[0]), scancodes[1..], n, capacity)
    ensures Quiet(line, scancodes, n + 1, capacity)
  {
    var next, rest := Type(line, scancodes[0]), scancodes[1..];
    forall k | 0 <= k < n + 1 ensures !FullAt(line, scancodes, k, capacity) && PolledChar(scancodes[k]) != '\n' {
      if k == 0 {
        assert scancodes[..0] == [];
      } else {
        assert !FullAt(next, rest, k - 1, capacity) && rest[k - 1] == scancodes[k];
        FullShifted(line, scancodes, k - 1, capacity);
      }
    }
  }

  /** The line is full after `n` scancodes and not before, with no newline among them. */
  ghost predicate StopsFull(line: string, scancodes: seq<Scancode>, n: nat, capacity: nat) {
    n <= |scancodes| && Quiet(line, scancodes, n, capacity) && FullAt(line, scancodes, n, capacity)
  }

  /** The scancode after the first `n` is the first newline, and the line is not full by then. */
  ghost predicate StopsAtNewline(line: string, scancodes: seq<Scancode>, n: nat, capacity: nat) {
    && n < |scancodes| && Quiet(line, scancodes, n, capacity) && !FullAt(line, scancodes, n, capacity)
    && PolledChar(scancodes[n]) == '\n'
  }

  lemma StopsShift(line: string, scancodes: seq<Scancode>, n: nat, capacity: nat)
    requires |line| < capacity && scancodes != [] && PolledChar(scancodes[0]) != '\n' && n < |scancodes|
    ensures var next, rest := Type(line, scancodes[0]), scancodes[1..];
            && Typed(line, scancodes[..n + 1]) == Typed(next, rest[..n])
            && (Quiet(next, rest, n, capacity) ==> Quiet(line, scancodes, n + 1, capacity))
            && (StopsFull(next, rest, n, capacity) ==> StopsFull(line, scancodes, n + 1, capacity))
            && (StopsAtNewline(next, rest, n, capacity) ==> StopsAtNewline(line, scancodes, n + 1, capacity))
  {
    TypedShift(line, scancodes, n);
    FullShifted(line, scancodes, n, capacity);
    if Quiet(Type(line, scancodes[0]), scancodes[1..], n, capacity) {
      QuietShift(line, scancodes, n, capacity);
    }
  }

  /** `r` is where reading stops and what was typed until then; it does not stop exactly when the
      line never gets full and no newline comes. */
  ghost predicate Explains(r: Reading, line: string, scancodes: seq<Scancode>, capacity: nat) {
    match r
    case Done(text, used) =>
      || (StopsFull(line, scancodes, used, capacity) && text == Typed(line, scancodes[..used]))
      || (used > 0 && StopsAtNewline(line, scancodes, used - 1, capacity)
          && text == Typed(line, scancodes[..used - 1]))
    case Unfinished =>
      Quiet(line, scancodes, |scancodes|, capacity) && !FullAt(line, scancodes, |scancodes|, capacity)
  }

  lemma FullShift(text: string, used: nat, line: string, scancodes: seq<Scancode>, capacity: nat)
    requires |line| < capacity && scancodes != [] && PolledChar(scancodes[0]) != '\n'
    requires var next, rest := Type(line, scancodes[0]), scancodes[1..];
             StopsFull(next, rest, used, capacity) && text == Typed(next, rest[..used])
    ensures Explains(Done(text, used + 1), line, scancodes, capacity)
  {
    StopsShift(line, scancodes, used, capacity);
  }

  lemma NewlineShift(text: string, used: nat, line: string, scancodes: seq<Scancode>, capacity: nat)
    requires |line| < capacity && scancodes != [] && PolledChar(scancodes[0]) != '\n'
    requires var next, rest := Type(line, scancodes[0]), scancodes[1..];
             used > 0 && StopsAtNewline(next, rest, used - 1, capacity) && text == Typed(next, rest[..used - 1])
    ensures Explains(Done(text, used + 1), line, scancodes, capacity)
  {
    StopsShift(line, scancodes, used - 1, capacity);
  }

  lemma DoneShift(text: string, used: nat, line: string, scancodes: seq<Scancode>, capacity: nat)
    requires |line| < capacity && scancodes != [] && PolledChar(scancodes[0]) != '\n'
    requires Explains(Done(text, used), Type(line, scancodes[0]), scancodes[1..], capacity)
    ensures Explains(Done(text, used + 1), line, scancodes, capacity)
  {
    var next, rest := Type(line, scancodes[0]), scancodes[1..];
    if StopsFull(next, rest, used, capacity) && text == Typed(next, rest[..used]) {
      FullShift(text, used, line, scancodes, capacity);
    } else {
      NewlineShift(text, used, line, scancodes, capacity);
    }
  }

  /** Reading stops at the first newline or as soon as the line is full, whichever comes first, with
      what was typed until then; it does not end exactly when neither comes. */
  lemma {:induction false} ReadLineMeans(line: string, scancodes: seq<Scancode>, capacity: nat)
    ensures Explains(ReadLine(line, scancodes, capacity), line, scancodes, capacity)
    decreases scancodes
  {
    assert scancodes[..0] == [];
    if |line| < capacity && scancodes != [] && PolledChar(scancodes[0]) != '\n' {
      var next, rest := Type(line, scancodes[0]), scancodes[1..];
      ReadLineMeans(next, rest, capacity);
      var r := ReadLine(next, rest, capacity);
      if r.Done? {
        DoneShift(r.line, r.used, line, scancodes, capacity);
      } else {
        StopsShift(line, scancodes, |rest|, capacity);
      }
    }
  }

  /** One Backspace read on a line that is not full. */
  lemma EraserRead(line: string, c: Scancode, rest: seq<Scancode>, capacity: nat)
    requires PolledChar(c) !in {'\0', '\n', BACKSPACE} && |line| + 1 < capacity
    ensures Type(line, c) == line + [PolledChar(c)]
    ensures ReadLine(Type(line, c), [0x0E] + rest, capacity) ==
            var r := ReadLine(line, rest, capacity);
            if r.Done? then Done(r.line, r.used + 1) else Unfinished
  {
    var s, pushed := [0x0E] + rest, line + [PolledChar(c)];
    assert s[0] == 0x0E && s[1..] == rest;
    assert PolledChar(0x0E) == BACKSPACE && pushed[..|line|] == line;
  }

  /** The poll sees what the driver would see with no modifier held. */
  lemma PolledIsPlain(c: Scancode)
    ensures PolledChar(c) == Ascii(RELEASED, c)
  {
  }

  /** What each kind of scancode does to a line that is not full: a release or any other key without a
      character is skipped, a character is added, Backspace takes one back if there is one, and a
      newline ends the line. */
  lemma ReadMeans(line: string, c: Scancode, rest: seq<Scancode>, capacity: nat)
    requires |line| < capacity
    ensures var ch := PolledChar(c);
            var line' := if ch == '\0' then line
                         else if ch == '\U{0008}' then (if line == "" then "" else line[..|line| - 1])
                         else line + [ch];
            var r := ReadLine(line', rest, capacity);
            ReadLine(line, [c] + rest, capacity) ==
            if ch == '\n' then Done(line, 1) else if r.Done? then Done(r.line, r.used + 1) else Unfinished
  {
    assert ([c] + rest)[0] == c && ([c] + rest)[1..] == rest;
  }

  /** No NUL, newline or Backspace. */
  ghost predicate Clean(line: string) {
    '\0' !in line && '\n' !in line && '\U{0008}' !in line
  }

  lemma TypeClean(line: string, c: Scancode)
    requires Clean(line) && PolledChar(c) != '\n'
    ensures Clean(Type(line, c)) && |Type(line, c)| <= |line| + 1
  {
  }

  lemma {:induction false} ReadLineClean(line: string, scancodes: seq<Scancode>, capacity: nat)
    requires Clean(line) && |line| <= capacity
    ensures var r := ReadLine(line, scancodes, capacity); r.Done? ==> Clean(r.line) && |r.line| <= capacity
    decreases scancodes
  {
    if |line| >= capacity || scancodes == [] || PolledChar(scancodes[0]) == '\n' {
    } else {
      var next := Type(line, scancodes[0]);
      TypeClean(line, scancodes[0]);
      ReadLineClean(next, scancodes[1..], capacity);
    }
  }

  /** The characters that survive when as many more Backspaces follow, found from the end: a Backspace
      waits for the nearest character in front of it that no later one has taken. */
  function Kept(typed: seq<Scancode>, waiting: nat): string {
    if typed == [] then ""
    else
      var before, c := typed[..|typed| - 1], PolledChar(typed[|typed| - 1]);
      if c == '\0' then Kept(before, waiting)
      else if c == '\U{0008}' then Kept(before, waiting + 1)
      else if waiting > 0 then Kept(before, waiting - 1)
      else Kept(before, 0) + [c]
  }

  function Shortened(s: string, n: nat): string {
    if n >= |s| then "" else s[..|s| - n]
  }

  lemma {:induction false} TypedSnoc(line: string, scancodes: seq<Scancode>, c: Scancode)
    ensures Typed(line, scancodes + [c]) == Type(Typed(line, scancodes), c)
    decreases scancodes
  {
    if scancodes == [] {
      assert scancodes + [c] == [c] && [c][1..] == [];
    } else {
      assert (scancodes + [c])[1..] == scancodes[1..] + [c];
      TypedSnoc(Type(line, scancodes[0]), scancodes[1..], c);
    }
  }

  /** Typing from the front and matching Backspaces from the end agree. */
  lemma {:induction false} TypedIsKept(typed: seq<Scancode>, waiting: nat)
    ensures Shortened(Typed("", typed), waiting) == Kept(typed, waiting)
  {
    if typed == [] {
    } else {
      var before, last := typed[..|typed| - 1], typed[|typed| - 1];
      var c, s := PolledChar(last), Typed("", before);
      assert typed == before + [last];
      TypedSnoc("", before, last);
      if c == '\0' {
        TypedIsKept(before, waiting);
      } else if c == BACKSPACE {
        TypedIsKept(before, waiting + 1);
      } else if waiting > 0 {
        TypedIsKept(before, waiting - 1);
        assert (s + [c])[..|s|] == s;
      } else {
        TypedIsKept(before, 0);
        assert s[..|s|] == s;
      }
    }
  }

  lemma TypedKept(typed: seq<Scancode>)
    ensures Typed("", typed) == Kept(typed, 0)
  {
    TypedIsKept(typed, 0);
    var s := Typed("", typed);
    assert s[..|s|] == s;
  }

  /** Where reading a fresh line ends, and with which characters: behind a newline with those in front
      of it that no Backspace took, or with as many as the line holds. */
  lemma ReadLineEnds(scancodes: seq<Scancode>, capacity: nat)
    ensures var r := ReadLine("", scancodes, capacity);
            r.Done? ==>
              && Clean(r.line) && r.used <= |scancodes|
              && (|| (r.used > 0 && PolledChar(scancodes[r.used - 1]) == '\n'
                      && r.line == Kept(scancodes[..r.used - 1], 0))
                  || (|r.line| == capacity && r.line == Kept(scancodes[..r.used], 0)))
  {
    ReadLineMeans("", scancodes, capacity);
    ReadLineClean("", scancodes, capacity);
    var r := ReadLine("", scancodes, capacity);
    if r.Done? {
      if StopsFull("", scancodes, r.used, capacity) && r.line == Typed("", scancodes[..r.used]) {
        TypedKept(scancodes[..r.used]);
      } else {
        TypedKept(scancodes[..r.used - 1]);
      }
    }
  }

  /** Characters erased again leave no trace, whatever comes next, as long as the line is not full. */
  lemma {:induction false} TypedThenErased(line: string, typed: seq<Scancode>, rest: seq<Scancode>, capacity: nat)
    requires forall c | c in typed :: PolledChar(c) !in {'\0', '\n', BACKSPACE}
    requires |line| + |typed| < capacity
    ensures ReadLine(line, typed + Repeated(0x0E, |typed|) + rest, capacity) ==
            var r := ReadLine(line, rest, capacity);
            if r.Done? then Done(r.line, r.used + 2 * |typed|) else Unfinished
    decreases typed
  {
    var n := |typed|;
    var all := typed + Repeated(0x0E, n) + rest;
    if n == 0 {
      assert all == rest;
    } else {
      var c, inner, erased := typed[0], typed[1..], [0x0E] + rest;
      assert c in typed && forall d | d in inner :: d in typed;
      assert all[0] == c && all[1..] == inner + Repeated(0x0E, n - 1) + erased;
      TypedThenErased(Type(line, c), inner, erased, capacity);
      EraserRead(line, c, rest, capacity);
    }
  }
}
