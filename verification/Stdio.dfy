/** The printers, filling character arrays in place. */
module Stdio {
  import opened Arithmetic
  import opened Digits
  import opened Formatting

  /** `s` and a terminator stand at the start of the array, and nothing after them changed. */
  twostate predicate Holds(str: array<char>, s: string)
    reads str
  {
    && |s| < str.Length
    && str[..|s|] == s && str[|s|] == '\0'
    && forall k | |s| < k < str.Length :: str[k] == old(str[k])
  }

  lemma IsReversed(r: string, s: string)
    requires |r| == |s| && forall k | 0 <= k < |s| :: r[k] == s[|s| - 1 - k]
    ensures r == Reversed(s)
  {
    ReversedAt(s);
  }

  /** Reverses the first `n` characters. */
  method ReversePrefix(str: array<char>, n: nat)
    requires n <= str.Length
    modifies str
    ensures str[..n] == Reversed(old(str[..n]))
    ensures forall k | n <= k < str.Length :: str[k] == old(str[k])
  {
    ghost var before := str[..];
    var start := 0;
    var end := n - 1;
    while start < end
      invariant 0 <= start <= n && end == n - 1 - start
      invariant start <= end + 1
      invariant forall k | 0 <= k < n :: str[k] == before[if start <= k <= end then k else n - 1 - k]
      invariant forall k | n <= k < str.Length :: str[k] == before[k]
      decreases end - start
    {
      var temp := str[start];
      str[start] := str[end];
      str[end] := temp;
      start := start + 1;
      end := end - 1;
    }
    IsReversed(str[..n], before[..n]);
  }

  /** The digit loop (kernel/stdio.c:23-27): last digit first. */
  method WriteDigits(str: array<char>, value: nat, base: nat) returns (i: nat)
    requires 2 <= base <= 36 && |Produced(value, base)| <= str.Length
    modifies str
    ensures i == |Produced(value, base)| && str[..i] == Produced(value, base)
    ensures forall k | i <= k < str.Length :: str[k] == old(str[k])
  {
    var num: nat := value;
    i := 0;
    ghost var all := Produced(num, base);
    while num > 0
      invariant 0 <= i <= |all|
      invariant all == str[..i] + Produced(num, base)
      invariant forall k | |all| <= k < str.Length :: str[k] == old(str[k])
      decreases num
    {
      ghost var done := str[..i];
      ProducedStep(all, done, num, base);
      var rem := num % base;
      str[i] := if rem > 9 then 'a' + (rem - 10) as char else '0' + rem as char;
      i := i + 1;
      assert str[..i] == done + [Digit(rem)];
      num := num / base;
    }
  }

  /** What stands in the array before it is reversed. */
  lemma BackwardsText(n: nat, isNegative: bool, base: nat) returns (backwards: string)
    requires 2 <= base <= 36 && n > 0
    ensures |Produced(n, base)| == |Numeral(n, base)|
    ensures isNegative ==> backwards == Produced(n, base) + "-" && Reversed(backwards) == "-" + Numeral(n, base)
    ensures !isNegative ==> backwards == Produced(n, base) && Reversed(backwards) == Numeral(n, base)
    ensures |Reversed(backwards)| == |backwards|
  {
    ProducedNumeral(n, base);
    ReversedAt(Numeral(n, base));
    ReversedTwice(Numeral(n, base));
    ReversedSnoc(Produced(n, base), '-');
    backwards := if isNegative then Produced(n, base) + "-" else Produced(n, base);
    ReversedAt(backwards);
  }

  /** The part for a number other than zero (kernel/stdio.c:22-45). */
  method NonZeroToString(str: array<char>, num: nat, isNegative: bool, base: int)
    requires 2 <= base <= 36 && num > 0
    requires |Numeral(num, base)| + (if isNegative then 1 else 0) < str.Length
    modifies str
    ensures Holds(str, if isNegative then "-" + Numeral(num, base) else Numeral(num, base))
  {
    ghost var backwards := BackwardsText(num, isNegative, base);
    var i := WriteDigits(str, num, base);
    if isNegative {
      str[i] := '-';
      i := i + 1;
    }
    assert str[..i] == backwards;
    ReversePrefix(str, i);
    str[i] := '\0';
  }

  method NumberToString(str: array<char>, value: int, base: int)
    requires 2 <= base <= 36
    requires -0x8000_0000 < value < 0x8000_0000
    requires |Signed(value, base)| < str.Length
    modifies str
    ensures Holds(str, Signed(value, base)) && str[|Signed(value, base)|] == '\0'
  {
    var num := value;
    var i := 0;
    var isNegative := false;
    if num < 0 {
      isNegative := true;
      num := -num;
    }
    if num == 0 {
      str[i] := '0';
      i := i + 1;
      str[i] := '\0';
      return;
    }
    NonZeroToString(str, num, isNegative, base);
  }

  /** Copies a NUL-terminated string behind the first `j` characters. */
  method Append(str: array<char>, j: nat, source: seq<char>, ghost s: CString) returns (j': nat)
    requires s + "\0" <= source && j + |s| <= str.Length
    modifies str
    ensures j' == j + |s| && str[..j'] == old(str[..j]) + s
    ensures forall k | j' <= k < str.Length :: str[k] == old(str[k])
  {
    var k := 0;
    j' := j;
    assert forall i | 0 <= i < |s| :: source[i] == s[i] && s[i] in s;
    assert source[|s|] == '\0';
    while source[k] != '\0'
      invariant 0 <= k <= |s| && j' == j + k
      invariant str[..j'] == old(str[..j]) + s[..k]
      invariant forall i | j' <= i < str.Length :: str[i] == old(str[i])
      decreases |s| - k
    {
      str[j'] := source[k];
      j' := j' + 1;
      k := k + 1;
    }
    assert s[..k] == s;
  }

  /** The same, but no further than `limit`. */
  method AppendBelow(str: array<char>, j: nat, limit: nat, source: seq<char>, ghost s: CString) returns (j': nat)
    requires s + "\0" <= source && j <= limit && Min(j + |s|, limit) <= str.Length
    modifies str
    ensures j' == Min(j + |s|, limit) && str[..j'] == old(str[..j]) + s[..j' - j]
    ensures forall k | j' <= k < str.Length :: str[k] == old(str[k])
  {
    var k := 0;
    j' := j;
    assert forall i | 0 <= i < |s| :: source[i] == s[i] && s[i] in s;
    assert source[|s|] == '\0';
    while source[k] != '\0' && j' < limit
      invariant 0 <= k <= |s| && j' == j + k <= limit
      invariant str[..j'] == old(str[..j]) + s[..k]
      invariant forall i | j' <= i < str.Length :: str[i] == old(str[i])
      decreases |s| - k
    {
      str[j'] := source[k];
      j' := j' + 1;
      k := k + 1;
    }
  }

  /** Prints an int into a scratch array of 32 characters and copies it (kernel/stdio.c:66-75). */
  method AppendInt(str: array<char>, j: nat, num: Int32) returns (j': nat)
    requires num > -0x8000_0000 && j + |Signed(num, 10)| <= str.Length
    modifies str
    ensures j' == j + |Signed(num, 10)| && str[..j'] == old(str[..j]) + Signed(num, 10)
    ensures forall k | j' <= k < str.Length :: str[k] == old(str[k])
  {
    SignedLength(num);
    ghost var s := Signed(num, 10);
    var numStr := new char[32];
    NumberToString(numStr, num, 10);
    assert numStr[..] == s + "\0" + numStr[|s| + 1..];
    j' := Append(str, j, numStr[..], s);
  }

  method AppendIntBelow(str: array<char>, j: nat, limit: nat, num: Int32) returns (j': nat)
    requires num > -0x8000_0000 && j <= limit && Min(j + |Signed(num, 10)|, limit) <= str.Length
    modifies str
    ensures j' == Min(j + |Signed(num, 10)|, limit) && str[..j'] == old(str[..j]) + Signed(num, 10)[..j' - j]
    ensures forall k | j' <= k < str.Length :: str[k] == old(str[k])
  {
    SignedLength(num);
    ghost var s := Signed(num, 10);
    var numStr := new char[32];
    NumberToString(numStr, num, 10);
    assert numStr[..] == s + "\0" + numStr[|s| + 1..];
    j' := AppendBelow(str, j, limit, numStr[..], s);
  }

  /** What the directive `c` prints, taking at most the argument at `next`. */
  predicate Directs(c: char, args: seq<Arg>, next: nat) {
    && c != '\0'
    && (c == 'd' ==> next < |args| && args[next].IntArg? && args[next].n > -0x8000_0000)
    && (c == 's' ==> next < |args| && args[next].StrArg?)
  }

  function Piece(c: char, args: seq<Arg>, next: nat): string
    requires Directs(c, args, next)
  {
    if c == 'd' then Signed(args[next].n, 10) else if c == 's' then args[next].s else [c]
  }

  function NextArg(c: char, next: nat): nat {
    if c == 'd' || c == 's' then next + 1 else next
  }

  /** What is still to be formatted from position `i` and argument `next` on. */
  ghost predicate Pending(format: CString, i: nat, args: seq<Arg>, next: nat, rest: string) {
    && i <= |format| && next <= |args|
    && WellFormed(format[i..], args[next..]) && rest == Formatted(format[i..], args[next..])
  }

  lemma PendingStart(format: CString, args: seq<Arg>)
    requires WellFormed(format, args)
    ensures Pending(format, 0, args, 0, Formatted(format, args))
  {
    assert format[0..] == format && args[0..] == args;
  }

  lemma PendingEnd(format: CString, i: nat, args: seq<Arg>, next: nat, rest: string)
    requires Pending(format, i, args, next, rest) && i >= |format|
    ensures rest == ""
  {
  }

  /** What one turn of a format loop consumes and produces. */
  lemma FormatTurn(format: CString, i: nat, args: seq<Arg>, next: nat, rest: string)
    returns (piece: string, rest': string)
    requires i < |format| && Pending(format, i, args, next, rest)
    ensures rest == piece + rest'
    ensures format[i] != '%' ==> piece == [format[i]] && Pending(format, i + 1, args, next, rest')
    ensures format[i] == '%' ==>
              && i + 1 < |format| && Directs(format[i + 1], args, next)
              && piece == Piece(format[i + 1], args, next)
              && Pending(format, i + 2, args, NextArg(format[i + 1], next), rest')
  {
    var f, xs := format[i..], args[next..];
    assert f[1..] == format[i + 1..];
    if format[i] != '%' {
      piece, rest' := [f[0]], Formatted(f[1..], xs);
    } else {
      assert f[2..] == format[i + 2..];
      assert format[i + 1] in format;
      if f[1] == 'd' {
        assert xs[1..] == args[next + 1..];
        piece, rest' := Signed(xs[0].n, 10), Formatted(f[2..], xs[1..]);
      } else if f[1] == 's' {
        assert xs[1..] == args[next + 1..];
        piece, rest' := xs[0].s, Formatted(f[2..], xs[1..]);
      } else {
        piece, rest' := [f[1]], Formatted(f[2..], xs);
      }
    }
  }

  /** The switch of the unbounded printer (kernel/stdio.c:65-91). */
  method PutDirective(str: array<char>, j: nat, c: char, args: seq<Arg>, next: nat) returns (j': nat, next': nat)
    requires Directs(c, args, next) && j + |Piece(c, args, next)| <= str.Length
    modifies str
    ensures j' == j + |Piece(c, args, next)| && next' == NextArg(c, next)
    ensures str[..j'] == old(str[..j]) + Piece(c, args, next)
    ensures forall k | j' <= k < str.Length :: str[k] == old(str[k])
  {
    next' := next;
    match c {
      case 'd' =>
        j' := AppendInt(str, j, args[next].n);
        next' := next + 1;
      case 's' =>
        j' := Append(str, j, args[next].s + "\0", args[next].s);
        next' := next + 1;
      case '%' =>
        str[j] := '%';
        j' := j + 1;
      case _ =>
        str[j] := c;
        j' := j + 1;
    }
  }

  /** One turn of the unbounded loop (kernel/stdio.c:63-95). */
  method FormatOne(str: array<char>, format: CString, i: nat, args: seq<Arg>, next: nat, j: nat, ghost rest: string)
    returns (i': nat, next': nat, j': nat, ghost rest': string)
    requires i < |format| && Pending(format, i, args, next, rest) && j + |rest| <= str.Length
    modifies str
    ensures i < i' && Pending(format, i', args, next', rest')
    ensures j <= j' && j' + |rest'| == j + |rest| && str[..j'] + rest' == old(str[..j]) + rest
    ensures forall k | j' <= k < str.Length :: str[k] == old(str[k])
  {
    ghost var piece;
    piece, rest' := FormatTurn(format, i, args, next, rest);
    assert str[..j] + (piece + rest') == str[..j] + piece + rest';
    i', next' := i, next;
    if format[i'] == '%' {
      i' := i' + 1;
      j', next' := PutDirective(str, j, format[i'], args, next);
    } else {
      str[j] := format[i'];
      j' := j + 1;
    }
    i' := i' + 1;
    assert str[..j'] == old(str[..j]) + piece;
  }

  method VSPrintf(str: array<char>, format: CString, args: seq<Arg>) returns (j: nat)
    requires WellFormed(format, args)
    requires |Formatted(format, args)| < str.Length
    modifies str
    ensures j == |Formatted(format, args)|
    ensures Holds(str, Formatted(format, args)) && str[j] == '\0'
  {
    ghost var all := Formatted(format, args);
    ghost var rest := all;
    var i := 0;
    var next := 0;   // the next argument
    j := 0;
    PendingStart(format, args);
    while i < |format|
      invariant Pending(format, i, args, next, rest)
      invariant j + |rest| == |all| && all == str[..j] + rest
      invariant forall k | |all| <= k < str.Length :: str[k] == old(str[k])
      decreases |format| - i
    {
      i, next, j, rest := FormatOne(str, format, i, args, next, j, rest);
    }
    PendingEnd(format, i, args, next, rest);
    str[j] := '\0';
  }

  /** The switch of the bounded printer (kernel/stdio.c:121-147). */
  method PutDirectiveBelow(str: array<char>, j: nat, limit: nat, c: char, args: seq<Arg>, next: nat)
    returns (j': nat, next': nat)
    requires Directs(c, args, next) && j < limit && Min(j + |Piece(c, args, next)|, limit) <= str.Length
    modifies str
    ensures j' == Min(j + |Piece(c, args, next)|, limit) && next' == NextArg(c, next)
    ensures str[..j'] == old(str[..j]) + Piece(c, args, next)[..j' - j]
    ensures forall k | j' <= k < str.Length :: str[k] == old(str[k])
  {
    next' := next;
    match c {
      case 'd' =>
        j' := AppendIntBelow(str, j, limit, args[next].n);
        next' := next + 1;
      case 's' =>
        j' := AppendBelow(str, j, limit, args[next].s + "\0", args[next].s);
        next' := next + 1;
      case '%' =>
        str[j] := '%';
        j' := j + 1;
      case _ =>
        str[j] := c;
        j' := j + 1;
    }
  }

  /** Storing as much of the next piece as fits keeps what is stored a prefix of the whole. */
  lemma PrefixGrows(all: string, done: string, piece: string, rest: string, limit: nat)
    requires all == done + (piece + rest) && |done| < limit
    ensures var j' := Min(|done| + |piece|, limit);
            && j' <= Min(|all|, limit)
            && all[..j'] == done + piece[..j' - |done|]
            && (j' < limit ==> all == all[..j'] + rest)
  {
    var j' := Min(|done| + |piece|, limit);
    assert all[..j'] == done + piece[..j' - |done|];
    if j' < limit {
      assert all == done + piece + rest;
    }
  }

  /** One turn of the bounded loop (kernel/stdio.c:119-151); `rest` counts as long as nothing was cut. */
  method FormatOneBelow(str: array<char>, limit: nat, format: CString, i: nat, args: seq<Arg>, next: nat, j: nat,
                        ghost all: string, ghost rest: string)
    returns (i': nat, next': nat, j': nat, ghost rest': string)
    requires i < |format| && Pending(format, i, args, next, rest)
    requires j < limit && j <= |all| && str.Length >= Min(|all|, limit)
    requires str[..j] == all[..j] && all == all[..j] + rest
    modifies str
    ensures i < i' && j <= j' <= Min(|all|, limit) && str[..j'] == all[..j']
    ensures j' < limit ==> Pending(format, i', args, next', rest') && all == all[..j'] + rest'
    ensures forall k | j' <= k < str.Length :: str[k] == old(str[k])
  {
    ghost var piece;
    piece, rest' := FormatTurn(format, i, args, next, rest);
    PrefixGrows(all, all[..j], piece, rest', limit);
    i', next' := i, next;
    if format[i'] == '%' {
      i' := i' + 1;
      j', next' := PutDirectiveBelow(str, j, limit, format[i'], args, next);
    } else {
      str[j] := format[i'];
      j' := j + 1;
    }
    i' := i' + 1;
    assert str[..j'] == old(str[..j]) + piece[..j' - j];
  }

  method VSNPrintf(str: array<char>, size: nat, format: CString, args: seq<Arg>) returns (j: nat)
    requires WellFormed(format, args)
    requires size > 0 ==> Min(|Formatted(format, args)|, size - 1) < str.Length
    modifies str
    ensures size == 0 ==> j == 0 && str[..] == old(str[..])
    ensures size > 0 ==>
              && j == (if |Formatted(format, args)| < size then |Formatted(format, args)| else size - 1)
              && j < str.Length && str[..j] == Formatted(format, args)[..j] && str[j] == '\0'
              && forall k | j < k < str.Length :: str[k] == old(str[k])
  {
    if size == 0 {
      return 0;
    }
    ghost var all := Formatted(format, args);
    ghost var rest := all;
    var i := 0;
    var next := 0;
    j := 0;
    PendingStart(format, args);
    while i < |format| && j < size - 1
      invariant j <= Min(|all|, size - 1) && str[..j] == all[..j]
      invariant j < size - 1 ==> Pending(format, i, args, next, rest) && all == all[..j] + rest
      invariant forall k | Min(|all|, size - 1) <= k < str.Length :: str[k] == old(str[k])
      decreases |format| - i
    {
      i, next, j, rest := FormatOneBelow(str, size - 1, format, i, args, next, j, all, rest);
    }
    if j < size - 1 {
      PendingEnd(format, i, args, next, rest);
    }
    str[j] := '\0';
  }
}
