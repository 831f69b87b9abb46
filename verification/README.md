# ArcOS kernel: verified model

ArcOS is a small 32-bit kernel. This project models the parts of it that compute something and proves
what they compute: the first-fit heap, the drawing routines, the random-number generator, the text
screen, the command-line editor and the number printers. `dafny verify dfyconfig.toml` checks
everything.

Every routine that changes state is a method on a class or an array, in the loop structure of the C
code, proved against a specification function or a closed form. What the routine is for is then proved
about that specification.

| file | what it holds |
|---|---|
| `HeapModel.dfy`, `HeapRuns.dfy`, `Heap.dfy`, `Paging.dfy` | block sequences; whole runs; the in-place allocator; the allocations of `init_paging` |
| `LineModel.dfy`, `CircleModel.dfy`, `Graphics.dfy` | closed forms of lines and circles; the drawing loops on a clipped framebuffer |
| `Random.dfy` | the generator and its periods |
| `Digits.dfy`, `Formatting.dfy`, `Stdio.dfy`, `Conversion.dfy` | numerals; format strings and parsing; `vsprintf`, `vsnprintf`; `atoi`, `itoa` |
| `ScreenModel.dfy`, `TextScreen.dfy` | the screen as row and column and as one position; the terminal and the boot-time printer |
| `KeyboardModel.dfy`, `CommandLine.dfy` | scancodes, modifier flags, a two-string editor, whole sessions; the editor in a character buffer, `keyboard_getline` |
| `Arithmetic.dfy` | facts about multiplication and division |

## How the model reads the code

- **Heap.** Headers sit in an array indexed by pool offset and are linked by offset; a header takes 12
  bytes (`-m32`). Since blocks tile the pool, the sequence of sizes and used flags determines every
  address. Pointers are pool offsets. The rounding `(size + 7) & ~7` wraps as in 32-bit arithmetic, so
  every 32-bit request is covered.
- **Drawing.** Coordinates are 16-bit; arguments such as `x - radius` wrap when converted, as in C, and
  are then clipped. A drawing routine is specified by the set of points it paints, each cell outside
  the set being unchanged.
- **Lines** are specified by rounding to the nearest pixel, ties towards the starting point.
  **Circles** are specified by a condition on offsets: the longer coordinate is the integer nearest to
  the true circle at the shorter one.
- **Strings.** A C string is a `string` without NUL; a printer's output array holds it with a NUL
  behind, and nothing after the NUL changes.
- **Screen.** A cell is a 16-bit word. `char` is signed, so a character from 128 on is sign-extended
  over the colour.
- **Keyboard.** A scancode is the step input of a state machine; waiting for hardware is not modelled.

## Where the code and its promise differ

Each of these is proved, with the exact condition where there is one.

- Freeing does not always coalesce: the merge pass steps over the block it just made. It leaves no free
  neighbours exactly when marking the block free does not make three free blocks stand in a row
  (`HeapModel.DeallocateCoalesces`). Over all runs at most one free pair exists, and one does occur
  (`HeapRuns.ReachableHeap`, `HeapRuns.FreePairReached`).
- A request above 2^32 - 8 is rounded to zero bytes (`HeapModel.RoundUp8Covers`) and served whenever some
  block is free (`HeapRuns.HugeServedIff`), on a fresh pool with an empty payload (`HeapRuns.HugeServed`).
  In every reachable heap a payload covers its request exactly when the request is at most 2^32 - 8
  (`HeapRuns.ServedCovers`).
- Freeing what was just allocated restores the heap exactly when there was no free pair, or the split
  block was its left half (`HeapRuns.AllocateThenFree`). It can fail: after a run that leaves free blocks
  of 28 and 8 bytes, one of 8 in use and the rest of the pool free, a request for 40 bytes is served
  from the rest, and its free joins the first two blocks (`HeapRuns.FreeDoesNotUndo`).
- `init_paging` can never succeed: it asks for more than the pool holds (`Paging.InitPaging`).
- The editor's insertion guard tests the cursor, not the length: with a full buffer the terminator is
  pushed out. It stays exactly when the length is at most the size minus 2
  (`CommandLine.InsertionTerminated`). It can be lost: in a buffer of any size from 2 on, once the line is
  full and the cursor has stepped left, the next character pushes it out (`KeyboardModel.NoRoomReached`).
- Backspace removes a character from the line but prints a glyph on the screen, so the screen cursor
  moves away from the line cursor by two places each time (`KeyboardModel.CursorTracks`); a character
  typed and erased again shows it (`KeyboardModel.DriftReached`).
- A glyph keeps its colour exactly when the character is below 128 or the colour is all ones
  (`ScreenModel.GlyphKeepsColor`).
- `vsnprintf` returns the number of characters it stored, not the number it would have stored as
  section 7.21.6.5 of ISO/IEC 9899:2011 asks (`Stdio.VSNPrintf`).

## Model

| member | source | states |
|---|---|---|
| HeapModel.RoundUp8Covers | kernel/memory.c:30-31 | the rounded size covers the request if and only if the request is at most 2^32 - 8; it then exceeds it by less than 8; above, it is zero |
| HeapModel.LiveRange | kernel/memory.c:37-48 | every live payload lies inside the pool's blocks, behind its header |
| HeapModel.LiveApart | kernel/memory.c:37-48 | between two live payloads there is at least a header: they never overlap |
| HeapModel.FirstFitFails | kernel/memory.c:33-53 | NULL is answered if and only if no free block is large enough, and then nothing changes |
| HeapModel.FirstFitSplit | kernel/memory.c:33-51 | a served request takes the first block that fits, splits it if and only if a header and 8 bytes or more remain, and touches no other block |
| HeapModel.FirstFitBig | kernel/memory.c:36-45 | if every block holds 8 bytes and at least 8 are asked for, every block holds 8 bytes afterwards |
| HeapModel.FirstFitLive | kernel/memory.c:35-48 | exactly one live payload is added, new, at least the rounded request and at most 16 bytes more; all others stay; the byte total is unchanged |
| HeapModel.FirstFitPairs | kernel/memory.c:35-48 | an allocation never adds a pair of free neighbours |
| HeapModel.MergeHalvesPairs | kernel/memory.c:64-71 | a merge pass at least halves the number of free pairs |
| HeapModel.MergeCoalesces | kernel/memory.c:63-71 | the pass leaves no free neighbours if and only if no three blocks in a row were free |
| HeapModel.DeallocateCoalesces | kernel/memory.c:57-72 | a free leaves no free neighbours if and only if marking the block free does not put three free blocks in a row |
| HeapModel.MergeRun | kernel/memory.c:63-71 | a maximal run of k free blocks becomes ceil(k/2) free blocks over the same bytes at the same place, whatever surrounds it |
| HeapModel.MergeKeepsLive | kernel/memory.c:63-71 | the pass moves no live payload and covers the same bytes |
| HeapModel.MergeGains | kernel/memory.c:66-68 | free space grows by one header for each merge |
| HeapModel.ReleasePairs | kernel/memory.c:60-61 | marking one block free creates at most two free pairs |
| HeapModel.DeallocateLive | kernel/memory.c:57-72 | a free removes exactly its own payload from the live ones and turns it and one header per merge into free space |
| HeapModel.FreedIsServed | kernel/memory.c:27-72 | after a free, every request whose rounded size is at most that of the freed payload is served |
| HeapModel.FreeUndoesFirstFit | kernel/memory.c:35-71 | freeing what was just allocated restores the block list if and only if there was no free pair or the split block was its left half |
| HeapRuns.StepInvariant | kernel/memory.c:27-72 | every legal call keeps the heap invariant |
| HeapRuns.ReachableHeap | kernel/memory.c:18-72 | over every legal run from a fresh pool: blocks tile the pool, everything is 4-aligned, live payloads are inside the pool, apart, and within 16 bytes of their rounded requests; at most one free pair, no three free blocks in a row, at most two more free than used blocks |
| HeapRuns.BlocksHoldEight | kernel/memory.c:18-72 | over every run whose requests do not wrap, no block, used or free, is ever smaller than 8 bytes; with the 16 bytes of `ReachableHeap` this fixes when a block is split |
| HeapRuns.ServedCovers | kernel/memory.c:27-54 | in every reachable heap, the payload handed out is at least as large as the request if and only if the request is at most 2^32 - 8 |
| HeapRuns.HugeServedIff | kernel/memory.c:30-53 | a request above 2^32 - 8 is served if and only if some block is free |
| HeapRuns.HugeServed | kernel/memory.c:18-54 | on a fresh pool the largest 32-bit request is served with an empty payload |
| HeapRuns.PayloadStays | kernel/memory.c:27-72 | a live payload keeps its place and size through every legal run that does not free it |
| HeapRuns.FreePairReached | kernel/memory.c:63-71 | some legal run does leave two free neighbours |
| HeapRuns.AllocateThenFree | kernel/memory.c:27-72 | in every reachable heap, the condition under which a free undoes the allocation before it |
| HeapRuns.FreeDoesNotUndo | kernel/memory.c:27-72 | a legal run from a fresh pool after which serving 40 bytes and freeing them does not restore the heap |
| HeapRuns.TailServes | kernel/memory.c:27-54 | with only the last block free, a series of requests is served if and only if its rounded sizes and headers fit there |
| HeapRuns.FreshServes | kernel/memory.c:18-54 | a fresh pool serves a series of requests if and only if their rounded sizes plus 12 bytes each come to at most 4194304 |
| Heap.KernelHeap.constructor | kernel/memory.c:14-15 | before initialisation the list is empty |
| Heap.KernelHeap.MemoryInit | kernel/memory.c:18-24 | one free block covers the pool |
| Heap.KernelHeap.Take | kernel/memory.c:36-47 | in place, the block is split if and only if 20 bytes more than asked for are there, and marked used |
| Heap.KernelHeap.KMalloc | kernel/memory.c:27-54 | the list in the pool and the pointer returned are those of first fit, for every 32-bit request; NULL and no change for a request of 0; no block below 8 bytes comes about |
| Heap.KernelHeap.ClearUsed | kernel/memory.c:60-61 | exactly one block becomes free |
| Heap.KernelHeap.JoinWithNext | kernel/memory.c:66-69 | two free neighbours become one block over both |
| Heap.KernelHeap.KFree | kernel/memory.c:57-72 | the list becomes the merge pass of the list with the block marked free; NULL does nothing |
| Heap.RunAll | kernel/memory.c:18-72 | over every legal run of calls from initialisation on, the list in the pool is the heap of the run; its live payloads are apart, at most one pair of neighbours is free, and no block is below 8 bytes unless a request wrapped |
| Paging.InitPaging | kernel/kernel.c:371-391 | fails from every heap; from a fresh pool it hands out the directory and 1020 tables at known addresses, fails on the next, and frees the directory only |
| LineModel.NearestIff | kernel/graphics.c:92-110 | rounding to nearest, ties downwards, as a two-sided bound that determines the result |
| LineModel.ErrorDecides | kernel/graphics.c:101-109 | the error term always allows a step along the longer axis, and one along the shorter exactly when the rounded ordinate grows |
| LineModel.LineTurns | kernel/graphics.c:91-111 | the loop's turns are the line's points in order, inside the box of the end points, meeting the far end only at the last turn; the error term is at most twice the length in size, so it fits an int |
| LineModel.LineEnds | kernel/graphics.c:98-100 | the line starts and ends at its end points |
| LineModel.LineConnected | kernel/graphics.c:101-109 | all points differ, and each is a king's move from the one before |
| LineModel.LineAccurate | kernel/graphics.c:92-110 | every point is within half a pixel of the true line |
| LineModel.LineSetAxis | kernel/graphics.c:91-111 | a horizontal or vertical line is the plain segment, from either end |
| LineModel.FourLines | kernel/graphics.c:114-119 | four lines between the corners are exactly the outline of the box |
| CircleModel.CircleStep | kernel/graphics.c:143-151 | a turn keeps the decision variable equal to (x+1)^2 + y^2 - y - r^2 and the point nearest to the circle |
| CircleModel.CircleTurns | kernel/graphics.c:132-161 | the loop ends, and by then has plotted exactly the offsets that satisfy the rounding condition; the decision variable stays between -2r and 2r + 3, so it fits an int |
| CircleModel.InCircle | kernel/graphics.c:131-162 | an offset is on the circle if and only if its longer coordinate is the rounded one for its shorter |
| CircleModel.CircleSymmetric | kernel/graphics.c:153-160 | the offsets are closed under all eight reflections |
| CircleModel.CircleAccurate | kernel/graphics.c:131-162 | the squared distance is off by at most the longer coordinate; the outline keeps strictly between radius r - 1 and r + 1 |
| CircleModel.CircleConnected | kernel/graphics.c:138-161 | the outline has no gaps: from the top a walk of king's moves takes every column up to the diagonal and ends at most a king's move from its mirror image, and the circle is exactly the reflections of the walk |
| Graphics.PaintAt | kernel/graphics.c:85-88 | what a painted framebuffer shows at each cell of the screen |
| Graphics.U16Wraps | kernel/graphics.c:138-141 | what converting a coordinate to 16 bits does: a negative one ends 2^16 higher |
| Graphics.AroundOnScreen | kernel/graphics.c:153-160 | on the screen, offsets around a centre show up where they belong and nowhere else, as long as screen and centre keep the largest offset away from 2^16 |
| Graphics.Screen.PutPixel | kernel/graphics.c:85-88 | one cell changes if the point is on the screen, none otherwise |
| Graphics.Screen.DrawLine | kernel/graphics.c:91-111 | for all 16-bit end points the loop ends, having painted exactly the rounded line |
| Graphics.Screen.DrawRect | kernel/graphics.c:114-119 | exactly the outline between the corners is painted, for all 16-bit arguments, corners taken modulo 2^16; for a rectangle with no side 0 that ends below 2^16 these are its outermost pixels |
| Graphics.Screen.FillRect | kernel/graphics.c:122-128 | exactly the box is painted: every screen cell in it shows the colour, every other is unchanged |
| Graphics.Screen.DrawCircle | kernel/graphics.c:131-162 | for every radius, exactly the circle around the centre is painted; a screen cell shows the colour if and only if its offset from the centre is on the circle, if no offset reaches 2^16 |
| Graphics.Screen.FillCircle | kernel/graphics.c:165-173 | exactly the offsets within the radius are painted; a screen cell shows the colour if and only if its squared distance is at most that of the radius, if no offset reaches 2^16 |
| Random.Generator.Rand | kernel/stdlib.c:77-80 | the seed becomes 1103515245 times itself plus 12345 modulo 2^32, and bits 16 to 30 of it are returned, at most 0x7fff |
| Random.OutputBits | kernel/stdlib.c:79 | the number returned is the quotient of the seed modulo 2^31 by 2^16 |
| Random.Generator.SRand | kernel/stdlib.c:82-84 | the seed is set |
| Random.AffineShape | kernel/stdlib.c:78 | 2^k steps are an affine map whose factor is 1 modulo 2^(k+2) and whose offset is an odd multiple of 2^k |
| Random.JumpAdds | kernel/stdlib.c:78 | 2^k steps add 2^k modulo 2^(k+1), for k below 32 |
| Random.FullPeriod | kernel/stdlib.c:75-80 | from every seed, n steps come back if and only if 2^32 divides n |
| Random.EverySeedOnce | kernel/stdlib.c:75-80 | within 2^32 steps from any seed every 32-bit value is met exactly once |
| Random.OutputPeriod | kernel/stdlib.c:77-80 | from every seed, the numbers returned repeat after d steps if and only if 2^31 divides d |
| Digits.DigitTable | kernel/stdio.c:25 | the 36 digits in order |
| Digits.NumeralMeans | kernel/stdio.c:22-27 | a numeral has the number as its positional value, only digits of its base, and no leading zero |
| Digits.NumeralUnique | kernel/stdio.c:22-27 | it is the only such string |
| Digits.ProducedNumeral | kernel/stdio.c:23-43 | digits produced from the last one on are the numeral backwards |
| Formatting.FormattedText | kernel/stdio.c:92-94 | a format without '%' stands for itself |
| Formatting.FormattedDirective | kernel/stdio.c:66-90 | "%d" prints the number, "%s" the string, and '%' with any other character that character |
| Formatting.FormattedConcat | kernel/stdio.c:62-96 | two formats one after the other print what each prints with its own arguments; with the two rows above this fixes every format |
| Formatting.ParseMeans | kernel/stdlib.c:40-64 | for every string: blanks, at most one sign, digits, the rest; the value is that of the digits, negated after '-' |
| Formatting.ParsePrinted | kernel/stdlib.c:40-64 | the parser gives back every printed number, after any blanks and before anything but a digit |
| Formatting.PrintParse | kernel/stdio.c:66-75 | printing with "%d" and parsing is the identity on every int above -2^31, without overflow |
| Stdio.ReversePrefix | kernel/stdio.c:35-43 | the first n characters are reversed in place, the others kept |
| Stdio.WriteDigits | kernel/stdio.c:23-27 | the digits are stored last one first |
| Stdio.NumberToString | kernel/stdio.c:5-46 | the array holds the signed numeral, for every base from 2 to 36 and every int above -2^31 |
| Stdio.VSPrintf | kernel/stdio.c:58-100 | for every well-formed format the array holds the formatted string and its length is returned |
| Stdio.VSNPrintf | kernel/stdio.c:112-156 | for every well-formed format the array holds the first min(L, size - 1) characters of the formatted string and that count is returned; size 0 writes nothing |
| Conversion.DigitsSoFar | kernel/stdlib.c:58-61 | no intermediate value of the parser exceeds the final one |
| Conversion.Atoi | kernel/stdlib.c:40-64 | the value of the digits after blanks and one sign, whenever its magnitude is at most 2^31 - 1 |
| Conversion.Itoa | kernel/kernel.c:410-426 | for bases 2 to 16 and every non-negative int, the same numeral `number_to_string` produces |
| ScreenModel.GlyphKeepsColor | kernel/terminal.c:74 | the low byte shows the character; the colour survives if and only if the character is below 128 or the colour is all ones |
| ScreenModel.GlyphMeans | kernel/terminal.c:74 | the low byte of a cell is the character's code, the high byte the colour below 128 and all ones from there on |
| ScreenModel.PutMeans | kernel/terminal.c:64-83 | a newline goes to the start of the next row, any other character into the cursor's cell and one place on, from the end of the screen to its start |
| ScreenModel.PutAgrees | kernel/kernel.c:106-114 | one character has the same effect on both printers |
| ScreenModel.PrintersAgree | kernel/kernel.c:102-116 | `early_print` and the terminal leave the same screen and the same position, for every string |
| ScreenModel.PlainText | kernel/terminal.c:64-90 | a line without newlines is shown cell by cell from the cursor on, around the end of the screen, and no other cell changes |
| ScreenModel.CursorMoves | kernel/terminal.c:140-162 | the cursor keys move the position by one, stop in the corners and change no cell |
| TextScreen.TerminalDevice.constructor | kernel/terminal.c:28-34 | a cleared screen in light grey |
| TextScreen.TerminalDevice.Clear | kernel/terminal.c:37-47 | every cell blank, cursor in the first |
| TextScreen.TerminalDevice.PutChar | kernel/terminal.c:64-83 | the terminal makes the specification's step |
| TextScreen.TerminalDevice.WriteString | kernel/terminal.c:86-90 | the whole string is written |
| TextScreen.TerminalDevice.WriteDec | kernel/terminal.c:93-109 | the decimal numeral of every 32-bit number is written |
| TextScreen.TerminalDevice.MoveCursorLeft | kernel/terminal.c:140-150 | as the specification's step to the left |
| TextScreen.TerminalDevice.MoveCursorRight | kernel/terminal.c:152-162 | as the specification's step to the right |
| TextScreen.TerminalDevice.DeleteChar | kernel/terminal.c:172-184 | the cursor's cell goes, the rest of its row moves up, the last cell is blank |
| TextScreen.EarlyPrinter.Print | kernel/kernel.c:102-116 | the boot-time printer makes the specification's steps |
| KeyboardModel.LetterKeys | kernel/keyboard.c:30-56 | the letter keys row by row; shift and caps lock both give capitals |
| KeyboardModel.DigitKeys | kernel/keyboard.c:30-56 | the digit row, plain and shifted |
| KeyboardModel.PunctuationKeys | kernel/keyboard.c:30-56 | the punctuation keys, plain and shifted |
| KeyboardModel.PlainKeys | kernel/keyboard.c:30-56 | Backspace, Tab, Enter, star and space, whatever the modifiers |
| KeyboardModel.SilentKeys | kernel/keyboard.c:30-56 | every other scancode gives no character |
| KeyboardModel.CommandKeys | kernel/keyboard.c:169-236 | which scancodes are arrows, Home, End, Delete, Backspace and Enter; Up, Down, Escape and all releases do nothing to the line |
| KeyboardModel.FlagsMean | kernel/keyboard.c:105-139 | after any history, shift, control and alt are on if and only if their last event was a press, caps lock if and only if pressed an odd number of times |
| KeyboardModel.StaysInBuffer | kernel/keyboard.c:164-238 | over every run whose insertions find room, the text and its terminator fit the buffer |
| KeyboardModel.EditFits | kernel/keyboard.c:169-237 | each key keeps the text free of NUL and within the buffer |
| KeyboardModel.CursorKeysKeepText | kernel/keyboard.c:171-197 | any run of cursor keys, modifiers and releases keeps the text |
| KeyboardModel.TypingInserts | kernel/keyboard.c:228-236 | a run of character keys puts its characters in front of the cursor in order, as long as there is room, and changes no flag |
| KeyboardModel.EraseUndoesTyping | kernel/keyboard.c:214-236 | as many Backspaces take back any run of character keys, whatever is pressed next |
| KeyboardModel.DeletesEraseAhead | kernel/keyboard.c:178-223 | n Deletes do what n steps right and n Backspaces do, whatever is pressed next |
| KeyboardModel.HomeIsSteps | kernel/keyboard.c:171-190 | Home does what as many steps left as there are characters do: the whole text is right of the cursor |
| KeyboardModel.EndIsSteps | kernel/keyboard.c:178-197 | End does what as many steps right as there are characters do: the whole text is left of the cursor |
| KeyboardModel.EnterCuts | kernel/keyboard.c:224-236 | after a run of character keys and k steps left, Enter leaves exactly the characters in front of the cursor |
| KeyboardModel.NoRoomReached | kernel/keyboard.c:228-235 | for every size from 2 on, a roomy run from an empty line after which the next insertion finds no room |
| KeyboardModel.SessionParts | kernel/keyboard.c:164-238 | over every run, the line is that of the two-string editor and the flags are the fold of the history |
| KeyboardModel.EchoShows | kernel/keyboard.c:169-236 | which cells each key changes and to what: the character or the Backspace glyph in the cursor's cell, the row behind it for Delete, none for the others; Enter goes to the next row |
| KeyboardModel.EchoMoves | kernel/keyboard.c:169-236 | a key moves the screen cursor as it moves the line cursor, except Backspace, which parts them by two |
| KeyboardModel.CursorTracks | kernel/keyboard.c:164-238 | over every run without Enter that keeps the line on the screen and presses no Backspace in the last cell, screen position minus line position grows by two per character erased and not otherwise |
| KeyboardModel.DriftReached | kernel/keyboard.c:214-236 | from an empty line anywhere but in the last two cells, one character typed and erased is a run inside the screen that parts the cursors by two |
| KeyboardModel.ReadLineMeans | kernel/keyboard.c:250-272 | reading stops at the first newline or as soon as the line is full, with what was typed until then; it goes on for ever exactly when neither comes |
| KeyboardModel.PolledIsPlain | kernel/keyboard.c:147-162 | the polling reader sees what the driver sees with no modifier held |
| KeyboardModel.ReadMeans | kernel/keyboard.c:254-267 | what each scancode does: no character is skipped, a character added, Backspace takes one back if there is one, a newline ends the line |
| KeyboardModel.TypedIsKept | kernel/keyboard.c:254-267 | what typing from the front builds is what matching Backspaces from the end keeps |
| KeyboardModel.ReadLineEnds | kernel/keyboard.c:250-272 | a fresh line ends behind a newline or when full, with the characters no Backspace took; it holds no NUL, newline or Backspace |
| KeyboardModel.TypedThenErased | kernel/keyboard.c:254-267 | any run of characters taken back by as many Backspaces changes only how many scancodes are read, as long as the line does not fill up |
| CommandLine.InsertionTerminated | kernel/keyboard.c:228-235 | an insertion keeps a terminator in the buffer if and only if the length was at most the size minus 2 |
| CommandLine.InsertedLine | kernel/keyboard.c:228-235 | shifting up and storing puts the character between the halves of the line |
| CommandLine.RemovedLine | kernel/keyboard.c:200-206 | shifting down removes the first character right of the cursor |
| CommandLine.Keyboard.GetAscii | kernel/keyboard.c:47-56 | the plain or the shifted table, NUL beyond |
| CommandLine.Keyboard.ProcessScancode | kernel/keyboard.c:105-145 | the flags make their step; a character comes out exactly for keys other than the special ones that mean something to the line |
| CommandLine.Editor.PressLeft | kernel/keyboard.c:171-176 | line and screen make the step of the key |
| CommandLine.Editor.PressRight | kernel/keyboard.c:178-183 | line and screen make the step of the key |
| CommandLine.Editor.PressHome | kernel/keyboard.c:185-190 | line and screen make the step of the key |
| CommandLine.Editor.PressEnd | kernel/keyboard.c:192-197 | line and screen make the step of the key |
| CommandLine.Editor.PressDelete | kernel/keyboard.c:199-207 | line and screen make the step of the key |
| CommandLine.Editor.PressErase | kernel/keyboard.c:214-223 | line and screen make the step of the key |
| CommandLine.Editor.PressEnter | kernel/keyboard.c:224-227 | line and screen make the step of the key: the text ends at the cursor, what is in front of it stays |
| CommandLine.Editor.PressInsert | kernel/keyboard.c:228-236 | with room, the step of the key; without, the text is shifted over the terminator |
| CommandLine.Editor.Update | kernel/keyboard.c:164-238 | every scancode makes one step of the session: flags, two-string line and screen together; without room for an insertion, flags and screen still make it and the text is shifted over the terminator |
| CommandLine.Editor.UpdateAll | kernel/keyboard.c:241-247 | one call per interrupt: over every run whose insertions find room, buffer, flags and screen go through the session |
| CommandLine.GetLine | kernel/keyboard.c:250-272 | the buffer holds the line that reading ends with, NUL behind it and none in it, for every input that ends the loop: the characters no Backspace took, up to a newline or to one less than the size |

## Left out

- Boot code, interrupt and port set-up, disk, mouse, network, filesystem, installer, desktop and menu tools: hardware access, stubs and user interface.
- The hardware cursor (`update_cursor`) and waiting for keys: no effect on the modelled state.
- What `init_paging` stores in its pages, and the `detect_memory` walk: only the sequence of allocations is modelled.
- Freeing a pointer that is not live: undefined in the code, so a precondition.
- `kernel/string.c`, `lib/string.c` and the bump allocator in `kernel/stdlib.c`: routine loops.
- `terminal_set_color`: a plain assignment; every theorem about the terminal holds for any colour.
- `sprintf` and `snprintf`: wrappers that collect arguments for the two printers modelled.
- HeapRuns.FreshServes: requests of zero bytes and above 2^32 - 8 are not in the series, because the first are never served and the second are served without using up what their size says.
- Graphics.Screen.FillRect: `y + height` and `x + width` stay below 2^16; beyond that the C loops never end.
- Graphics.Screen.FillCircle: the radius stays below 2^15; beyond that the sum of squares overflows an int.
- Stdio.NumberToString: the least int is excluded, because negating it overflows.
- Stdio.VSPrintf: a lone '%' at the end of the format reads past its terminator, so formats are well-formed; the output array is large enough.
- Conversion.Atoi: magnitudes above 2^31 - 1 are excluded, -2^31 among them, because the C code builds the magnitude in an int before it applies the sign.
- Conversion.Itoa: negative values are excluded, because they index the digit table out of bounds.
- CommandLine.Editor.Update: what later keys do to a line that lost its terminator is not modelled, because the C code then reads outside the buffer.
