# A verified model of the teaching kernel

The kernel multiplexes three text terminals over one screen, reads files from a
read-only image whose blocks lie in any order on disk, gives every process eight
file descriptors, and runs at most six processes. This project models those parts,
the user programs that lean on them hardest (`cat`, `ls`, `grep`, the blinking
characters of `fish`, and the hosted command runner), and proves what they are for.

Code that changes state is modelled as classes and methods over arrays and objects,
with the loops of the C and assembly code. Each such method is proved against a
function of the old state, and the theorems about whole runs are lemmas about those
functions.

| file | contents |
|---|---|
| `Prelude.dfy`, `Bytes.dfy`, `Memory.dfy` | shared notions, bytes, C strings, block moves |
| `Screen.dfy` | one private screen, and an unbounded scroll that it is a window onto |
| `Multiplexer.dfy` | keyboard tables; three idealised private terminals |
| `Console.dfy` | the console in physical memory: one screen, three backing pages, one cursor |
| `Image.dfy`, `Disk.dfy`, `FileSystem.dfy` | the disk image, how one is written, and the code that gathers bytes from it |
| `Descriptors.dfy`, `Kernel.dfy` | the descriptor table as a value, and the system calls on it |
| `Programs.dfy` | `cat` and `ls` on the system calls |
| `Lines.dfy`, `Cuts.dfy`, `Shifts.dfy` | lines, and what the buffer of `grep` makes of them |
| `Grep.dfy`, `Search.dfy` | `grep` on one file, and the whole program |
| `ProcessQueue.dfy`, `Processes.dfy` | the ring of runnable processes, `execute` and `halt` |
| `Blink.dfy` | the linked list of blinking characters and its pool |
| `Numbers.dfy` | `itoa`, `strrev` and the numeric conversions of `printf` |
| `Emulate.dfy` | the hosted tokeniser and argument joiner |

## Main results

1. **Isolation.** Whatever the other terminals write and however often the pages are
   swapped, each terminal's screen and cursor are the fold of its own operations
   (`Multiplexer.Isolation`), deleting the others' writes changes nothing for it
   (`Multiplexer.Noninterference`), and it shows the last 25 rows of an unbounded
   scroll of its own output (`Multiplexer.WindowOntoOwnOutput`). The in-place console
   refines that machine call by call: `Valid` ties the memory to the machine, every
   entry point states its step, and `Console.Console.Feed` takes any sequence of events
   through them and reads the theorem back off the memory. What each scancode does is
   accounted for by an independent rule of the keyboard (`Multiplexer.KeyAccount`), and
   what a read delivers was typed since the read before (`Multiplexer.ReadsAreFresh`).
2. **Files.** The files read from an image are those written to it, for any placement of
   their blocks (`Disk.WrittenReadsBack`). `read_data` returns exactly the requested slice of the inode's blocks,
   also in the round that copies nothing. Over any interleaving of calls a descriptor's
   bytes are a prefix of its file (`Descriptors.StreamsArePrefixes`); `cat` copies the
   whole file; `grep` prints, up to their first NUL byte, the pieces of at most 1024
   bytes in which the pattern is found. These are the matching lines if and only if no
   matching line is longer or holds a NUL byte (`Lines.ReportedExactly`), and the exact
   condition is known for every byte that the stack may have left after the buffer
   (`Cuts.ScannedExactly`). This holds of every file of the directory, executables
   included, except where a partial line with a NUL byte is shifted; there it is proved
   that the program ends, keeps its descriptors and only adds output
   (`Search.SearchDirectory`, `Search.WalkIsExact`).
3. **Processes.** In every state reached from boot by `execute` and `halt` the ring
   holds the processes n..1 and its front is the PCB that the count designates
   (`Processes.CurrentProcess`), although a full ring has the indices of an empty one.
   Processes are conserved (`Processes.ProcessesConserved`), and a failed call changes nothing.
4. **Blinking.** The list is acyclic and its nodes are the used pool slots; across any
   adds, removes and ticks, a blinker's cell shows its on character exactly in the first
   part of each period (`Blink.BlinksOnSchedule`), for all 16-bit lengths.
5. **Numbers and words.** Printed numerals are the only canonical ones that read back
   as the value; argument lists survive joining and tokenising exactly when every
   argument is a word.

## What the code does against its documentation

The model follows the code. A departure that depends on the input or the state comes with its
exact condition, and with an example wherever the condition can fail.

- `init_fd` receives its process control block by value (`student-distrib/syscalls.c:706`),
  so the slots 2 to 7 of a new process keep whatever the kernel stack held.
  `Descriptors.SeventhOpenFails` says when the expectation of `syscalls/ece391syserr.c:100`
  is met all the same; `Descriptors.StaleSlotExample` is a table on which it is not.
- Releasing alt clears the control flag and leaves alt set (`student-distrib/keyboard.c:103`),
  releasing one of two control or shift keys clears the flag of both, and the prefix byte of
  the right keys goes unnoticed. `Multiplexer.AgreementKept` says exactly
  which scancodes the flags misread, `Multiplexer.AltSticks` and `Multiplexer.FunctionKeysSwitch`
  what follows; the examples are `Multiplexer.SwitchWithoutAltExample` and `ShiftLostExample`.
- `term_read` empties the pending lines of all three terminals, and reports 0 for a line
  that does not fit: `Multiplexer.ReadDisturbsOthers`, `LostLineExample`,
  `Multiplexer.ReadCountExactly`, `UnreportedLineExample`.
- `term_read` delivers the displayed terminal's line to whichever program reads:
  `Multiplexer.ReaderGetsDisplayedLine`, `WrongReaderExample`.
- A finished line of 128 bytes is forgotten at the next scancode, be it the release of
  Enter, and stays marked as ready: `Multiplexer.FinishedLineSurvives`, `ForgottenLineExample`.
- A backspace does not take back a key that filled the row, nor one that was ignored because
  127 bytes are buffered, when it removes an earlier byte instead:
  `Multiplexer.BackspaceUndoesKey`, `LostByteExample`.
- `close` inspects the slot before it checks the range of the descriptor. The model lets
  that inspection yield anything and proves that the reply does not depend on it.
- `pq_rotate` increments the rear index without wrapping it. `ProcessQueue.ProcessQueue.Rotate`
  is the literal body, under the precondition that the rear index is not the last, and
  `ProcessQueue.RotationsAsWritten` says for how long it works: five rotations in every state
  reached from boot (`Processes.RotationsFromBoot`, `SixthRotationExample`).
  `ProcessQueue.ProcessQueue.RotateWrapped` and the theorems on any number of rotations are
  about the version with the wrap. (`student-distrib/bug_log.txt:23` records a page fault
  after repeated switches, and suspects writes to the wrong kernel stack.)
- An enqueue on a full ring is not refused; the ring then holds the new process alone.
- A blinker added at location 0 takes a slot that still counts as free, so the allocator
  hands it out again, the next blinker is linked to itself, and the tasklet never ends;
  `Blink.BlinkList.Add` keeps the list valid exactly when the location is not 0
  (`Blink.ZeroLocationExample`, `Blink.SelfLoopIsEndless`).
- A blink length of 0, or above 32768, lasts one tick, because the countdown is compared
  as a signed number: `Blink.Duration`, `Blink.OnSchedule`, `Blink.ShortLengthExample`.
- `ece391_getargs` writes one byte beyond the offered ones exactly when some of the first
  arguments fill them: `Emulate.Getargs`, `Emulate.FilledExample`.
- `grep` reports a matching line as it stands only if it does not exceed 1024 bytes
  (`Cuts.LongLineExample`) and holds no NUL byte, at which its output ends
  (`Lines.ReportedExactly`, `Shifts.NulLineExample`); the empty pattern is found at NUL bytes.
- `grep` shifts a partial line by a string copy, which ends at the first NUL byte, while the
  length counts all of it: what follows is then whatever the buffer held
  (`Shifts.ShiftedExactly`, `Shifts.ShiftedExample`).
- The buffer of `grep` is never initialised: a newline left in the byte after it makes the first
  full buffer that ends in a partial line report that part as a line, so that the report
  is right exactly if that line does not match or the cut is at its end
  (`Cuts.ScannedExactly`, `Cuts.CutLineExample`).
- File names are compared by their lengths modulo 256 first, so a longer name can be taken
  for a stored one: `Image.CutAgrees` says when, `Image.LongDotExample` is such a name. A match
  then copies the long name over whatever follows the field for it, which is not modelled.

## Model

| member | source | states |
|---|---|---|
| Bytes.Strlen | student-distrib/lib.c:302-310 | the number of bytes before the first NUL, for every C string in memory |
| Bytes.Strncmp | student-distrib/lib.c:511-529 | zero exactly when the first n bytes agree, or, if the string ends before that, the whole string and its NUL |
| Memory.Memcpy | student-distrib/lib.c:422-462 | for every alignment and length, the destination holds the old source and all other bytes are unchanged, when the ranges are in different arrays, disjoint, or dest <= src |
| Memory.MoveBytesDown | student-distrib/lib.c:474-495 | the descending copy delivers the old source when the destination lies above it |
| Memory.Memmove | student-distrib/lib.c:474-495 | the destination equals the old source for every overlap, nothing else changes |
| Memory.Memset | student-distrib/lib.c:321-358 | exactly n bytes become the low byte of c, for every alignment |
| Memory.StrcpyDown | syscalls/ece391support.c:14-17 | a string copied to a lower overlapping place arrives intact with its NUL |
| Screen.ApplyAllConcat | student-distrib/lib.c:187-224 | output in two parts is output in one |
| Layout.WipeShows | student-distrib/lib.c:22-30 | a cleared screen shows one empty row with the cursor at its start |
| Layout.NextRowShows | student-distrib/lib.c:212-224 | the scroll of cells is dropping the top row of the unbounded scroll |
| Layout.ApplyShows | student-distrib/lib.c:187-224 | one character, backspace or clear keeps the screen the exact window onto the last 25 rows, cursor at the end of the last |
| Layout.ApplyAllShows | student-distrib/lib.c:187-224 | the same after any stream of operations |
| Keymap.OnlyEnterTypesNewline | student-distrib/keyboard.h:45-84 | over all scancodes and modifiers, only Enter yields a newline, no key a carriage return, and the function keys nothing |
| Keymap.TablesFollowRule | student-distrib/keyboard.h:45-84 | all four tables, at every scancode, follow one rule: letters are upper case when exactly one of caps lock and shift is on, every other key follows shift |
| Keymap.CapsAndShiftOnLetters | student-distrib/keyboard.h:45-84 | of the four tables: caps lock and shift each turn every letter into its upper case, and together cancel |
| Keymap.CapsConcernsLetters | student-distrib/keyboard.h:45-84 | caps lock leaves a key alone, with or without shift, if and only if it is not a letter |
| Multiplexer.KeyAccount | student-distrib/keyboard.c:67-185 | over every state and scancode, by the rule of the tables: Enter, backspace, ctrl+L and the keys that mean a character do to line, screen and ready flag what is spelled out, with the character appended and printed if there is room; every other scancode does nothing but forget a line of 128 bytes; other terminals are untouched |
| Multiplexer.EditsByRule | student-distrib/keyboard.c:106-182 | which scancodes type, and what, is decided by caps lock, shift and the rule alone |
| Multiplexer.CapsParity | student-distrib/keyboard.c:78-85 | over every run caps lock has changed if and only if it was pressed an odd number of times |
| Multiplexer.OnlyFunctionKeysSwitch | student-distrib/keyboard.c:128-154 | over every run without F1, F2 and F3 the display stays |
| Multiplexer.WriteShowsText | student-distrib/terminal.c:94-115 | a write shows its text, character by character, at the end of its own terminal's scroll, and changes nothing else anywhere |
| Multiplexer.ReadConsumes | student-distrib/terminal.c:61-87 | after a read no terminal has anything pending or is ready; screens, display and modifiers are as before |
| Multiplexer.ReadyNeedsEnter | student-distrib/keyboard.c:117-123 | over every run a terminal becomes ready only by Enter, pressed while it is displayed |
| Multiplexer.LineIsTyped | student-distrib/keyboard.c:67-185 | over every run a terminal's line is made, in order, of what it was and of what was typed on it since |
| Multiplexer.ReadsAreFresh | student-distrib/terminal.c:61-87 | after a read, the next is possible only when Enter was pressed on the terminal then displayed, and delivers only what was typed there since |
| Multiplexer.Isolation | student-distrib/terminal.c:94-217 | over every run each terminal's screen and cursor are the fold of its own operations from its own initial page |
| Multiplexer.StepAppliesOwnOps | student-distrib/keyboard.c:67-185 | one write, key or read applies to a terminal exactly the operations addressed to it |
| Multiplexer.WindowOntoOwnOutput | student-distrib/terminal.c:94-193 | each terminal shows the last 25 rows of its own output, erasures and clears |
| Multiplexer.WindowSinceClear | student-distrib/terminal.c:94-193 | from its last clear on, any terminal, hidden or not, shows the last 25 rows of its output since then, whatever its page held at the start |
| Multiplexer.Noninterference | student-distrib/terminal.c:94-115 | deleting all writes from other terminals leaves a terminal's screen, cursor, line and the display unchanged |
| Multiplexer.ReadDisturbsOthers | student-distrib/keyboard.c:53-59 | a read leaves another terminal's line alone if and only if it was empty and not ready |
| Multiplexer.LostLineExample | student-distrib/terminal.c:61-87 | after boot, a letter typed on terminal 0 is lost when terminal 1 reads a line |
| Multiplexer.UnreportedLineExample | student-distrib/terminal.c:61-87 | a line that fills the bytes asked for is delivered and reported as 0 |
| Multiplexer.BackspaceUndoesKey | student-distrib/keyboard.c:106-182 | over every state: a backspace restores the line that a key was typed on if and only if the line had fewer than 127 bytes and the cursor was not in the last column, or 127 bytes with the cursor in column 0; and exactly when it restores the cursor |
| Multiplexer.BackspaceAfterIgnoredKey | student-distrib/keyboard.c:161-163 | on a line of 127 bytes the key is ignored and the backspace removes the byte typed before it |
| Multiplexer.TypingMovesCursor | student-distrib/keyboard.c:176-181 | every key that finds room moves the cursor on, around the row |
| Multiplexer.LostByteExample | student-distrib/keyboard.c:106-182 | after boot, 128 keys and a backspace leave 126 bytes |
| Multiplexer.AgreementKept | student-distrib/keyboard.c:78-105 | flags that say which modifier keys are held go on doing so if and only if the scancode is not misread: the release of the only alt key, or of any with control held; of one of two control or shift keys; or a prefixed shift code |
| Multiplexer.AgreesUntilMisread | student-distrib/keyboard.c:78-105 | over every run without such a scancode the flags are the left and right modifier keys physically held |
| Multiplexer.AltSticks | student-distrib/keyboard.c:100-105 | over every run the alt flag is on if and only if it was on at the start or alt was ever pressed |
| Multiplexer.FunctionKeysSwitch | student-distrib/keyboard.c:124-154 | F1 to F3 switch terminals in every later state if and only if alt was ever pressed |
| Multiplexer.SwitchWithoutAltExample | student-distrib/keyboard.c:100-154 | after boot, alt pressed and released, F2 alone switches |
| Multiplexer.ShiftLostExample | student-distrib/keyboard.c:86-93 | after boot, with both shift keys down and one released, the flag is off while a shift key is held |
| Multiplexer.TypingFillsLine | student-distrib/keyboard.c:155-182 | after any keys that type characters, the line is the first 127 of them |
| Multiplexer.TypedLineIsRead | student-distrib/terminal.c:61-87 | a typed line ended by Enter is read back whole, newline included, zero padded, with its length, if nothing comes in between; FinishedLineSurvives says what may |
| Multiplexer.FinishedLineSurvives | student-distrib/keyboard.c:67-185 | a finished line survives a scancode if and only if it has fewer than 128 bytes and the key edits nothing: no key, the clear key, a backspace in column 0, or a character that finds 127 bytes; ready stays set in any case |
| Multiplexer.ForgottenLineExample | student-distrib/keyboard.c:71-74 | after boot, 127 keys and Enter: the release of Enter forgets the line, which is still ready and read as 0 bytes |
| Multiplexer.ReadCountExactly | student-distrib/terminal.c:61-87 | the count is the number of bytes delivered if and only if more than the line was asked for, or nothing was delivered; otherwise it is 0 |
| Multiplexer.ReadBytesExactly | student-distrib/terminal.c:61-87 | the bytes delivered are those of the line, and NUL after them |
| Multiplexer.ReaderGetsDisplayedLine | student-distrib/terminal.c:71-82 | a program receives its own terminal's line, for every byte count, if and only if the displayed line is the same |
| Multiplexer.WrongReaderExample | student-distrib/terminal.c:71-82 | after boot, a line typed on terminal 0 goes to a reader of terminal 1 |
| Console.BackingPages | student-distrib/page.c:151-154 | the table used for writing and the formula used for switching name the same three pages, disjoint from each other and from the screen |
| Console.Console.constructor | student-distrib/terminal.c:31-43 | at boot the memory represents three terminals with empty lines and cursors at home, no modifier on, the displayed one cleared |
| Console.Console.Putc | student-distrib/lib.c:187-224 | in place on video memory: the screen becomes Put of the old one, no backing page changes |
| Console.Console.ScrollPage | student-distrib/terminal.c:180-193 | the row-by-row copy of one page is dropping its top row; the other pages keep every byte |
| Console.Console.TermPutc | student-distrib/terminal.c:149-172 | the same character step on a backing page and its saved cursor, other pages unchanged |
| Console.Console.TermClear | student-distrib/terminal.c:136-142 | blanks the displayed page, homes the cursor, leaves backing pages alone |
| Console.Console.Copy4kbPage | student-distrib/page.c:163-168 | one page becomes a copy of another, the other pages are unchanged |
| Console.Console.ChangeDisplayTerm | student-distrib/terminal.c:201-217 | the displayed page goes to its backing page and the chosen one comes to the screen, so that every terminal's page is where it is looked for |
| Console.Console.SwitchTerminal | student-distrib/keyboard.c:128-154 | after a switch every terminal's screen, cursor and line are what they were; only the display choice changes |
| Console.Console.TermWrite | student-distrib/terminal.c:94-115 | the first nbytes bytes of the buffer, none for a negative count, are written, shown or hidden, in one step of the idealised machine; a null buffer changes nothing |
| Console.Console.KeyboardHandler | student-distrib/keyboard.c:67-185 | one scancode on flags, buffers, screens and pages is one step of the idealised machine, every store in bounds |
| Console.Console.OrdinaryKey | student-distrib/keyboard.c:124-182 | the default branch: switching, clearing and typing with the 127-character limit |
| Console.Console.ModifierKey | student-distrib/keyboard.c:78-105 | the modifier keys step the flags as the machine does; Multiplexer.AgreementKept and AltSticks say what that computes |
| Console.Console.RuboutKey | student-distrib/keyboard.c:106-116 | backspace, gated by the cursor column and not by the line |
| Console.Console.ClearKeyboardBuf | student-distrib/keyboard.c:53-59 | the lines of all three terminals are emptied |
| Console.Console.TermRead | student-distrib/terminal.c:61-87 | delivers the line zero padded, or a prefix and the count 0, and empties all lines |
| Console.Console.Feed | student-distrib/terminal.c:61-217 | feeding any writes, scancodes and reads of ready lines to the handlers ends in the run of the machine, and wherever memory then keeps a terminal it holds the fold of that terminal's own operations on its old screen |
| Prelude.FlatAt | student-distrib/filesys_mod.c:288-386 | byte 4096 k + r of blocks laid end to end is byte r of block k |
| Image.FileByteOnDisk | student-distrib/filesys_mod.c:288-386 | every byte of a file is the disk byte that its inode's block list addresses |
| Image.NameIsCString | student-distrib/filesys_mod.c:197-242 | a name shorter than its field is a C string |
| Image.FindAgreesWithIndex | student-distrib/filesys_mod.c:197-273 | lookup by name finds every stored name and agrees with lookup by index |
| Image.FindOnlyStoredNames | student-distrib/filesys_mod.c:197-242 | lookup by name fails exactly on names that are not stored |
| Image.CutAgrees | student-distrib/filesys_mod.c:204-221 | the search by the compared part agrees with lookup by the whole name if and only if the name is shorter than 256 bytes or the part is not found |
| Image.LongNameExample | student-distrib/filesys_mod.c:204-221 | every stored name followed by 256 further bytes is not in the directory and is taken for the stored one |
| Image.LongDotExample | student-distrib/filesys_mod.c:204-221 | such a name on a concrete image |
| Image.FindIsLookup | student-distrib/filesys_mod.c:197-242 | lookup in the directory on disk is lookup in the volume of files it stands for |
| Image.VolumeGood | student-distrib/filesys_mod.c:23-52 | the files of a well-formed image have short names, known kinds and representable lengths |
| Disk.WordReadsBack | student-distrib/filesys_mod.c:23-52 | a little-endian word that was written is read back |
| Disk.NameReadsBack | student-distrib/filesys_mod.c:197-242 | a name written into its field with NUL padding is read back |
| Disk.CountsReadBack | student-distrib/filesys_mod.c:23-52 | the three counts of a written image are read back |
| Disk.ItemReadsBack | student-distrib/filesys_mod.c:225-233 | name, kind and inode number of every entry of a written image are read back |
| Disk.InodeReadsBack | student-distrib/filesys_mod.c:288-330 | length and block numbers of every inode of a written image are read back |
| Disk.AnyPlacement | student-distrib/filesys_mod.c:354-382 | wherever the pieces of a file lie on the disk, an inode that lists their places in order has its contents |
| Disk.WrittenReadsBack | student-distrib/filesys_mod.c:23-52 | an image written from entries, inodes and blocks is well-formed, and its volume is exactly the files written |
| FileSystem.FileSystem.constructor | student-distrib/filesys_mod.c:23-52 | the pointer walk finds the counts, all 63 entries, the inodes and the data blocks |
| FileSystem.BlockSlice | student-distrib/filesys_mod.c:354-382 | within a block, consecutive file bytes are consecutive on disk |
| FileSystem.FileSystem.ReadData | student-distrib/filesys_mod.c:288-386 | returns min(length, file length - offset), the buffer gets exactly that slice, the rest of it is unchanged; an oversized inode fails |
| FileSystem.FileSystem.Gather | student-distrib/filesys_mod.c:342-382 | the block loops end, never use a block beyond the file and never underflow, also when the first round copies nothing |
| FileSystem.FileSystem.CompareName | student-distrib/filesys_mod.c:204-221 | for a name of any length, zero exactly when the entry's name is the part of it whose length fits in a byte |
| FileSystem.FileSystem.SearchName | student-distrib/filesys_mod.c:204-223 | for a name of any length, the search stops at the first entry that carries the compared part and fails if and only if there is none |
| FileSystem.FileSystem.ReadDentryByName | student-distrib/filesys_mod.c:197-242 | the first entry that carries the name, or none, for every name that no shorter entry is mistaken for |
| FileSystem.FileSystem.ReadDentryByIndex | student-distrib/filesys_mod.c:254-273 | the entry at the index, or none from the entry count on |
| FileSystem.FileSystem.ReadNamed | student-distrib/filesys_mod.c:85-100 | a read by name establishes what read_data needs and delivers the slice of the named file |
| Kernel.Kernel.constructor | student-distrib/syscalls.c:249-261 | descriptors 0 and 1 are terminals, the other slots keep what the stack held |
| Kernel.Kernel.Open | student-distrib/syscalls.c:468-539 | is the open step on the table: lowest free slot, operations by kind; for every name that no shorter entry is mistaken for |
| Kernel.Kernel.Close | student-distrib/syscalls.c:547-582 | is the close step on the table, whatever inspecting an out-of-range slot yields |
| Kernel.Kernel.ReadFile | student-distrib/filesys_mod.c:85-100 | the slice from file_pos is delivered and file_pos advances by its length |
| Kernel.Kernel.ReadDirectory | student-distrib/filesys_mod.c:113-139 | the next name and its NUL are delivered; past the last entry 0 is returned and the counter starts again |
| Kernel.Kernel.Read | student-distrib/syscalls.c:405-428 | is the read step on the table, delivers its bytes, and refuses null buffers and bad descriptors without change |
| Kernel.Kernel.Write | student-distrib/syscalls.c:436-460 | only an open terminal other than standard input takes the bytes |
| Kernel.Kernel.Perform | student-distrib/syscalls.c:405-582 | any sequence of opens, reads and closes, in memory, is the run of the table with the replies of that run |
| Descriptors.LowestFree | student-distrib/syscalls.c:482-495 | the first slot that is not in use, or the table size |
| Descriptors.OpenIsLowestFree | student-distrib/syscalls.c:468-539 | open hands out the lowest free descriptor, positioned at the start of the named file, and fails exactly when the table is full or the name absent, changing nothing then |
| Descriptors.CloseFrees | student-distrib/syscalls.c:547-582 | close succeeds exactly for a descriptor from 2 to 7 that is in use with operations, frees exactly its slot, and otherwise changes nothing |
| Descriptors.ReadFailsExactly | student-distrib/syscalls.c:405-428 | a read fails exactly on a descriptor that is out of range, not in use, or standard output, and changes nothing then |
| Descriptors.ReadKeepsUsed | student-distrib/syscalls.c:405-428 | reads do not change which slots are in use |
| Descriptors.SlotsConserved | student-distrib/syscalls.c:468-582 | over every run, slots in use = slots at the start + successful opens - successful closes, and 0 and 1 stay terminals |
| Descriptors.OpensUntilFull | student-distrib/syscalls.c:468-539 | k opens of a present name succeed min(k, free slots) times |
| Descriptors.SeventhOpenFails | syscalls/ece391syserr.c:100-123 | seven opens give exactly one failure if and only if no stale slot reads as in use |
| Descriptors.StaleSlotExample | syscalls/ece391syserr.c:100-123 | with one stale slot that reads as in use, two of the seven opens fail |
| Descriptors.DirectoryCycles | student-distrib/filesys_mod.c:113-139 | from a reset counter, read number j of the directory yields entry j mod (n + 1), or 0 at position n |
| Descriptors.StreamsArePrefixes | student-distrib/syscalls.c:405-582 | over every interleaving of opens, reads and closes, a descriptor's bytes since its open are the first min(asked, length) bytes of its file and its position is within it |
| Programs.ReadTakesRemaining | student-distrib/syscalls.c:405-428 | a read takes its bytes off the front of what remains, reports 0 exactly at the end, and leaves other slots alone |
| Programs.FreshDescriptor | student-distrib/syscalls.c:468-539 | a descriptor just opened has the whole file, or the rest of the directory, still to deliver |
| Programs.Cat | syscalls/ece391cat.c:6-31 | ends having written exactly the whole file, or the error message, and disturbs no other descriptor |
| Programs.Ls | syscalls/ece391ls.c:8-29 | prints each name from the counter on, once, in order, one a line, and leaves the counter reset |
| Lines.LineEndSpec | syscalls/ece391grep.c:32-34 | the end of a line is its first newline |
| Lines.ReportedShort | syscalls/ece391grep.c:23-59 | whatever is reported has at most 1024 bytes and no NUL byte |
| Lines.VisibleSpec | syscalls/ece391support.c:19-22 | what is printed of a line is its bytes before the first NUL, the whole line if and only if it holds none |
| Lines.EmptyPatternFindsNul | syscalls/ece391grep.c:42-53 | the empty pattern is found at every NUL byte |
| Lines.FullLine | syscalls/ece391grep.c:32-58 | a line of exactly 1024 bytes is reported as one line |
| Lines.ReportedExactly | syscalls/ece391grep.c:9-69 | the scan reports exactly the lines that contain the pattern, in order and once each, if and only if no such line exceeds 1024 bytes or holds a NUL byte and, for the empty pattern, the text holds none |
| Lines.LostWithoutNul | syscalls/ece391grep.c:9-69 | in a text without NUL bytes a line is lost if and only if it matches and exceeds 1024 bytes |
| Cuts.FirstCutSpec | syscalls/ece391grep.c:33-41 | the cut is at the end of a buffer, and all buffers before it end in a newline |
| Cuts.ReportedSplit | syscalls/ece391grep.c:30-59 | whole lines are reported independently of the text behind them |
| Cuts.ReportedLine | syscalls/ece391grep.c:30-59 | a line is reported independently of the lines behind it |
| Cuts.ScannedBuffer | syscalls/ece391grep.c:30-59 | with a newline left over, a full buffer is reported by itself, and the newline stays exactly if the buffer ends in one |
| Cuts.PartsOfCut | syscalls/ece391grep.c:33-41 | cutting a text changes only the report of the line around the cut |
| Cuts.ScannedAsReported | syscalls/ece391grep.c:9-69 | with a newline left over the report is that of a clean buffer if and only if the pieces of the cut line are the same cut and uncut |
| Cuts.PiecesAddUp | syscalls/ece391grep.c:33-41 | cutting a line that is not lost anyway changes its report if and only if the pattern is found in it and both parts are non-empty |
| Cuts.ScannedExactly | syscalls/ece391grep.c:9-69 | for any byte after the buffer, exactly the matching lines are reported if and only if none is lost and, with a newline there, the first cut does not go through one |
| Cuts.LongLineExample | syscalls/ece391grep.c:9-69 | a matching line of 1025 bytes is not reported as such |
| Cuts.CutLineExample | syscalls/ece391grep.c:9-69 | a match across the cut is overlooked with a newline left over, and found without |
| Shifts.ShiftedExactly | syscalls/ece391support.c:14-17 | shifting a partial line is faithful if and only if it holds no NUL byte, or behind the first one nothing but what the buffer held there already |
| Shifts.ShiftedExample | syscalls/ece391grep.c:35-41 | a shift that replaces what follows a NUL byte |
| Shifts.CleanWithoutNul | syscalls/ece391grep.c:23-61 | in a text without NUL bytes no partial line with one is shifted |
| Shifts.CleanIfShort | syscalls/ece391grep.c:23-61 | nor in a text that fits the buffer and ends with a line, whatever it holds |
| Shifts.NulLineExample | syscalls/ece391grep.c:42-53 | on x, NUL, ab the pattern ab is found and only x is printed |
| Grep.RenderConcat | syscalls/ece391grep.c:47-50 | the report of two runs of lines is their reports one after the other |
| Grep.RenderLine | syscalls/ece391grep.c:47-50 | the report of a line is the name, a colon, the line and a newline |
| Grep.Ece391Strncmp | syscalls/ece391support.c:35-46 | zero exactly when the pattern starts at this place of the line, the empty one included |
| Grep.SearchLine | syscalls/ece391grep.c:42-53 | for any bytes, found if and only if the line contains the pattern, or, for the empty pattern, a NUL byte |
| Grep.ReportLine | syscalls/ece391grep.c:44-53 | if the pattern is found, the name and the bytes of the line before its first NUL are printed, otherwise nothing |
| Grep.FindLineEnd | syscalls/ece391grep.c:32-34 | the next newline or the end of the data, with no stale newline beyond it taken for one |
| Grep.ScanBuffer | syscalls/ece391grep.c:30-59 | for any bytes the scan ends, only adds output and leaves the buffer's partial line or nothing; unless a partial line with a NUL byte is shifted, what is printed, buffered and unread together report the same before and after; a newline left over after a full buffer empties it and survives exactly if the buffer ends in one |
| Grep.ScanLine | syscalls/ece391grep.c:32-58 | one line is shifted down, reported or passed; a newline left over makes the last partial line of a full buffer look complete; the shift leaves exactly Shifted |
| Grep.ShiftDown | syscalls/ece391grep.c:35-41 | for any bytes, the partial line at the front is exactly Shifted of what it was and what was there |
| Grep.Round | syscalls/ece391grep.c:23-61 | for any file a refill and a scan make progress and only add output; on a clean one they keep cleanness and what has been and will be reported |
| Grep.RoundIsClean | syscalls/ece391grep.c:23-61 | the effect of a scanned buffer on a clean text, with or without a newline left over |
| Grep.DoOneFile | syscalls/ece391grep.c:9-69 | for any file: ends, only adds output, closes its descriptor and disturbs no other; on a clean one, for any contents of the buffer on the stack and any chunk boundaries, it prints what Cuts.Scanned reports; nothing for the clock; or the error message |
| Search.SearchNext | syscalls/ece391grep.c:86-97 | one directory entry: names with a dot are passed over, the others searched, and no other descriptor is disturbed |
| Search.SearchDirectory | syscalls/ece391grep.c:71-100 | the whole program, on any files: every entry from the counter on contributes one part in order, which for a clean file is its report, and the counter is reset; with one free descriptor the first file to be searched stops it, with none the directory |
| Search.EntryFound | student-distrib/filesys_mod.c:197-242 | every name read from the directory opens the entry it was read from |
| Search.WalkIsExact | syscalls/ece391grep.c:71-100 | exactly the matching lines of every file are printed if no file is unclean or has a line that is lost or cut; of each clean file exactly the matching lines are reported if and only if none is lost or cut |
| ProcessQueue.ProcessQueue.constructor | student-distrib/sched.c:14-25 | the empty ring, whose first enqueue at the front steps back to slot 0 |
| ProcessQueue.ProcessQueue.Enqueue | student-distrib/sched.c:54-84 | appends in any ring that is not full, for any capacity; on a full ring, which looks empty, only the new process is left; fails for a process number beyond the limit |
| ProcessQueue.ProcessQueue.EnqueueFront | student-distrib/sched.c:97-109 | prepends; on a full ring only the new process is left |
| ProcessQueue.ProcessQueue.Peak | student-distrib/sched.c:119-123 | the head of the sequence |
| ProcessQueue.ProcessQueue.Dequeue | student-distrib/sched.c:133-147 | takes the head; undoes an enqueue at the front, indices included |
| ProcessQueue.ProcessQueue.Rotate | student-distrib/sched.c:157-166 | the literal body is RotatedRing on slots and indices, and rotates left by one, while the rear index is not the last |
| ProcessQueue.ProcessQueue.RotateWrapped | student-distrib/sched.c:157-166 | the version with the wrap of pq_enqueue, which the source lacks, rotates left by one in every state |
| ProcessQueue.RotationsShift | student-distrib/sched.c:157-166 | k rotations are a left rotation by k mod n |
| ProcessQueue.RotationsConserve | student-distrib/sched.c:157-166 | rotation preserves the multiset of processes |
| ProcessQueue.EveryProcessRunsOnce | student-distrib/sched.c:157-166 | any n consecutive rotations put every process at the front exactly once |
| ProcessQueue.RotationsAsWritten | student-distrib/sched.c:163-164 | k literal rotations of a ring stay inside the array if and only if rear + k < capacity, and then hold the processes rotated k times |
| Processes.Processes.Execute | student-distrib/syscalls.c:98-312 | fails exactly at six processes or for an unloadable program, and then changes nothing; else starts one process, or the three root shells at boot |
| Processes.Processes.StartProcess | student-distrib/syscalls.c:183-291 | one round of the loop: count, user page, PCB and queue |
| Processes.Processes.BuildPcb | student-distrib/syscalls.c:216-229 | the parent read off the queue is PCB pid-1 for pid > 3 and null for root shells, which get terminals 2, 1, 0; others inherit |
| Processes.Processes.Halt | student-distrib/syscalls.c:31-87 | is the halt step; the PCB reached through the parent pointer is that of the page it maps |
| Processes.Processes.Perform | student-distrib/syscalls.c:31-312 | any sequence of executes and halts, in memory, is the run of the state |
| Processes.Processes.ActiveTerm | student-distrib/sched.c:35-41 | the terminal of the process that the count designates, 0 if there is none |
| Processes.WithShellsIsStarting | student-distrib/syscalls.c:183-291 | the boot loop ends with all three root shells started |
| Processes.ExecutedIsConsistent | student-distrib/syscalls.c:98-312 | execute keeps count, queue, ring indices, PCBs, user page and esp0 in step |
| Processes.HaltedIsConsistent | student-distrib/syscalls.c:49-75 | halt of a parented process keeps them in step |
| Processes.ReachableIsConsistent | student-distrib/syscalls.c:31-312 | they are in step after every run of calls |
| Processes.CurrentProcess | student-distrib/syscalls.c:31-312 | in every state reached from boot the ring is PCB n..1 and its front is the PCB computed from the count |
| Processes.ExecutedExactly | student-distrib/syscalls.c:98-312 | a failed execute leaves the whole state unchanged; a successful one starts three processes at boot and one afterwards |
| Processes.ProcessesConserved | student-distrib/syscalls.c:31-312 | over every run, processes = those at the start + those started by successful executes - those halted |
| Processes.FamilyTree | student-distrib/syscalls.c:216-229 | in every state reached from boot the first three processes are root shells without a parent on terminals 2, 1 and 0, and every other has the one before it as parent and shares its terminal |
| Processes.AreasInOrder | student-distrib/page.c:115-130 | PCB areas follow one another down from 8 MB, program frames up from there, and each kernel stack starts just below its PCB |
| Processes.UserPdeWord | student-distrib/page.c:115-130 | the page entry is the frame's address with the bits present, writable, user, write-through and 4 MB page |
| Processes.RotationsFromBoot | student-distrib/sched.c:157-166 | in every state reached from boot exactly five literal rotations work, and they rotate the processes |
| Processes.SixthRotationExample | student-distrib/sched.c:157-166 | the ring after boot, whose sixth rotation stores beyond the array |
| Processes.ExecuteThenHalt | student-distrib/syscalls.c:31-312 | execute and then halt restores count, queue, indices, user page and esp0; only the dead PCB differs |
| Processes.FullLooksEmpty | student-distrib/sched.c:14-25 | a full ring has the front index of an empty one |
| Processes.FramesDisjoint | student-distrib/page.c:115-130 | PCB areas and 4 MB frames of live processes are disjoint, and their page entries differ |
| Blink.BlinkList.constructor | fish/fish.c:21-28 | an empty list over a zeroed pool |
| Blink.BlinkList.Malloc | fish/fish.c:161-171 | the first slot with location 0, or null exactly when there is none |
| Blink.BlinkList.Add | fish/blink.S:105-184 | on a valid list: cons and a poke; fails exactly for a bad location or when all 2000 slots are used; keeps the list valid exactly when the location is not 0, else the new head still counts as free. If the head counts as free, the new node is linked to itself |
| Blink.ZeroLocationExample | fish/blink.S:105-184 | after a blinker at location 0 the next one added is put into the same slot and linked to itself |
| Blink.WalkEnds | fish/blink.S:60-90 | a walk along the links of a list in order ends after as many steps as there are nodes |
| Blink.SelfLoopIsEndless | fish/blink.S:60-90 | a walk from a node linked to itself never ends |
| Blink.BlinkList.FullIffAllUsed | fish/fish.c:161-171 | the pool is exhausted exactly when the list has 2000 nodes |
| Blink.BlinkList.FindHelper | fish/blink.S:351-379 | the first listed node at the location, cut to 16 bits; the walk ends |
| Blink.BlinkList.Find | fish/blink.S:302-349 | a copy of the most recently added blinker at the location |
| Blink.BlinkList.FindPrev | fish/blink.S:206-212 | the pointer search ends at the link that leads to the node |
| Blink.BlinkList.Unlink | fish/blink.S:206-217 | the node leaves the list, the others keep their order and contents |
| Blink.BlinkList.Free | fish/fish.c:173-176 | the zeroed slot counts as free |
| Blink.BlinkList.Remove | fish/blink.S:187-237 | deletes the first match and frees its slot, or fails exactly when there is none |
| Blink.Node.CountDown | fish/blink.S:64-86 | one countdown in 16 bits compared as signed: the state and screen after it |
| Blink.BlinkList.Tasklet | fish/blink.S:49-99 | every listed blinker ticks once, the list itself is unchanged, and the screen gets the pokes in list order |
| Blink.BlinkList.Perform | fish/blink.S:49-237 | any sequence of adds, removes and ticks, in memory, is the run of list and screen |
| Blink.FirstAtIs | fish/blink.S:351-379 | the first match is the only index that matches with no match before it |
| Blink.DistinctWithin | fish/fish.c:161-171 | a list of distinct pool nodes is as long as the pool exactly when it has them all |
| Blink.NextAtPhase | fish/blink.S:64-86 | a tick moves a blinker to the next phase of its period |
| Blink.OnSchedule | fish/blink.S:64-86 | after t ticks a blinker's whole state is that of phase t mod (on + off), for every 16-bit length |
| Blink.DurationAsDocumented | fish/blink.S:64-66 | a length is counted as documented if and only if it is between 1 and 32768 |
| Blink.ScheduleAsDocumented | fish/blink.S:64-86 | for such lengths a blinker is on after t ticks if and only if t mod (on + off) < on |
| Blink.ShortLengthExample | fish/blink.S:64-86 | on lengths of 0 and of 40000 last one tick |
| Blink.PaintedAllAt | fish/blink.S:49-99 | with distinct locations a tick changes each listed cell as if its blinker were alone, and no other byte |
| Blink.AddedAgrees | fish/blink.S:105-184 | adding at an unlisted location keeps every listed cell showing its blinker |
| Blink.AddedExactly | fish/blink.S:105-184 | an added blinker is found first at its location, the others stay in order, and only its cell changes, to its on character |
| Blink.RemovedExactly | fish/blink.S:187-237 | a remove takes out exactly the first match and keeps the others in order; with distinct locations nothing is listed there any more |
| Blink.BlinkersConserved | fish/blink.S:49-237 | over every run, blinkers = those at the start + those added - those removed |
| Blink.RestsAfterRemoval | fish/blink.S:187-237 | from its removal until the next add at its location, whatever else happens, a blinker's cell does not change and it is not listed |
| Blink.RemovedAgrees | fish/blink.S:187-237 | so does removing |
| Blink.TickAgrees | fish/blink.S:49-99 | so does a tick, which leaves attribute bytes alone |
| Blink.RunKeepsBlinker | fish/blink.S:49-237 | over any run of adds, removes and ticks a blinker that is not removed stays listed, on schedule |
| Blink.BlinksOnSchedule | fish/blink.S:49-237 | over any such run its cell shows the on character if and only if ticks mod (Duration(on) + Duration(off)) < Duration(on) |
| Numbers.PositionalParses | student-distrib/lib.c:235-268 | the generated digits read back as the value, with no leading zero |
| Numbers.NumeralIsCanonical | student-distrib/lib.c:235-268 | a string is what itoa prints if and only if it is canonical in the radix and reads back as the value |
| Numbers.NumeralLength | student-distrib/lib.c:235-268 | at most 32 digits for a 32-bit value, at most 8 in radix 16 |
| Numbers.Strrev | student-distrib/lib.c:277-293 | reverses a string in place and touches nothing else |
| Numbers.LowestFirst | student-distrib/lib.c:256-264 | the loop stores the digits from the lowest place up |
| Numbers.Itoa | student-distrib/lib.c:235-268 | the buffer receives the numeral and a NUL, nothing else changes, for radix 2 to 36 |
| Numbers.Puts | student-distrib/lib.c:168-178 | hands exactly the string to putc |
| Numbers.PutNumber | student-distrib/lib.c:85-114 | %x and %u print the canonical numeral of the value |
| Numbers.PutPaddedHex | student-distrib/lib.c:91-103 | %#x prints exactly 8 hexadecimal digits that read back as the value |
| Numbers.ZerosParse | student-distrib/lib.c:94-100 | leading zeros do not change the value |
| Numbers.PutSigned | student-distrib/lib.c:117-130 | %d reads back as the value for every 32-bit integer, the least one included |
| Emulate.Tokenise | syscalls/ece391emulate.c:68-100 | one buffer ends up holding the program name and all arguments as separate strings, at most 512 of the 1024 there is room for; longer commands fail |
| Emulate.ParseArguments | syscalls/ece391emulate.c:88-98 | the loop ends and appends exactly the words of the rest |
| Emulate.WordsAreWords | syscalls/ece391emulate.c:88-98 | arguments are non-empty, free of spaces and newlines, and at most half as many as there are characters, rounded up |
| Emulate.WordsAreMaximalRuns | syscalls/ece391emulate.c:88-98 | without newlines the arguments are exactly the maximal runs of non-spaces |
| Emulate.WordsAtNewline | syscalls/ece391emulate.c:81-98 | a newline after a word ends the word and the arguments go on behind it; where a word should start it ends them |
| Emulate.SurvivesExactly | syscalls/ece391emulate.c:131-157 | an argument list survives joining and tokenising if and only if every argument is a word |
| Emulate.Retokenised | syscalls/ece391emulate.c:76-157 | tokenising, joining and tokenising again gives the same arguments |
| Emulate.PieceOfJoin | syscalls/ece391emulate.c:139-152 | where each argument and its space lie in the joined text |
| Emulate.JoinLength | syscalls/ece391emulate.c:139-152 | one byte separates each argument from the next |
| Emulate.Getargs | syscalls/ece391emulate.c:131-157 | succeeds exactly when the joined text and its NUL fit, delivers it, and overwrites the byte after the offered ones exactly when some of the first arguments fill them |
| Emulate.FilledExample | syscalls/ece391emulate.c:139-154 | two bytes offered for an argument of two bytes |

## Left out

- Concurrency inside a call: a `term_write`, a scancode, a tick and a system call are atomic steps, because interrupts are not modelled.
- Spin waits: `term_read` is modelled from the point where the line is ready, and reading the clock as an immediate 0.
- Registers, `iret`, `leave`, stack switching and TSS descriptors: only the count, queue, page entry and `esp0` updates of `execute` and `halt` are modelled.
- Processes.Processes.Halt: a root shell has no parent, and the branch for the last process restarts a shell through it; both are outside the precondition.
- Processes.Processes.Execute: parsing the command, the ELF check and copying the program image are the parameter `loads`; the kernel's single-argument `args_initialize` and `getargs` copy one string.
- Processes.Processes.ActiveTerm: for an empty ring it states 0, the value of the source's other branch, and says nothing about the pointers of halted processes.
- Console.Console.TermRead: takes a byte count that is not negative; a negative one reaches a copy of unsigned length.
- Kernel.Kernel.Read: takes a byte count that is not negative and a buffer with room for what is delivered; standard input is the business of `Console.Console.TermRead`, and a slot in use with stale operations is excluded, because calling them is undefined.
- Kernel.Kernel.Write: the terminal is the sequence of bytes written so far; the clock's write, which programs a device, is excluded by the precondition.
- FileSystem.FileSystem.ReadData: takes offset <= file length and offset + length < 2^32, since the guard against a larger offset tests an unsigned difference; `FileSystem.FileSystem.ReadNamed` shows that every read of a file meets both.
- FileSystem.FileSystem.ReadDentryByName: a name of 256 bytes or more that a shorter entry is mistaken for is excluded, because the match copies it beyond its field; `FileSystem.FileSystem.SearchName` covers the search for it.
- Kernel.Kernel.Open: excludes the same names; the inode field of a descriptor is not modelled, because no read uses it.
- Grep.DoOneFile: of a file in which a partial line with a NUL byte is shifted it states only that the program ends, keeps its descriptors and adds output; and it takes no directory other than those whose names start with a dot.
- FileSystem.FileSystem.CompareName: a stored name of 32 characters without a NUL is excluded by the image's well-formedness.
- Memory.Memmove: the direction flag that the descending copy leaves set is not modelled.
- Console.Console.Putc: the hardware cursor registers are not modelled.
- Blink: `mp1_ioctl_sync` is left out, because it displays the off character whatever the status, so it breaks the agreement of list and screen.
- Numbers.Puts: the terminal is the sequence of characters handed to `putc`; the format string of `printf` is not parsed.
- Emulate.Tokenise: the strings behind `argv` are values, and `fork`, `execv` and `wait` are left out.
- Port I/O, interrupt and clock programming, boot code, `vidmap`, `set_handler` and `sigreturn`: straight-line device and table code, or stubs.
