# A verified model of OreOS

OreOS is a small 32-bit x86 kernel with a handful of user programs. This project models the parts of it
whose correctness is not visible from one function body, and proves what they promise for every input,
every run or every reachable state:

- **grep** (`GrepLines`, `GrepBuffer`, `Grep`): a 1024-byte sliding buffer, rewritten in place, against "cut
  the file into lines and keep those that contain the string".
- **the blink list** (`Blink`, `BlinkList`, `BlinkRuns`): a linked list inside a fixed pool, refined to a
  sequence; its timing in closed form; what the screen shows over whole runs.
- **fish** (`Fish`, `FishShow`): the merge of two text files into blink requests, and the animation end to
  end.
- **the console** (`Layout`, `Console`): cursor, wrap, scroll and backspace against an independent layout of
  the text.
- **library code** (`Numbers`, `Memory`): number printing with its in-place reversal, and the
  alignment-splitting memory routines.
- **the file system and descriptors** (`Image`, `FileSystem`, `Descriptors`): block-indexed reads of a raw
  image against flat files, and what any interleaving of open, read and close delivers.
- **paging and processes** (`Paging`, `PageTables`, `Loader`, `Processes`): page directories over every run, the
  two masks that find a PCB, the file checks of execute, and the stack of processes that execute and halt
  maintain.
- **the command splitter** (`Words`, `Emulator`): cutting a command line in place, joining its arguments in a
  bounded buffer, and the round trip between the two.

`Bytes` and `Arith` hold byte strings and division facts shared by the others. Code that works by updating
memory is modelled by methods on arrays and objects, each proved against a specification function; the
properties over runs are lemmas about those functions. `dafny verify dfyconfig.toml` checks everything.

## Points where the code differs from what one would expect

- grep treats the byte after its buffer, which is never initialised, as data. When it happens to be a newline
  the first buffers are cut at their end. `SegmentsAreLines` says for which files that splits a line, and
  `StaleNewlineSplitsLine` shows one family of them.
- A line of exactly 1024 bytes is still found whole; 1024 is the exact limit.
- grep moves an unfinished line to the front of its buffer with `strcpy`, which stops at a NUL: what follows the
  NUL is then replaced by older bytes. `NulLosesBytes` is an example; `Lossless` is the exact condition on the
  file (`ScanKeepsBytes`, `ScanIsLines`).
- grep compares the first character of the search string as a signed `char` with an unsigned byte, so it finds
  no string that starts with a byte of 0x80 or more (`HighByteMissed`); an empty string matches the lines that
  hold a NUL; and lines are printed up to their first NUL. `GrepPrintsMatchingLines` has the exact condition.
- Adding a blink node at location 0 succeeds but leaves its slot marked free. `AddKeepsListIffLocated`,
  `ZeroLocationMakesCycle` and `BlinkRuns.Run` give the exact condition and the damage.
- A blink sync always shows the off character, because the flags that `cmovl` tests are never set by `testb`.
  `SyncFaithfulIff` says exactly when the screen is right afterwards.
- A blink phase of length 0, or longer than 32768 ticks, lasts one tick, because the countdown is compared as a
  signed 16-bit number. `BlinkClosedForm` covers all lengths.
- When two frame requests name one cell, as a line of 81 columns can cause (`WideFramesCollide`), the last one
  shows until the first flip and the first one from then on (`FramesShow`).
- `ece391_getargs` lets `strcpy` put a NUL one byte past a buffer that a word fills exactly, and then fails.
  `Overfills` is the exact condition, `FourLettersOverfillFour` an input; `Emulator.GetArgs` asks for that extra
  byte only then.
- `sys_vidmap` rewrites entry 1 of the page table that every directory shares, so in supervisor mode virtual
  address 0x1000 of every live process reaches the screen too; user mode cannot use it, because directory
  entry 0 lacks the user bit (`VidmapReachesScreen`).
- `new_pde` does not check the entry point a file names. In 0-4 MB it takes the video page away, in 4-8 MB the
  kernel, and in 12-16 MB or 124-128 MB it breaks the agreement of the two PCB masks (`NewPde`, `Processes.Run`).
- `execute` reads the whole file into a buffer on the caller's 8 KB kernel stack, above its PCB and before it
  looks at the magic number, so any file of 8 KB or more overwrites that PCB (`PcbSurvivesIff`,
  `OverrunSetsProcId`).
- `execute` reads past that buffer for a file shorter than 4 bytes, and takes part of the entry point from the
  stack for one shorter than 28. `Loader` takes those stack bytes as an input; `DecidedIff` says exactly when
  they do not matter, `BareMagicRunsAnywhere` is a file for which they do.
- A read of a directory ignores the number of bytes asked for and stores 32 (`Descriptors.Process.Read`).
- `read_data` needs no assumption about offset plus length overflowing: the loop stops at the end of the file
  first.

## Model

| member | source | states |
|---|---|---|
| Grep.ScanFile | syscalls/ece391grep.c:20-66 | For every file, NUL bytes included, any search string and any contents of the uninitialised buffer, a scan that ends with status 0 has read the whole file and printed the report, by the same test, of exactly the segments Scan defines; status -1 comes exactly when a read has failed, with a prefix of that report; the scan terminates |
| Grep.ScanBuffer | syscalls/ece391grep.c:28-57 | One pass over a filled buffer reports all its lines, except an unfinished one it keeps, and leaves the whole buffer as Passed says |
| Grep.Refill | syscalls/ece391grep.c:22-27 | Each read asks for at least one byte and puts the next file bytes behind the kept ones, changing nothing else; a short read means the end of the file |
| Grep.SearchLine | syscalls/ece391grep.c:40-51 | Hits exactly when the search string occurs in the line and its first byte is below 0x80, since that byte is compared as a signed character; an empty string is found where a NUL is |
| Grep.SameStart | syscalls/ece391support.c:35-46 | The comparison succeeds exactly when the whole search string stands at that place before the line ends |
| Grep.PrintLine | syscalls/ece391grep.c:40-51 | A hit prints the name, a colon, the line up to its first NUL and a newline; otherwise nothing |
| Grep.CopyDown | syscalls/ece391support.c:14-17 | The overlapping copy moves the string, up to its first NUL, to the front and changes nothing after its terminator |
| Grep.FindLineEnd | syscalls/ece391grep.c:30-32 | Stops at the first newline or at the end of the data |
| Grep.OpenFile.Read | student-distrib/sys_call.c:504-510 | The read a program sees: the next bytes of the file, short only at its end, or a fault that changes nothing |
| GrepLines.SegmentsAreLines | syscalls/ece391grep.c:20-60 | The non-empty segments of the cut are the non-empty lines of the file, in order, if and only if no line is longer than 1024 bytes or, with a newline in the byte after the buffer, no line runs across the end of one of the buffers that are cut there (Clean) |
| GrepBuffer.ScanKeepsBytes | syscalls/ece391grep.c:20-60 | Conservation: the segments searched hold all bytes of the file but its newlines, in order, if and only if the file is Lossless: in each of the 1024-byte windows it is read in, what follows the first NUL of an unfinished line is what stood at that place of the window |
| GrepBuffer.ScanIsLines | syscalls/ece391grep.c:20-60 | For every file and every initial buffer, the segments searched are exactly the non-empty lines if and only if the file is Lossless and no line is too long or cut at the end of a buffer |
| GrepBuffer.IntactIff | syscalls/ece391grep.c:33-39 | The condition on the file is the one on the buffers: a scan moves every kept line whole if and only if the file is Lossless |
| GrepBuffer.GrepPrintsMatchingLines | syscalls/ece391grep.c:20-60 | On such a file the output is exactly the lines that contain the search string, whole, once each and in order, if and only if those lines hold no NUL and the string is not empty and starts below 0x80, or no line contains it |
| GrepLines.ReportIsMatchesIff | syscalls/ece391grep.c:40-51 | For any lines the report is never longer than the matching lines printed whole, and equal to them exactly when every line that contains the string is hit and holds no NUL |
| GrepLines.HighByteMissed | syscalls/ece391grep.c:43-44 | The one-byte string 0xC3 is not found in a line that is that byte |
| GrepLines.LinePrinted | syscalls/ece391grep.c:40-51 | Line by line, in bytes: a line is printed, up to its first NUL and behind name and colon, exactly when the string is a slice of it that starts below 0x80, or is empty and the line holds a NUL |
| GrepLines.CutOfLine | syscalls/ece391grep.c:28-57 | A line of any length is searched in consecutive pieces of 1024 bytes, followed by what comes after it |
| GrepBuffer.NulFreeLossless | syscalls/ece391grep.c:33-39 | A file without NUL is Lossless |
| GrepBuffer.NulLosesBytes | syscalls/ece391grep.c:33-39 | A five-byte file with a NUL in its last line, on which a byte is never searched and another is searched twice |
| Bytes.JoinOfSplit | syscalls/ece391grep.c:30-32 | Lines is a right way to cut: its pieces hold no newline and give the text back when joined by newlines |
| Bytes.SplitOfJoin | syscalls/ece391grep.c:30-32 | It is the only one: newline-free pieces joined by newlines are cut back into themselves |
| GrepLines.StaleNewlineSplitsLine | syscalls/ece391grep.c:33-39 | With a newline after the buffer, one family of files: the second of two short lines is searched in two halves when the end of the buffer falls inside it |
| Blink.BlinkClosedForm | fish/blink.S:58-90 | k ticks after its add a node's status and countdown are given by k modulo its period, for all 16-bit lengths |
| Blink.AddLinks | fish/blink.S:140-162 | Linking a located node in a free slot keeps the NEXT chain acyclic and covering exactly the used slots, with the node at the front |
| Blink.RemoveUnlinks | fish/blink.S:206-223 | Bypassing and clearing the k-th slot removes exactly the k-th node and keeps the chain well formed |
| Blink.UpdateKeepsLinks | fish/blink.S:267-275 | Rewriting timing fields in place changes one node of the sequence and no link |
| Blink.ChainUnique | fish/blink.S:58-90 | The pointers determine the chain: two descriptions of the same pool agree |
| Blink.FreeSlotIffRoom | fish/fish.c:161-171 | A free slot exists exactly when fewer than 2000 nodes are listed |
| Blink.AddKeepsListIffLocated | fish/blink.S:131-162 | A successful add keeps the list well formed if and only if its location is not 0 |
| Blink.ZeroLocationMakesCycle | fish/blink.S:140-162 | After an add at location 0 the next add links the same slot to itself |
| Blink.AddMeans | fish/blink.S:131-162 | An add changes anything exactly when the location is below 2000 and fewer than 2000 nodes are listed; then the node comes first, with status 1 and its on length as countdown, and one byte of the screen changes |
| Blink.RemoveMeans | fish/blink.S:200-223 | A remove changes anything exactly when some node is at the location; then the newest there goes, wherever it stands, and all others stay in order |
| Blink.SyncMeans | fish/blink.S:248-294 | A sync changes anything exactly when both locations are occupied; then the newest node at the second takes lengths, countdown and status of the newest at the first, keeps the rest, and its off character is shown |
| Blink.TickNodeMeans | fish/blink.S:64-86 | One tick of one node in 16-bit arithmetic: the countdown falls by one, and unless it is then positive as a signed number the status bit flips and the other length is loaded |
| Blink.TickMeans | fish/blink.S:58-90 | A tick ticks every node once in place, writes in each cell the other character of the last node that expires there, and changes no other byte, attributes included |
| BlinkList.List.constructor | fish/fish.c:21-28 | The cleared pool is the empty list |
| BlinkList.List.Malloc | fish/fish.c:161-171 | Returns the lowest free slot, or null when there is none |
| BlinkList.List.PokeCell | fish/blink.S:43-47 | Writes one character cell and nothing else |
| BlinkList.List.Add | fish/blink.S:105-184 | Succeeds exactly when the location is below 2000 and a slot is free, then pushes the node, on and with a full countdown, at the front and shows its on character |
| BlinkList.List.FindHelper | fish/blink.S:351-379 | Finds the most recently added node at a location, or null exactly when there is none |
| BlinkList.List.Find | fish/blink.S:302-349 | Copies out the newest node at the location, and fails exactly when there is none |
| BlinkList.List.FindPrevious | fish/blink.S:206-212 | The walk over links ends at the one that points to the node |
| BlinkList.List.Remove | fish/blink.S:187-237 | Returns 0 exactly when some node is at the location and then takes out the newest there and frees its slot; otherwise changes nothing |
| BlinkList.List.Sync | fish/blink.S:240-300 | Returns 0 exactly when some node is at each location and then copies the timing of one to the other and shows the other's off character; otherwise changes nothing |
| BlinkList.List.TickOne | fish/blink.S:64-89 | Counts one node down, flips it when it expires, and pokes its new character |
| BlinkList.List.Tick | fish/blink.S:49-99 | Advances every node exactly once and pokes exactly the expired ones, in list order |
| BlinkRuns.Run | fish/blink.S:101-103 | Over every run the links stay well formed and the list behaves as the sequence if and only if no add at location 0 goes through; the first such add, where the run stops, leaves a pool that no chain describes |
| BlinkRuns.AttributesStay | fish/blink.S:43-47 | No run of the operations changes an attribute byte of video memory |
| BlinkRuns.NodeAfterRun | fish/blink.S:58-90 | Whatever a run does to other nodes, an untouched node is its old self advanced by the ticks of the run |
| BlinkRuns.TouchesMeans | fish/blink.S:187-300 | The node that a remove or a sync touches is the newest at its location |
| BlinkRuns.AddedNodeBlinks | fish/blink.S:135-138 | Over any run, a node that is never synced or removed is at the phase given by the ticks since its add |
| BlinkRuns.SyncedNodesStayInStep | fish/blink.S:267-275 | A node synced to another has the same status and countdown on all later ticks until a sync or removal touches either |
| BlinkRuns.PokedCells | fish/blink.S:64-86 | A tick leaves each cell with the flipped character of the node there if it expired, and untouched otherwise |
| BlinkRuns.PlainRunFaithful | fish/blink.S:60-223 | With locations apart and no sync, after any run every live cell shows on or off as its status says |
| BlinkRuns.SyncFaithfulIff | fish/blink.S:277-285 | A sync leaves the screen right if and only if the copied status is off or both characters are equal |
| Fish.AddFrames | fish/fish.c:79-149 | The requests are one for each cell that is not blank in both files, in row-major order, and the merge terminates |
| Fish.MergeRow | fish/fish.c:100-131 | One row issues exactly the requests of its two padded lines and leaves the rows below unread |
| Fish.Reader.Advance | fish/fish.c:103-109 | Reads the next character of the row, or turns to newline once at its end and then reads no more |
| Fish.Reader.NewRow | fish/fish.c:133-138 | Starts the next line, or stays at newline after the end of the file |
| Fish.OverlayCells | fish/fish.c:123-128 | A request is issued if and only if it is that of some cell not blank in both files, at 80 * row + column + 40 as a 16-bit value, with the characters of the two files there |
| Fish.OverlayIsCells | fish/fish.c:100-138 | The requests, one by one, are those of the cells that are not blank in both files, each once, in strictly increasing order of row and column |
| Fish.CellsDetermine | fish/fish.c:100-138 | Only one list of requests is like that |
| FishShow.AddAll | fish/fish.c:123-128 | Loading accepted requests puts all of them on the list, last one first, and shows the last one of each cell |
| FishShow.RefusedAddsChangeNothing | fish/blink.S:105-133 | Requests outside the screen, or beyond the 2000 slots of the pool, leave list and screen as they are |
| FishShow.LoadingKeepsListIff | fish/fish.c:123-128 | Loading keeps the list well formed if and only if no accepted request has the 16-bit location 0 |
| FishShow.FramesShow | fish/fish.c:36-44 | For any two files, what every cell of the screen shows k ticks after loading them: the on character of its last request until the first flip, then the character of its first request that the phase calls for, and its old character when no request names it |
| FishShow.AlternatesIff | fish/fish.c:36-44 | A request shows the first file for 15 ticks of every 30 and the second for the other 15, at all times, if and only if the last request of its cell has its on character and the first one both of its characters |
| FishShow.FramesAlternateIff | fish/fish.c:36-44 | All requests of two files alternate so if and only if any two that name one cell are the same |
| FishShow.Show | fish/fish.c:28-44 | Merging two files and ticking the list in memory leaves that screen if and only if no accepted request has the 16-bit location 0; otherwise no chain describes the pool |
| FishShow.WideFramesCollide | fish/fish.c:123-128 | A line of 81 columns: its last character and the first one of the next row name one cell |
| FishShow.AlternatesIffNarrow | fish/fish.c:36-44 | All requests of all pairs of files of a given width, up to 818 rows, alternate if and only if that width is at most 80 columns |
| Layout.RowsAppend | student-distrib/lib.c:292-326 | Laying out one more character changes the last row only, whatever came before |
| Layout.PlainRows | student-distrib/lib.c:300-320 | Row r of text without line breaks holds its characters 80 r to 80 r + 79 |
| Layout.RowsAtBreak | student-distrib/lib.c:293-299 | A newline or a carriage return ends the row: the layout is that of what stands before it, followed by that of what stands after |
| Layout.PutShows | student-distrib/lib.c:292-326 | One putc on the last 25 rows of a layout gives the last 25 rows of the longer layout |
| Layout.PutMeans | student-distrib/lib.c:292-326 | One character on any screen, cell by cell, with the cursor and the scroll |
| Layout.TextShows | student-distrib/lib.c:273-326 | From a cleared screen any text leaves exactly the last 25 rows of its wrapped layout and the cursor at its end |
| Layout.EraseUndoesPut | student-distrib/lib.c:61-92 | Backspace after a printable character gives the screen before it with that cell blanked, or, when the character scrolled, the blanked screen moved up with the cursor at column 79 of row 23 |
| Layout.EraseMeans | student-distrib/lib.c:61-92 | Backspace on any screen: nothing at the origin, otherwise the cell before the cursor is blanked, across rows too, and the cursor stands on it |
| Console.Terminal.Clear | student-distrib/lib.c:125-136 | From any memory contents: blank cells, standard attributes, cursor at the origin |
| Console.Terminal.ShiftDown | student-distrib/lib.c:100-116 | Screen and shadow move up one row with a blank last row |
| Console.Terminal.Putc | student-distrib/lib.c:292-326 | Keeps screen and shadow equal, attributes at 7 and the cursor on the screen, and writes, wraps or scrolls as specified |
| Console.Terminal.Puts | student-distrib/lib.c:273-283 | Puts every character and returns the length |
| Console.Terminal.ClearAndPuts | student-distrib/lib.c:125-326 | The screen after clear and puts is the last 25 rows of the text's layout |
| Console.Terminal.Backspace | student-distrib/lib.c:61-92 | Erases one cell backwards, also across rows, and for a key press only when something was typed |
| Console.Session | student-distrib/lib.c:61-326 | After clear and any run of characters, backspaces and scrolls: screen equals shadow, attributes 7, cursor in 80x25, and the screen is what the run spells out on a blank one |
| Numbers.Itoa | student-distrib/lib.c:337-395 | Leaves the text of the number, NUL-terminated, and touches nothing else |
| Numbers.UserItoa | syscalls/ece391support.c:49-103 | The user-space conversion leaves the same text |
| Numbers.WriteDigits | student-distrib/lib.c:353-366 | The digit loop writes the digits least significant first |
| Numbers.Swap | student-distrib/lib.c:379-395 | Reverses the string in place |
| Numbers.Strlen | student-distrib/lib.c:404-412 | Counts the characters before the NUL |
| Numbers.TextValue | student-distrib/lib.c:337-370 | The text is a numeral without leading zero whose positional value is the number, for radix 2 to 36 |
| Numbers.DigitCharacters | student-distrib/lib.c:340 | The digits are the characters 0 to 9 and A to Z in that order |
| Numbers.NumeralIsText | student-distrib/lib.c:337-370 | It is the only such numeral: any numeral is the text of its value |
| Numbers.TextFits | student-distrib/lib.c:337-370 | A 32-bit number takes at most 32 digits, and at most 8 in hexadecimal |
| Numbers.PrintHexPadded | student-distrib/lib.c:190-209 | %#x prints exactly 8 hexadecimal digits whose value is the number |
| Numbers.PrintSigned | student-distrib/lib.c:222-235 | %d prints the sign and the magnitude for every 32-bit integer, the smallest included |
| Memory.Memset | student-distrib/lib.c:423-460 | Fills exactly the range, for every alignment and length |
| Memory.Memcpy | student-distrib/lib.c:524-564 | Copies the source as it was, for every alignment and length, whenever the destination does not begin inside the source |
| Memory.Memmove | student-distrib/lib.c:576-597 | Copies the source as it was, for every overlap |
| Image.FileAt | student-distrib/filesys.c:128-137 | The address read_data computes holds byte i of the concatenated blocks, inside the image |
| Image.FileByteAddress | student-distrib/filesys.c:111-137 | In bytes of the image: the length is the first word of the inode, the block numbers follow it, and byte i lies in block i / 4096 behind the inodes |
| Image.WordBytes | student-distrib/filesys.c:23-37 | Words are little-endian |
| Image.EntryBytes | student-distrib/filesys.h:8-13 | Entry i is 64 bytes from 64 (i + 1) on: 32 of name, then type and inode |
| FileSystem.FileSys.constructor | student-distrib/filesys.c:23-37 | Reads the three counts and resets the directory cursor |
| FileSystem.FileSys.ReadData | student-distrib/filesys.c:111-141 | Copies exactly the slice from the offset to the end of the request or of the file, leaves the rest of the buffer alone and returns the length; -1 exactly for a bad inode |
| FileSystem.FileSys.ReadDentryByName | student-distrib/filesys.c:43-76 | Returns the size and entry of the first file of that name, and -1 exactly when there is none or the name is over 31 characters |
| FileSystem.Strncmp | student-distrib/lib.c:613-631 | Zero exactly when the name field holds that C string |
| FileSystem.Strncpy | student-distrib/lib.c:663-678 | Copies the string and pads with zeros |
| FileSystem.FileSys.DirRead | student-distrib/filesys.c:173-188 | Delivers the next padded name, or 0 at the end and starts over |
| FileSystem.ListDirectory | student-distrib/filesys.c:84-99 | Successive reads deliver every name in order, then the end, with period entries + 1 |
| FileSystem.ListedNameIsFound | student-distrib/filesys.c:43-76 | Every listed name of at most 31 characters is found, at its first entry |
| FileSystem.ReadAll | student-distrib/sys_call.c:504-510 | Reads of any positive sizes rebuild the whole file, and 0 comes exactly at the end |
| Descriptors.Process.Open | student-distrib/sys_call.c:265-321 | Takes the lowest closed slot of 2 to 7 and fails exactly when there is none or the name is unknown, changing nothing then; type 2 gives the file at its start, 1 the directory, 0 the clock |
| Descriptors.OpenThenRead | student-distrib/sys_call.c:265-343 | Opening a name and reading n bytes, told by the type word of its entry: a file delivers its first n bytes, the directory and the clock none, and no other descriptor changes |
| Descriptors.Process.Read | student-distrib/sys_call.c:330-343 | Refuses 1, bad and closed descriptors; otherwise acts on that descriptor only, and records something exactly for a regular file; a directory entry takes 32 bytes, however few are asked for |
| Descriptors.Process.ReadRegular | student-distrib/sys_call.c:504-510 | Delivers the next bytes of the file and advances by as many |
| Descriptors.Process.Close | student-distrib/sys_call.c:373-385 | Closes an open descriptor of 2 to 7 and nothing else |
| Descriptors.Recorded | student-distrib/sys_call.c:265-385 | One call keeps, for every other descriptor, that what it delivered is the beginning of its file |
| Descriptors.CallDelivers | student-distrib/sys_call.c:265-385 | Any one call keeps every descriptor tracked by the history extended with the events of that call |
| Descriptors.OpenFileDelivers | student-distrib/sys_call.c:265-385 | After any calls, a descriptor closed before them and now an open regular file has delivered, since its last open, exactly the first pos bytes of the file it was opened as |
| Descriptors.Interleave | student-distrib/sys_call.c:265-385 | Over any interleaving the table moves as specified, the callers see exactly the events the calls spell out, 0 and 1 stay open and the bytes delivered through each open file since its open are exactly a prefix of the file it was opened as |
| Paging.MasksFindBlock | student-distrib/sys_call.c:395-411 | For any stack pointer in an 8 KB block both masks keep the same offset in 4 MB, under directory entries 31 and 3 |
| Paging.BlocksApart | student-distrib/sys_call.c:193-200 | The seven blocks are pairwise disjoint, above the video page and below the kernel |
| Paging.FramesApart | student-distrib/paging.c:121-123 | Program frames are pairwise disjoint and above the kernel |
| Paging.FrameAddress | student-distrib/paging.c:121-123 | Program i lies at 8 MB plus 4 MB for each before it, its stack block at 128 MB less 8 KB for each up to it |
| Paging.ProgramEntryMaps | student-distrib/paging.c:125-128 | The OR-assignment gives the same entry on a fresh directory and on a reused one, and it maps the slot's frame |
| PageTables.Tables.Init | student-distrib/paging.c:27-59 | The boot directory is the identity above the kernel, every process directory is empty, and page 0 is not present |
| PageTables.Tables.NewPde | student-distrib/paging.c:86-133 | For any entry point: takes the lowest free slot of 0 to 6, fails exactly when all seven are used, never takes slot 7, and gives the exact new directory of that slot; in it the video page still maps to itself if and only if the entry point is not in 0-4 MB, the kernel if and only if not in 4-8 MB, the two PCB masks meet if and only if not in 12-16 or 124-128 MB, and all directories stay as described if and only if it is in 128-132 MB |
| PageTables.Tables.MasksMeetIff | student-distrib/paging.c:125-128 | In a directory where the entry point selected entry e, the two masks of every stack pointer lead to the same place if and only if e is neither 3 nor 31 |
| PageTables.Tables.RemovePage | student-distrib/paging.c:17-19 | Frees exactly that slot and keeps every directory |
| PageTables.Tables.Vidmap | student-distrib/sys_call.c:430-465 | Changes entry 12 of one directory and entry 1 of the page table, or nothing when the pointer is refused |
| PageTables.Tables.ChangePte | student-distrib/paging.c:167-170 | Changes one page table entry |
| PageTables.Run | student-distrib/paging.c:17-133 | Every run of the paging operations hands out slots lowest first and leaves slot 7 free, and keeps every directory as described if and only if no program outside 128-132 MB takes a slot; at the first that does, it stops |
| PageTables.Tables.LowWindows | student-distrib/paging.c:51-56 | In every reachable process directory the stack window and its low alias translate to the first 4 MB |
| PageTables.Tables.MasksAgree | student-distrib/sys_call.c:135 | For any stack pointer in any block, in every reachable process directory, the two masks name the same physical PCB |
| PageTables.Tables.MasksDifferAtBoot | student-distrib/paging.c:39-43 | In the boot directory they name different ones |
| PageTables.Tables.LiveWindows | student-distrib/paging.c:97-128 | A live program sees its own frame in its window and the kernel at 4 MB |
| PageTables.Tables.ProgramsIsolated | student-distrib/paging.c:121-128 | No two live programs reach the same physical address through their windows, nor the kernel or a stack block |
| PageTables.Tables.VidmapReachesScreen | student-distrib/sys_call.c:444-458 | The address handed out reaches video memory from user mode; address 0x1000 of every live process reaches it too, in supervisor mode and not in user mode |
| PageTables.Tables.BootLowMemory | student-distrib/paging.c:45-59 | At boot the null page faults and the video page maps to itself |
| PageTables.Tables.BootIdentity | student-distrib/paging.c:39-43 | At boot every address from 4 MB on is its own translation |
| PageTables.Tables.PageShows | student-distrib/paging.c:167-170 | A page of the low 4 MB shows the page its entry was changed to |
| PageTables.Tables.KernelIsSupervisors | student-distrib/paging.c:97-128 | A live program may use its own window and not the kernel's 4 MB |
| Processes.Kernel.Execute | student-distrib/sys_call.c:108-215 | For any name and any file: fails exactly when the file is missing or no executable, or seven processes are live; overruns exactly when the file is larger than the room on the caller's kernel stack above its PCB; strays exactly when the entry point selects directory entry 0, 1, 3 or 31; otherwise pushes the caller's registers and keeps slots 0..d-1 live with the last one running |
| Processes.Kernel.Launch | student-distrib/sys_call.c:179-215 | With a good file: fails exactly with seven live processes, strays exactly on a directory entry the kernel needs, and otherwise pushes the caller |
| Processes.OutcomeMeans | student-distrib/sys_call.c:159-181 | When an execute starts, fails, overruns the stack or strays, each exactly, from the file, its verdict, the room, the depth and the top ten bits of the entry point |
| Processes.SevenFit | student-distrib/paging.c:92-95 | From boot, k executes in a row of whole, window-linked files that fit leave min(k, 7) processes, and exactly those after the seventh fail |
| Processes.HaltUndoesExecute | student-distrib/sys_call.c:21-72 | A halt takes back the execute before it |
| Processes.Kernel.TakeSlot | student-distrib/sys_call.c:179-180 | With slots 0..d-1 live the new slot is d, or none when d is 7, and the directories keep what the kernel needs if and only if the entry point does not stray |
| Loader.FindFile | student-distrib/sys_call.c:159-162 | The lookup finds the file a name stands for, and its size |
| Loader.MissingMeans | student-distrib/filesys.c:43-68 | No file is found exactly when the name has over 31 characters or no entry has it |
| Loader.FindMeans | student-distrib/filesys.c:54-76 | Otherwise it is the file of the inode that the first such entry names |
| Loader.CheckContents | student-distrib/sys_call.c:164-177 | Reading magic number and entry point gives the verdict that the contents of the file spell out |
| Loader.VerdictMeans | student-distrib/sys_call.c:169-177 | The verdict byte by byte, from the file and the stack bytes that complete it |
| Loader.DecidedIff | student-distrib/sys_call.c:164-177 | The verdict on a file does not depend on what the stack held if and only if the file has at least 28 bytes or differs from the magic number as far as it goes |
| Loader.WholeHeader | student-distrib/sys_call.c:164-177 | A file of at least 28 bytes runs exactly when it starts with the magic number, at the word at byte 24 |
| Loader.BareMagicRunsAnywhere | student-distrib/sys_call.c:169-177 | The four bytes of the magic number alone run at whatever address the stack holds |
| Loader.PcbSurvivesIff | student-distrib/sys_call.c:164-166 | The caller's PCB survives the reading of every file of a size, whatever it holds, if and only if the size is not over the room above it |
| Loader.OverrunSetsProcId | student-distrib/sys_call.c:164-166 | A file that reaches the caller's proc_id gives it the value of four of its own bytes |
| Processes.Kernel.Halt | student-distrib/sys_call.c:21-72 | Shuts down exactly for the root; otherwise resumes the process that executed the halting one, with the registers it had then |
| Processes.Kernel.SwitchToParent | student-distrib/sys_call.c:43-65 | Finds the parent through its stored pointer, moves to its directory and scheduler entry, and reads the same PCB again from there |
| Processes.Kernel.PcbOf | student-distrib/sys_call.c:395-411 | Either mask of any stack pointer in a block leads to that process's PCB under any process directory |
| Processes.Kernel.Ancestors | student-distrib/sys_call.c:212-215 | Following the stored pointers from the running process visits d-1 down to 0 |
| Processes.Run | student-distrib/sched.c:214-241 | Over every run of executes and halts, until one strays, overruns the stack or halts the root, the kernel is a stack: the callers are those pushed and not yet popped, the live slots are 0..d-1 and the active process is d-1; programs linked at 128-132 MB never stray and keep every directory as described |
| Words.SplitJoinSplit | syscalls/ece391emulate.c:76-157 | Splitting a command, joining its arguments and splitting again gives the same words, at most 512 of them |
| Words.CommandIsWords | syscalls/ece391emulate.c:76-100 | For every command, name and arguments are the words between its spaces and newlines, up to the first newline that follows a space or another newline |
| Words.PlainCommandIsWords | syscalls/ece391emulate.c:76-100 | Without newlines they are the non-empty pieces between spaces |
| Words.ArgumentsOfLine | syscalls/ece391emulate.c:87-98 | The arguments stop at the first newline where a word would start |
| Words.ArgumentsOfJoin | syscalls/ece391emulate.c:131-157 | Cutting words joined by single spaces gives them back |
| Words.ArgumentsBetweenSpaces | syscalls/ece391emulate.c:87-98 | Without newlines the arguments are exactly the non-empty pieces between spaces |
| Emulator.SplitCommand | syscalls/ece391emulate.c:67-100 | Refuses commands over 1023 characters; otherwise every pointer leads to its word as a C string in the rewritten buffer, and the table never overflows |
| Emulator.TakeName | syscalls/ece391emulate.c:78-86 | The name is cut at the first separator and becomes the first string, behind its "./" |
| Emulator.TakeWord | syscalls/ece391emulate.c:94-97 | One word becomes a C string in place, with its pointer stored, and what is left to cut is everything past its separator |
| Emulator.ParseArguments | syscalls/ece391emulate.c:87-98 | The loop finds exactly the argument words and never disturbs one already found |
| Emulator.GetArgs | syscalls/ece391emulate.c:131-157 | Succeeds exactly when the joined text is shorter than the buffer, then holds that text and its NUL; byte nbytes becomes NUL exactly when some word overfills the buffer, and is otherwise unchanged |
| Words.OverfillsMeansTooLong | syscalls/ece391emulate.c:141-151 | When a word overfills the buffer the joined text does not fit it, so the call fails |
| Words.OverfillsMeans | syscalls/ece391emulate.c:138-145 | A word overfills the buffer exactly when the joined text of the words up to it is as long as the buffer |
| Words.FourLettersOverfillFour | syscalls/ece391emulate.c:138-145 | A four-letter argument overfills a buffer of four |

## Left out

- Port I/O and hardware setup (`i8259.c`, `rtc.c`, `kernel.c`, `boot.S`, `x86_desc.*`), exception handlers and the system call entry stub.
- Context switching between terminals (`do_events`, `switchTerm`, `run_proc`) and the value `new_process` stores in `bg_term`.
- The keyboard line buffer and `read_terminal`: only the count of typed characters that guards a backspace is modelled; reads of a terminal or of the clock return a value from outside the model.
- Opening, closing and the error messages of grep, and its directory loop; the halt of fish when a frame file cannot be opened.
- The screen after a blink sync is modelled only up to the node's next flip.
- Raw ESP movement inside `execute` and `halt`: a stack pointer is assumed to lie in the running process's 8 KB block; segment and TSS registers are not modelled.
- Copying the program image into its frame, the 20-byte command copy that `execute` takes its name from, and the kernel's own `getargs`.
- Images with bad inode or block numbers.
- The rest of `printf`, `memset_word`, `memset_dword`, `test_interrupts`.
- `fork`, `execv`, `mmap` and directory emulation, and the small demo programs.
- Memory.Memcpy: says nothing about a destination that begins inside the source, which the routine does not promise to handle.
- BlinkRuns.Run: stops at the first successful add at location 0, after which the pool is no list.
- PageTables.Run: stops at the first program outside the 128-132 MB window; `NewPde` says what is left then.
- Processes.Run: stops at the first program that strays or overruns the stack, after which nothing is said of the kernel.
- Processes.Kernel.Execute: puts no bound on the file of the first program, which runs before there is a PCB to overwrite.
- The file name reaches `execute` in the model already cut from the command line.
- Descriptors.Process.Read: takes the result of a device read as a parameter.
