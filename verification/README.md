# A verified model of the RedOS kernel core

RedOS is a small 32-bit x86 kernel. This project models the parts of it that are hard to get right and
proves what they promise:

- **Paging** (`FrameBitmap`, `PagingModel`, `PagingInvariant`, `PagingTheorems`, `PagingDiscipline`,
  `PagingBoot`, `PagingHistory`, `PagingKernel`). The frame bitmap, the page tables built on demand in frames the same allocator hands
  out, the TLB, and the boot tables, as one machine. Page tables are frames of physical memory, and the
  code's own loads and stores go through the translation those tables define. The hardware may cache any
  present translation or drop any entry between operations, between the link of a new table and the store
  of an entry, and between that store and the flush; what it does is a parameter (`TlbEvent`). The main
  results are an invariant kept by every disciplined run of any length (`RunKeeps`), and that such a run
  does what a machine without memory does, which has a map from pages to frames and flags and three sets
  (`RunSimulates`). The code in class `Machine` is shown to perform exactly those runs (`ExecuteAll`).
- **Terminal** (`ByteMemory`, `Document`, `Placement`, `Terminal`). The 80x25 text screen, scrolled in place
  by an overlapping `memmove`, is at all times the 25-row window of a document that never scrolls, and
  `TextPlaced` says of every byte of every text in which cell of that document it ends up. The serial
  stream of terminal, `putchar` and `printf` is characterised for every setting of their flags, byte by byte.
- **Formatting** (`Numerals`, `Pieces`, `Formats`, `Meanings`, `Formatters`, `Printing`, `DebugLog`). `vsnprintf`,
  which fills a bounded buffer one character at a time, and `printf`, which prints chunks to the terminal,
  are each tied to a rendering function, and the two renderings to each other: `AlikeExact` says, from the
  format literal alone, on which formats they agree. `Meanings` says what each conversion prints by its
  characters and the value they spell. `Printf` is followed to the cells of the screen and
  the bytes on COM1. Log lines and the hex dump stay in their buffers.
- **Multiboot2** (`Multiboot`). The tag walk, in any memory, and that it inverts the layout of the
  information structure.

Words are bounded integers (`uint32`); `Bits` shows once that each mask and shift the kernel uses is a
quotient or a remainder.

## What a client of the paging code must do

`Disciplined` collects what the code expects and does not check. A client maps and unmaps only outside
directory slots 0, 768 and 1023, frees only frames it got from `kmalloc_physical_page` and still holds,
and writes only to frames it holds. A frame that has to be zeroed must lie in the first 4 MB, because
`P2V` reaches no further while the bitmap covers 64 MB; `BudgetSuffices` shows that this takes care of
itself as long as fewer than 1024 frames are in use whenever a frame may be needed.

Where the discipline is broken the results say exactly what is lost. For every address, `MapExact` and
`UnmapExact` say which calls keep the whole invariant, and `FreeExact` says it of freeing. The lemmas per
slot add when the TLB alone stays coherent, in slots 0 and 768 (`SharedTableMap`, `SharedTableUnmap`) and
in slot 1023 (`RecursiveMap`, `RecursiveUnmap`), and `TableLost` which frame is leaked when a table is taken
away or replaced. `ZeroMeansFailure` is about frame 0, and `ZeroingReaches` about zeroing frames above
4 MB, with `ZeroingFaults` a run from boot that gets there.

## Where code and documentation differ

- `debug_hex_dump` is documented to dump memory in hex. `vsnprintf` knows no field widths, so `%08x` and
  `%02x` come out as text; `DumpLine` is what is printed, and `DumpTells` says exactly how little it shows.
- `validate_boot` is meant to print base, length and type of each memory map entry. `printf` does not know
  `%08x` and prints the rest of the format as it is; `RegionLine` is what is printed, and `RegionTells` says
  that two entries look alike exactly when their bases have the same upper half.
- `vsnprintf` returns the number of characters stored, not the length the full text would have.
- `get_physical_address` returns 0 for an unmapped page and for physical address 0 alike; the
  specification `Lookup` keeps the two apart.

## Model

| member | source | states |
|---|---|---|
| FrameBitmap.LowestFree | kernel/kernel/paging.c:77-91 | the linear-scan reference: the least clear frame, or none exactly when all are used |
| FrameBitmap.FullExactly | kernel/kernel/paging.c:16-19 | no frame is free exactly when all 16384 are used |
| FrameBitmap.LowestFreePigeonhole | kernel/kernel/paging.c:77-107 | while fewer than n frames are in use the next frame handed out lies below n |
| FrameBitmap.FreedComesBack | kernel/kernel/paging.c:77-116 | after freeing f the next allocation gets the lower of f and the previously lowest free frame |
| FrameBitmap.UsedUpdate | kernel/kernel/paging.c:35-52 | setting or clearing a bit adds or removes that one frame from the used set |
| FrameBitmap.Bitmap.Clear | kernel/kernel/paging.c:163-163 | after the memset no frame is used |
| FrameBitmap.Bitmap.SetFrame | kernel/kernel/paging.c:25-36 | the used set gains the frame of the address, or nothing when it is beyond 64 MB |
| FrameBitmap.Bitmap.ClearFrame | kernel/kernel/paging.c:42-53 | the used set loses the frame of the address |
| FrameBitmap.Bitmap.TestFrame | kernel/kernel/paging.c:60-71 | non-zero exactly for used frames |
| FrameBitmap.Bitmap.FirstFreeFrame | kernel/kernel/paging.c:77-91 | the search that skips full words finds what the linear scan finds, and the all-ones value exactly when nothing is free |
| FrameBitmap.Bitmap.AllocFrame | kernel/kernel/paging.c:97-107 | hands out and marks the lowest free frame, or returns 0 and changes nothing |
| FrameBitmap.Bitmap.FreeFrame | kernel/kernel/paging.c:113-116 | the used set loses the frame of the address, whoever owns it |
| FrameBitmap.Bitmap.CountUsed | kernel/kernel/paging.c:365-372 | the nested counting loop yields the cardinality of the used set |
| PagingModel.EntryWord | kernel/kernel/paging.c:248-248 | the masked and or-ed entry word is frame, flags and present bit side by side |
| PagingModel.AddressSplit | kernel/kernel/paging.c:237-237 | `>> 22` and `(>> 12) & 0x3FF` select the directory slot and the table index of the page |
| PagingModel.P2VAddress | kernel/include/paging.h:41-43 | P2V adds 0xC0000000, wrapping around from 1 GB on |
| PagingModel.AgeExact | kernel/kernel/paging.c:317-319 | between operations the hardware may cache any present translation and drop any entry, and changes nothing else |
| PagingModel.CachedFirst | kernel/kernel/paging.c:317-319 | an access uses a cached translation, even a stale one, before the tables |
| PagingInvariant.AgeCoherent | kernel/kernel/paging.c:317-319 | hardware activity never makes a coherent TLB stale |
| PagingInvariant.LinkLeaf | kernel/kernel/paging.c:136-150 | linking a fresh zeroed table changes no translation but that of the table's own page in the recursive slot, which was absent |
| PagingInvariant.StoreEntry | kernel/kernel/paging.c:248-272 | a store in a client table changes the translation of exactly one page and leaves at most that page stale |
| PagingInvariant.FlushKeeps | kernel/kernel/paging.c:249-273 | the one-page flush restores full coherence whatever the hardware cached in between |
| PagingInvariant.KmallocKeeps | kernel/kernel/paging.c:205-214 | allocation keeps the invariant |
| PagingInvariant.KfreeKeeps | kernel/kernel/paging.c:220-226 | freeing a held frame keeps the invariant |
| PagingInvariant.MapKeeps | kernel/kernel/paging.c:234-253 | mapping, with or without creating a table, keeps the invariant under any TLB activity between its stores |
| PagingInvariant.UnmapKeeps | kernel/kernel/paging.c:259-277 | unmapping keeps the invariant and clears one leaf |
| PagingInvariant.RunKeeps | kernel/kernel/paging.c:124-277 | every disciplined run keeps separation, accounting, the boot entries and TLB coherence at each operation boundary |
| PagingTheorems.WindowAfterRun | kernel/arch/i386/boot.S:144-156 | after every disciplined run each address p below 4 MB is translated to p at p and at 0xC0000000 + p |
| PagingTheorems.RecursiveSlot | kernel/kernel/paging.c:190-192 | 0xFFC00000 + 4096 d + 4 t translates to the entry word that a mapping of page (d, t) would write, and to the directory's own entry for d = 1023 |
| PagingTheorems.RecursiveSlotAfterRun | kernel/kernel/paging.c:190-192 | the recursive slot shows every present table after every disciplined run |
| PagingTheorems.KmallocFresh | kernel/kernel/paging.c:205-214 | a page handed out was reserved, held and used as a table by nobody, is zeroed and below 4 MB; no other frame changes; 0 means that every frame is used |
| PagingTheorems.ZeroMeansFailure | kernel/kernel/paging.c:97-107 | address 0 means "no memory" exactly when frame 0 is used |
| PagingTheorems.FreeExact | kernel/kernel/paging.c:220-226 | freeing keeps the invariant exactly for 0, held frames and frames not in use; reserved and table frames always break it |
| PagingTheorems.Conservation | kernel/kernel/paging.c:97-226 | the used set is the disjoint union of reserved, held and table frames, and its size their sum |
| PagingTheorems.ConservationAfterRun | kernel/kernel/paging.c:97-226 | conservation, with one frame per present client table, after every disciplined run |
| PagingTheorems.MapRefines | kernel/kernel/paging.c:234-253 | on the abstract map from page to frame and flags, a mapping sets one key, plus the new table's own page, or changes nothing when no table frame is left |
| PagingTheorems.UnmapRefines | kernel/kernel/paging.c:259-277 | on the abstract map an unmapping removes exactly one key |
| PagingTheorems.OthersRefine | kernel/kernel/paging.c:205-226 | allocation, freeing, hardware activity and client writes leave the abstract map alone |
| PagingTheorems.LookupRefines | kernel/kernel/paging.c:284-300 | get_physical_address is lookup in the abstract map plus the page offset |
| PagingTheorems.MapThenLookup | kernel/kernel/paging.c:234-300 | any address of a page just mapped looks up to the frame given |
| PagingTheorems.MapThenUnmap | kernel/kernel/paging.c:234-277 | unmapping undoes a mapping: the page is gone and every other page outside the recursive slot translates as before |
| PagingTheorems.RunKeepsMapping | kernel/kernel/paging.c:234-277 | over any disciplined run a page keeps its frame and flags unless that very page is mapped or unmapped |
| PagingTheorems.RunIsolates | kernel/kernel/paging.c:124-277 | over any disciplined run a held frame keeps its contents and owner until its client frees or writes it |
| PagingTheorems.WriteExact | kernel/kernel/paging.c:205-214 | a client's write to a page it holds changes one word of the frame it is translated to, and nothing else |
| PagingTheorems.NoDoubleAllocation | kernel/kernel/paging.c:97-107 | over any disciplined run a held frame is never handed out again before it is freed |
| PagingTheorems.RunKeepsReserved | kernel/kernel/paging.c:124-277 | over any disciplined run no reserved word is written except absent directory entries |
| PagingTheorems.BudgetSuffices | kernel/kernel/paging.c:77-214 | in every run, however many frames it allocates and frees, zeroing stays in the window of P2V as long as each step that may allocate finds fewer than 1024 frames in use |
| PagingDiscipline.SharedTableMap | kernel/kernel/paging.c:248-249 | in slots 0 and 768 a mapping keeps the TLB coherent for all hardware behaviour exactly when it maps the page to the frame it has, and so the whole invariant |
| PagingDiscipline.SharedTableUnmap | kernel/kernel/paging.c:259-277 | in slots 0 and 768 an unmapping always leaves the page's twin stale under some hardware behaviour, and never keeps the invariant |
| PagingDiscipline.DirectoryEditExact | kernel/kernel/paging.c:190-192 | overwriting a directory entry through the recursive slot keeps the TLB coherent for all hardware behaviour exactly when no mapped page of its slot loses its frame |
| PagingDiscipline.RecursiveMap | kernel/kernel/paging.c:234-253 | a mapping in the recursive slot, the directory's own page included, keeps the TLB coherent for all hardware behaviour exactly when every mapped page of the slot finds its frame in the words of the new table, and the whole invariant exactly when it puts back the table that is there |
| PagingDiscipline.RecursiveUnmap | kernel/kernel/paging.c:259-277 | an unmapping in the recursive slot keeps the TLB coherent for all hardware behaviour exactly when it removes a table that maps nothing, and never for the directory's own page; it keeps the whole invariant exactly when the client slot has no table |
| PagingDiscipline.TableLost | kernel/kernel/paging.c:234-277 | taking a client table out of its directory entry, by unmapping it or mapping another frame there, leaks its frame: it stays in use and is neither reserved, nor held, nor a table |
| PagingDiscipline.DirectoryExact | kernel/kernel/paging.c:190-192 | an edit of any directory entry keeps the whole invariant exactly when the entry keeps its table or stays absent |
| PagingDiscipline.UnmapExact | kernel/kernel/paging.c:259-277 | for every address and all hardware behaviour, unmapping keeps the whole invariant exactly in client slots and at recursive pages of absent directory entries |
| PagingDiscipline.MapExact | kernel/kernel/paging.c:234-253 | for every address, frame and flags and all hardware behaviour, mapping keeps the whole invariant exactly in client slots whose table exists or can be created below 4 MB, in slots 0 and 768 for the frame the page has, and in the recursive slot for the table the entry has |
| PagingBoot.BootWalk | kernel/arch/i386/boot.S:136-156 | the boot tables map the first 4 MB at 0 and at 0xC0000000 and nothing else |
| PagingBoot.BootWords | kernel/arch/i386/boot.S:136-156 | the words of the boot directory and table, with flags 3, and no other word changed |
| PagingBoot.InitWords | kernel/kernel/paging.c:190-195 | init_paging stores the recursive entry with flags 3, changes no other word and empties the TLB |
| PagingBoot.ReservationExact | kernel/kernel/paging.c:165-177 | the reservation loops mark exactly low memory and the kernel image, unless the image starts at a higher page offset than it ends, when its last page is missed |
| PagingBoot.BootEstablishes | kernel/kernel/paging.c:159-199 | boot and init_paging establish the invariant from any memory |
| PagingBoot.ImageReserved | kernel/kernel/paging.c:165-177 | for a page-aligned kernel start a frame is reserved exactly when it is in low memory or starts inside the image |
| PagingBoot.BootFromImage | kernel/arch/i386/linker.ld:15-71 | the directory and the boot table, lying in the image, are reserved, so boot establishes the invariant |
| PagingHistory.RunSimulates | kernel/kernel/paging.c:124-277 | a whole disciplined run does to pages, table slots, used and held frames what the same operations do on the machine without memory |
| PagingHistory.LastEditDecides | kernel/kernel/paging.c:234-277 | after a disciplined run a page outside the recursive slot holds what the last mapping or unmapping of it left, or what it held at the start |
| PagingHistory.ZeroingReaches | kernel/kernel/paging.c:211-212 | after a disciplined run, zeroing frame f through P2V hits frame f exactly when f is below 4 MB or the last edit of P2V's page was a mapping to f that got a table; without an edit, when the page was mapped to f at the start |
| PagingHistory.ZeroingFromBoot | kernel/kernel/paging.c:211-212 | from boot on, a frame above 4 MB is zeroed exactly when the client's last edit of P2V's page mapped it to that frame |
| PagingHistory.BootUnmapped | kernel/arch/i386/boot.S:136-156 | after boot no page outside slots 0, 768 and 1023 is mapped, so none that P2V gives for a frame above 4 MB |
| PagingHistory.ZeroingFaults | kernel/kernel/paging.c:205-214 | a run from boot of kmalloc_physical_page alone after which the next frame is 1024 and zeroing it has no translation |
| PagingKernel.Machine.SetupPageTables | kernel/arch/i386/boot.S:136-156 | the store loops leave the boot directory and the identity table, and change no other frame |
| PagingKernel.Machine.ZeroPage | kernel/kernel/paging.c:144-144 | word by word through the window, exactly the one frame becomes zero and the window stays intact |
| PagingKernel.Machine.InitPaging | kernel/kernel/paging.c:159-199 | rebuilds the bitmap, sets the recursive entry through the window and flushes the TLB |
| PagingKernel.Machine.GetPageTable | kernel/kernel/paging.c:124-154 | finds, creates or refuses the table as the specification says, and returns its window address |
| PagingKernel.Machine.MapPageToFrame | kernel/kernel/paging.c:234-253 | the code's stores through the window amount to MapPage, for every slot |
| PagingKernel.Machine.UnmapPage | kernel/kernel/paging.c:259-277 | the code amounts to UnmapPage, for every slot |
| PagingKernel.Machine.GetPhysicalAddress | kernel/kernel/paging.c:284-300 | returns the translation, 0 when there is none, and changes nothing |
| PagingKernel.Machine.KmallocPhysicalPage | kernel/kernel/paging.c:205-214 | the code amounts to AllocPage |
| PagingKernel.Machine.KfreePhysicalPage | kernel/kernel/paging.c:220-226 | the code amounts to FreePage |
| PagingKernel.Machine.FlushTlbEntry | kernel/kernel/paging.c:317-319 | drops the one cached translation |
| PagingKernel.Machine.Boot | kernel/arch/i386/boot.S:119-129 | setup, CR3 load and init_paging establish the invariant and a working window |
| PagingKernel.Machine.Execute | kernel/kernel/paging.c:124-277 | the code of each disciplined operation performs the specified step and keeps the invariant |
| PagingKernel.Machine.ExecuteAll | kernel/kernel/paging.c:124-277 | the code of a disciplined run of any length performs the specified run |
| ByteMemory.MemMove | libc/string/memmove.c:3-14 | for every overlap the destination ends equal to the old source and all bytes before and behind it are unchanged |
| ByteMemory.MemSet | libc/string/memset.c:3-8 | the range holds the low byte of the value and all other bytes are unchanged |
| Document.PutRefines | kernel/arch/i386/tty.c:84-142 | one character keeps the scrolling screen equal to the window of the unscrolled document |
| Document.ControlMoves | kernel/arch/i386/tty.c:86-126 | LF, CR and TAB (10, 13, 9) move the cursor to the next row, to column 0, and four columns on or to the next row, and change no cell |
| Document.PrintableDraws | kernel/arch/i386/tty.c:128-136 | any other character is drawn at the cursor, code in the low byte and colour in the high byte, and nowhere else; the cursor goes on, wrapping after column 79 |
| Document.WindowShows | kernel/arch/i386/tty.c:9-10 | the screen shows the 25 rows of 80 cells that end with the row being written, or the first 25 |
| Document.BlankShows | kernel/arch/i386/tty.c:37-42 | after the clear loop every cell is a space in the terminal's colour |
| Document.ColorChanges | kernel/arch/i386/tty.c:63-65 | a colour change touches no cell and colours the next character |
| Placement.TextPlaced | kernel/arch/i386/tty.c:84-147 | for every text of any bytes the cursor ends where Position says, and every cell holds the last character drawn there in the terminal's colour, or what it held before |
| Placement.DrawnStays | kernel/arch/i386/tty.c:84-147 | in a text without CR every drawn character stays where the cursor was |
| Placement.LinesPlaced | kernel/arch/i386/tty.c:84-147 | printed from the start of a row, character i of line r stands in column i of the r-th row from there |
| Document.TerminalRefines | kernel/arch/i386/tty.c:63-147 | for every sequence of characters and colour changes the screen is the 25-row window of the document |
| Document.WriteRefines | kernel/arch/i386/tty.c:144-147 | the loop of terminal_write shows the window of the resulting document |
| Document.HistoryKept | kernel/arch/i386/tty.c:72-142 | a row once left is never written again |
| Document.TextLands | kernel/arch/i386/tty.c:128-136 | text without control characters lands in consecutive cells from the cursor, wrapping, and nothing before it changes |
| Terminal.ScrollBytes | kernel/arch/i386/tty.c:72-78 | the byte move and byte fill shift the 16-bit cell rows up by one and blank the last with zeros |
| Terminal.CellStore | kernel/arch/i386/tty.c:67-70 | storing the two bytes of an entry changes one cell |
| Terminal.CellBytes | kernel/arch/i386/vga.h:54-56 | the even byte of a cell is the character, the odd one the colour |
| Terminal.SerialStream | libc/stdio/printf.c:16-29 | every text reaches COM1 once, LF as CR LF, if some flag is on and not otherwise, exactly when printf and putchar do not both copy behind a silent terminal |
| Terminal.StreamTwice | libc/stdio/putchar.c:25-34 | with both flags on and the terminal silent the stream is every character twice in a row, each time LF as CR LF |
| Terminal.StreamPairs | libc/stdio/printf.c:16-29 | when one part copies, or the terminal does, every LF on COM1 comes right after an inserted CR, and without these the stream is exactly the text; its length is that of the text and its LFs |
| Terminal.StreamElse | libc/stdio/printf.c:16-29 | with printf and putchar both copying the same holds of the text with every character doubled; with no flag nothing is sent |
| Terminal.ChunksCompose | libc/stdio/printf.c:16-29 | printing in chunks shows and sends what one piece would |
| Terminal.Console.Clear | kernel/arch/i386/tty.c:37-42 | the clear loop leaves the window of the blank document, and 32 and the colour in the two bytes of every cell |
| Terminal.Console.PutEntryAt | kernel/arch/i386/tty.c:67-70 | writes one cell: the character at byte 160 y + 2 x, the colour behind it |
| Terminal.Console.Scroll | kernel/arch/i386/tty.c:72-82 | shifts the rows up, zero-fills the last and moves the cursor up |
| Terminal.Console.PutChar | kernel/arch/i386/tty.c:84-142 | updates the screen as Put says and copies the character to COM1 if enabled, keeping row and column in bounds |
| Terminal.Console.Perform | kernel/arch/i386/tty.c:63-142 | the code of any sequence of characters and colour changes turns the window of a document into the window of the document driven the same way |
| Terminal.Console.Write | kernel/arch/i386/tty.c:144-147 | puts every character in order |
| Terminal.Console.PutCharacter | libc/stdio/putchar.c:20-40 | shows the character and adds putchar's own serial copy |
| Terminal.Console.Print | libc/stdio/printf.c:16-29 | shows the text, sends its stream and never fails |
| Numerals.NumeralRoundTrip | libc/stdio/printf.c:76-106 | parsing a numeral gives the number back and only zero has a leading zero |
| Numerals.SignedRoundTrip | libc/stdio/printf.c:32-73 | parsing a signed numeral gives the number back |
| Numerals.NumeralLength | libc/stdio/printf.c:160-174 | a numeral has at most k digits exactly when the number is below the k-th power of the base |
| Numerals.WordLength | libc/stdio/printf.c:160-195 | 32-bit numbers need at most ten decimal or eight hexadecimal digits |
| Numerals.DigitsReversed | kernel/kernel/debug.c:134-138 | the do-while digit loop, by `% 10` and `/= 10` or by `& 0xF` and `>>= 4`, never cut by its buffer, collects the numeral in reverse: digits, and letters of the case asked for, that spell the value |
| Numerals.DigitCodes | libc/stdio/printf.c:91-91 | digit d is code 48 + d, or 55 + d and 87 + d for upper- and lower-case letters |
| Numerals.HexStep | kernel/kernel/debug.c:197-201 | `& 0xF` and `>>= 4` are the remainder and quotient by 16 of the hexadecimal numeral |
| Numerals.ReverseInPlace | libc/stdio/printf.c:61-69 | the swap loop reverses the digits and touches nothing else |
| Numerals.Utoa | libc/stdio/printf.c:76-106 | leaves the terminated numeral in the 32-byte buffer and returns its length; its characters are 0 to 9 and A to F and spell the number |
| Numerals.Itoa | libc/stdio/printf.c:32-73 | leaves the terminated signed numeral, which parses to the number, and returns its length |
| Pieces.CutIsPrefix | kernel/kernel/debug.c:97-338 | what is stored of a list of pieces is the longest fitting prefix, exactly when no prefixed piece finds one character left or plain text starting with '0' follows it |
| Pieces.NothingLost | kernel/kernel/debug.c:97-338 | with enough room nothing is lost |
| Formats.LongestPrefix | kernel/kernel/debug.c:97-338 | vsnprintf stores the longest fitting prefix of the ideal text, with the exact condition for its starved "0x" conversions |
| Formats.EnoughRoom | kernel/kernel/debug.c:97-338 | a buffer large enough gets the whole ideal text |
| Meanings.ConvertMeans | kernel/kernel/debug.c:120-321 | what vsnprintf prints for each conversion: decimal digits that spell the argument, "0x" and digits a to f for %x and %p (eight of them), A to F for %X, "(nil)", "(null)", the string, the character of code i % 256 |
| Meanings.PrintfConvertMeans | libc/stdio/printf.c:134-235 | what printf prints for each: the same, but A to F for %x, %X and %p and no padding |
| Meanings.ConversionRoom | kernel/kernel/debug.c:173-184 | a conversion is stored as far as it fits, but nothing of an "0x" conversion when one byte is left |
| Meanings.RenderLaws | kernel/kernel/debug.c:97-338 | how vsnprintf's text is composed: characters as they are, "%%" as '%', the eight conversions by their arguments in order, other pairs as they are, a '%' at the end dropped |
| Meanings.PrintfLaws | libc/stdio/printf.c:113-247 | how printf's text is composed; an unknown conversion or a '%' at the end makes the rest of the format come out as it is |
| Formats.ConversionsAgree | libc/stdio/printf.c:134-235 | the two formatters print a conversion alike exactly when it has no lower-case hex letter and no pointer padding |
| Formats.FormattersAgree | libc/stdio/printf.c:113-247 | for one format and one list of arguments, whatever they are, the two formatters agree exactly when every conversion is common, no lone '%' ends the format, and the text after an unknown conversion renders as itself |
| Formats.RendersAsItself | kernel/kernel/debug.c:97-338 | for arguments whose strings and characters do not start with '%', a format renders as itself exactly when every '%' in it starts an unknown conversion |
| Formats.InertRender | kernel/kernel/debug.c:323-334 | a format in which every '%' starts an unknown conversion reads no argument and renders as itself |
| Formats.CalmAgree | libc/stdio/printf.c:113-247 | for such arguments the two formatters agree exactly when the conversions before the first unknown one are common and every '%' from there on starts an unknown one; that is enough for all arguments |
| Formats.AlikeExact | libc/stdio/printf.c:113-247 | the two formatters print a format alike for all matching arguments exactly when it has no %x and no %p before the first unknown conversion and every '%' from there on starts an unknown one |
| Formats.UnknownPortable | libc/stdio/printf.c:236-247 | an unknown conversion with no '%' after it is printed as it is by both |
| Formatters.Vsnprintf | kernel/kernel/debug.c:84-344 | stores Bounded, terminates it at the returned index and touches no other byte; only the arguments of conversions that are reached before the buffer is full need to be there |
| Formatters.StoreConversion | kernel/kernel/debug.c:120-334 | each case of the switch stores what fits of its conversion |
| Printing.Printf | libc/stdio/printf.c:108-251 | prints its rendering and returns its length, or stops with -1 and a prefix when it would exceed 0x7FFFFFFF; what it prints extends the document behind the screen by the codes of its characters and is delivered to COM1 once, twice or not at all, as the flags say; plain text ends up in consecutive cells, code in the low byte and colour in the high byte, and its codes on COM1 when one part copies |
| Printing.ShownDocument | libc/stdio/printf.c:16-29 | printed text drives the document whose window the screen is, and reaches COM1 with LF as CR LF once if some flag is on, twice if printf and putchar both copy behind a silent terminal, not at all otherwise |
| Printing.ChunkRender | libc/stdio/printf.c:116-130 | a literal chunk, however it is scanned, renders as itself |
| Printing.SameOutput | libc/stdio/printf.c:108-251 | on portable formats with enough room printf and vsnprintf give the same characters and count |
| Printing.AlikeOutput | libc/stdio/printf.c:108-251 | on formats that are alike they do so whatever the arguments |
| Printing.RegionLine | kernel/kernel/multiboot.c:87-92 | the line printed for a memory map entry is the upper half of its base followed by the rest of the format as text |
| Printing.RegionTells | kernel/kernel/multiboot.c:87-92 | two memory map entries get the same line exactly when the upper halves of their bases are equal |
| DebugLog.ConvertNoNul | kernel/kernel/debug.c:312-321 | only %c of a multiple of 256 puts a NUL into the text |
| DebugLog.NulStored | kernel/kernel/debug.c:312-321 | a NUL is stored exactly when a %c of a multiple of 256 is reached with room left |
| DebugLog.LineWhole | kernel/kernel/debug.c:354-391 | a log line reaches its reader as prefix, truncated message and CR LF exactly when no %c of a multiple of 256 is reached before the line is full |
| DebugLog.LineCutShort | kernel/kernel/debug.c:354-391 | when one is, the reader gets the prefix and what was stored before it, and no line end |
| DebugLog.LostCharacter | kernel/kernel/debug.c:354-391 | the call ("%c", 256) hands on the level prefix alone |
| DebugLog.Log.FormatAndWrite | kernel/kernel/debug.c:354-391 | the buffer holds prefix, truncated message, CR LF and NUL within 1024 bytes, starting with the prefix of the level, and suppressed levels change nothing; a message without '%' is handed on as prefix, its first 1013 characters and CR LF; the length clamp never acts |
| DebugLog.LevelPrefixes | kernel/kernel/debug.c:18-25 | the five prefixes by level number, and the room they leave for the message |
| DebugLog.PlainLine | kernel/kernel/debug.c:354-391 | the line of a message without '%' |
| DebugLog.Log.Vprint | kernel/kernel/debug.c:445-461 | the buffer holds the truncated message and NUL |
| DebugLog.Append | kernel/kernel/debug.c:472-503 | an append keeps the line position at most 127 and the line terminated, whatever the format and data |
| DebugLog.BuildLine | kernel/kernel/debug.c:467-503 | a dump line is never cut and is exactly DumpLine |
| DebugLog.DumpTells | kernel/kernel/debug.c:472-503 | two rows give the same dump line exactly when they have the same length and the same printable characters: the hex columns show none of the data |
| DebugLog.DumpColumns | kernel/kernel/debug.c:472-488 | the address column and the sixteen columns of a dump line, place by place: format text and spaces |
| DebugLog.DumpCharacter | kernel/kernel/debug.c:490-503 | byte i shows at its place as itself for codes 32 to 126 and as '.' otherwise, between two bars |
| DebugLog.RowHolds | kernel/kernel/debug.c:467-467 | row r shows the bytes from 16 r on |
| DebugLog.Log.HexDump | kernel/kernel/debug.c:464-508 | one whole line for every sixteen bytes |
| Multiboot.LeRoundTrip | kernel/include/multiboot2.h:150-165 | little-endian encoding and decoding are inverse |
| Multiboot.WordBytes | kernel/include/multiboot2.h:150-165 | a word is its four bytes, the lowest first |
| Multiboot.RegionOffsets | kernel/kernel/multiboot.c:87-92 | base, length and type of a memory map entry are read at offsets 0, 8 and 16 |
| Multiboot.WalkRound | kernel/kernel/multiboot.c:42-97 | one round by offsets: type at 0, size at 4, the next tag behind the size rounded up to eight, type 0 ends the walk, and only type 6 has entries, from offset 16 at the distance read at offset 8 |
| Multiboot.InfoStart | kernel/kernel/multiboot.c:33-37 | the structure is looked for 0xC0000000 above an address below 1 GB and at the address itself from 0xC0000000 on |
| Multiboot.InfoReported | kernel/kernel/multiboot.c:39-100 | a structure that lies at the start address is reported with exactly its tags and its declared size |
| Multiboot.RegionsSize | kernel/kernel/multiboot.c:83-85 | n memory map entries take n times entry_size bytes |
| Multiboot.WalkSticks | kernel/kernel/multiboot.c:42-44 | the walk stands still at a tag exactly when its size is 0 or above 0xFFFFFFF8 |
| Multiboot.EntriesDecide | kernel/kernel/multiboot.c:83-93 | in any memory the memory-map loop ends after n rounds that read inside it exactly when Entries lists n entries; with an entry size of 0 it never does |
| Multiboot.WalkDecides | kernel/kernel/multiboot.c:42-97 | in any memory the tag loop ends after n rounds that read inside it exactly when Walk lists n tags |
| Multiboot.EntriesLaidOut | kernel/kernel/multiboot.c:83-93 | the loop reads exactly the memory map entries that were laid out, in order, with their fields |
| Multiboot.WalkLaidOut | kernel/kernel/multiboot.c:42-99 | the walk inverts layout: exactly the tags that were laid out, in order, and it ends behind the END tag |
| Multiboot.InfoLaidOut | kernel/kernel/multiboot.c:39-100 | for a whole structure the walk recovers the tags and the declared total size |
| Multiboot.WalkRegions | kernel/kernel/multiboot.c:83-93 | the code of the memory-map loop reads what Entries lists, in any memory in which it ends |
| Multiboot.WalkTags | kernel/kernel/multiboot.c:42-99 | the code of the tag loop reports what Walk lists, in any memory in which it ends |
| Multiboot.ValidateBoot | kernel/kernel/multiboot.c:15-101 | rejects a magic other than 0x36D76289 or an unaligned pointer, and otherwise reports the walk of whatever is in memory; a structure laid out at addr + 0xC0000000, or at addr from 0xC0000000 on, is reported with its tags and its size |

## Left out

- Port I/O and the UART (kernel/arch/i386/serial.c): COM1 is the sequence of bytes sent to it.
- `switch_page_directory`, `enable_paging`, `disable_paging`: no second directory is ever built.
- Accessed and dirty bits, large pages and the paging-structure caches of the processor: CR4.PSE is off, the TLB caches frames only, and CR3 loads and `invlpg` are "drop all" and "drop one".
- The bitmap is kept beside physical memory rather than inside the kernel image; RunKeepsReserved shows that no modelled store reaches that image.
- PagingKernel.Machine.ReserveRange: the end of the range is at most 0xFFFFF000, because the loop's address would wrap around above it.
- PagingKernel.Machine.ZeroPage: memset stores whole words rather than bytes.
- Formatters.Vsnprintf: the count is a natural number, so the conversion to int of counts above INT_MAX is not modelled; arguments match the conversions that are reached, and signed arguments exceed INT_MIN because negating INT_MIN overflows in C.
- Numerals.Itoa: base 10 only, the one base printf calls it with.
- Printing.Printf: putchar cannot fail, so the branches for a failing print are absent; arguments match the conversions that are reached, and signed arguments exceed INT_MIN.
- Multiboot.ValidateBoot: memory in which the loops do not end, read outside it, or wrap a pointer around 2^32 is excluded, since a call then has no result (WalkDecides says exactly which); the text it prints for each tag is reduced to type, size and memory map entries.
- The banner that `terminal_initialize` prints after its clear loop, and output before the buffer pointer is set.
- Debug target routing (kernel/kernel/debug.c:74-81), level setters, panic, abort, the stack guard, the GDT and the remaining string functions: each is a branch or two.
