# Verification of the kernel's terminal, memory, printing and scheduling code

This project models, in Dafny 4.11, the parts of the kernel with the most state and proves properties of them
over every input and every run.

**The terminal** (`src/flanterm/`). `Framebuffer` is the deferred renderer: a drawn grid, a queue of pending
cells, a map from cells to queue items, and the pixels. Its invariant says that queue and map point at each
other and that the pixels are those of the grid except in one stale cell. The main theorem is the contract of
`DoubleBufferFlush`: drawing only what is pending, and of it only the font dots that differ, and inverting the
cell under the cursor, leaves exactly the pixels that drawing the whole logical screen from scratch would
leave, and what these are is said word by word: the colours that font, cell, cursor and canvas give each one.
`TerminalModel` is the control-sequence machine as a function of bytes with its invariant in every
contract, `TerminalDriver` the same machine in place on top of the renderer; `Terminal.Write` joins the two
theorems. On top of these are proved: what the bytes of every control sequence, escape sequence and control
character do to cells and cursor, in coordinates, and what those of SGR do to the colours; saving and restoring
over any text; confinement to the scroll region, UTF-8 decoding, the round trip of control-sequence parameters,
whole commands, the palette invariant, and exactly when the editing controls do what their standard asks for.

**Memory** (`src/mm/`). The page bitmap, the next-fit allocator over it, and four-level page tables in an array
of words. Mapping and unmapping refine an update of one page of an abstract map. Over runs of operations on any number
of maps, each map's lower half is a map of its own, and the upper half is shared exactly as long as nothing is linked
in its root entries. Every page used is accounted for.

**Bounded printing** (`src/libc/printf.c`). The text of a format is a function; the printer writes it through a
gadget that counts past its limit. Every conversion specification is read as it is written, arguments are used
in order, and what each specifier prints for its argument is given to the character.

**The scheduler** (`src/sched/sched.c`) and **the initial file system** (`initrd/quasfs.c`,
`src/initrd/quasfs.c`): safety and fairness over runs, and a packing and reading round trip.

## Where the code does not meet its purpose

Each of these is proved, with the exact condition where one exists.

- The wrap of a full line clamps the cursor row with the number of columns (`Confinement.ConfinementExact`), and in
  the last row below the region it goes below the screen, where text is lost (`Wrapping.TextStaysExact`).
- CAN and SUB leave the flag of a private sequence, so the next control sequence is taken for a private one
  (`Commands.Cancelled`, `Commands.CancelledPrivate`). The byte after an eight-bit CSI is lost
  (`Commands.EightBitLosesOne`).
- UTF-8 text inside an operating system command is printed (`Commands.CommandPrints`).
- The UTF-8 decoder accepts overlong forms, surrogates and numbers above U+10FFFF (`Utf8.PermittedExact`).
- A full redraw clears a map entry without dequeuing its item (`Framebuffer.FullRefresh`).
- DCH is right only when the gap fits on the line (`EditingForms.DeleteExact`), and ED 0 only when wrapping
  reaches every later row (`EditingForms.EraseBelowExact`), ED 1 only when it reaches the cursor row
  (`ControlForms.EraseAboveExact`). A pending wrap defeats ECH and EL 0, and ECH can spill over the end of the line
  (`ControlForms.EraseCharactersExact`, `ControlForms.EraseLineExact`). EL 1 spares the cursor cell
  (`ControlForms.EraseStartExact`), and ICH of no character erases the rest of the line
  (`ControlForms.InsertCharactersExact`).
- DL deletes from the top of the region instead of the cursor row, also with the cursor outside it
  (`ControlForms.DeleteLinesExact`). IL works above the region and blanks a row below it
  (`ControlForms.InsertLinesExact`, `ControlForms.InsertBelowExact`). CUD from the row below the region moves up into
  it (`ControlForms.CursorDownExact`). Insert mode makes no room for a glyph that wraps
  (`ControlForms.InsertModeExact`).
- RIS leaves the colours and what was saved, so it leads to the state of a new terminal only when these are the
  initial ones (`Escapes.ResetExact`).
- Bright colours of SGR 90 to 97 and 100 to 107 ignore the intensity (`ColourInvariant.AttributeExact`), and the direct
  colours of 38 and 48 leave the colour index (`ColourInvariant.DirectExact`).
- The page bitmap can be one partial page short (`PageAllocator.BitmapCovers`), and an allocation without a
  free run yields a block that sticks out of the memory (`PageAllocator.ScanFinds`).
- A zero-padded field wider than 32 is cut to 32, and its sign can be lost (`PrintfValue.FieldWidth`,
  `PrintfValue.IntegerShape`).
- A kernel mapping made later reaches an existing map only below the entries of the root that were there when the
  map was made (`Isolation.UpperHalfShared`).
- A negative precision among the arguments is taken for zero instead of none
  (`PrintfMeaning.NegativePrecisionExact`).
- A format that ends inside a conversion specification, in flags, width or precision, makes the printer read behind
  the terminator (`PrintfText.CutOffExact`, `PrintfText.PassesTerminator`).
- When the first task dies, its reaping depends on where the scan is: the scan restarts at it without looking, so a
  dead task is dispatched unless the scan gets round to it undisturbed (`Scheduler.FirstMustLive`). A removal from a
  full list reads one slot behind it, so the list stays below 16 tasks (`Scheduler.RemovalInBounds`).

## How the files fit together

`Words` holds the machine integers, `Arithmetic` facts about quotients, `Bits` the bitwise or. `Display` is the logical
screen; `Geometry`, `Pending`, `Shifts` and `Drawing` carry the coordinates, the links, the row shifts and the picture
that `Framebuffer` needs, and `BackendForms` says what the callbacks do cell by cell. `Editing` and `Terminal` are the machine; `Steps`,
`Confinement`, `Wrapping`, `Utf8`, `Parameters`, `Commands`, `Colours`, `EditingForms` and `ControlForms` its theorems,
which `Sequences`, `Escapes` and `Graphics` put together to say what bytes do;
`ControlLoops` and `Driver` its in-place form. `Bitmap`, `PageAllocator`, `PageTables`, `Worlds` and `AddressSpaces` are
the memory and `Isolation` its theorems over runs; `PrintfText` and `PrintfGadget` are the printer,
`PrintfValue`, `PrintfSyntax` and `PrintfMeaning` its theorems;
`Scheduler` and `Initrd` stand alone.

Methods state their new state through a function of the old one, and the lemmas are about these functions. Proofs
that only put contracts together start with `hide *` and get what they need from small lemmas named after the
function they unfold.

The table below starts with the main results; the other rows follow file by file, down to the members that only keep
the invariant or carry out one step in place.

## Model

| member | source | states |
|---|---|---|
| `FramebufferBackend.Framebuffer.DoubleBufferFlush` | src/flanterm/backends/fb.c:657-690 | Incremental drawing equals a full redraw of the logical screen, and every word of the framebuffer has the colour that font, cell, cursor and canvas give it; the logical screen is kept, the grid becomes it, and nothing stays pending |
| `TerminalDriver.Terminal.Write` | src/flanterm/flanterm.c:106-114 | Writing any bytes refines the machine over them, and leaves every word of the framebuffer in the colour that the logical screen gives it |
| `FramebufferBackend.Framebuffer.FullRefresh` | src/flanterm/backends/fb.c:714-741 | Draws the grid from scratch; the links survive exactly unless a pending cell is under the shown cursor |
| `Geometry.SpotToPixel` | src/flanterm/backends/fb.c:341-380 | Every dot of every cell lies on a pixel inside the picture, and that pixel belongs to no other cell |
| `Pending.RoomForOneMore` | src/flanterm/backends/fb.c:428-450 | Pigeonhole: while a cell is unqueued the queue has a free item, so `queue_i` stays below rows * cols |
| `Drawing.DrawnFast` | src/flanterm/backends/fb.c:382-422 | Repainting only differing dots keeps the picture that of the grid, although another cell may be stale |
| `TerminalModel.PutChar` | src/flanterm/flanterm.c:1201-1350 | Every byte keeps the machine invariant: parameter count at most 16, a proper region, cursor at most one past the last column, `g_select` at most 2, at most 3 missing UTF-8 bytes, scrolling enabled, saved cursor in the grid |
| `Confinement.ConfinementExact` | src/flanterm/backends/fb.c:695-705 | All such runs are confined exactly when the region starts above row `cols`, because the wrap compares the row with the number of columns |
| `Wrapping.TextStaysExact` | src/flanterm/backends/fb.c:695-705 | Printable text keeps the cursor on the screen exactly when the region ends with the screen or there are at least as many rows as columns |
| `Utf8.DecodesAll` | src/flanterm/flanterm.c:1214-1255 | The encoding of any list of code points is decoded to exactly that list |
| `Utf8.FormExact` | src/flanterm/flanterm.c:1243-1253 | The sequences for a number are exactly its forms of every length that has room for it |
| `Utf8.PermittedExact` | src/flanterm/flanterm.c:1243-1253 | Of these section 3 of RFC 3629 permits exactly the shortest one, and none for surrogates and above U+10FFFF; the decoder accepts them all |
| `Parameters.RoundTrip` | src/flanterm/flanterm.c:478-524 | A list printed in decimal and joined by semicolons after ESC [ reaches the final byte as its first 16 numbers modulo 2^32, with the default in the rest; nothing is drawn on the way |
| `Commands.Cancelled` | src/flanterm/flanterm.c:1202-1212 | CAN, SUB and a discarded byte end any sequence and change nothing but the parser; they lead to the ground state exactly when no private sequence was cancelled |
| `Commands.TakenAsPrivate` | src/flanterm/flanterm.c:482-529 | While the flag of a cancelled private sequence is left, the next control sequence, whatever it asks for, at most shows or hides the cursor, and ends in the ground state |
| `Commands.PrivateMode` | src/flanterm/flanterm.c:385-417 | ESC [ ? with any parameters and final byte shows or hides the cursor when the first one is 25 and the byte is h or l, does nothing else, and ends in the ground state |
| `Commands.EightBitLosesOne` | src/flanterm/flanterm.c:814-834 | So 0x9b and a text do what ESC [ and the text without its first byte do |
| `Sequences.Moves` | src/flanterm/flanterm.c:536-618 | From the bytes on: where CUU, CUD, CUF, CUB, CNL, CPL, CHA, CUP, HPR, VPA, VPR, HVP and HPA leave the cursor, in coordinates; nothing else changes |
| `Sequences.Edits` | src/flanterm/flanterm.c:619-762 | From the bytes on: L, M, J, @, P, X, K and r do IL, DL, ED, ICH, DCH, ECH, EL and DECSTBM with the first parameters or their defaults |
| `Sequences.Others` | src/flanterm/flanterm.c:711-766 | ESC [ s notes where the cursor is seen, ESC [ u puts it there, ESC [ 4 h and l switch insert mode, and every other final byte does nothing |
| `Escapes.SavedOverText` | src/flanterm/flanterm.c:780-800 | ESC 7, any text without escape sequences, and ESC 8: colours, attributes and cursor are what they were before the text, and the text stays |
| `Escapes.ResetExact` | src/flanterm/flanterm.c:841-844 | So the terminal is like a new one exactly when the colours are the default ones and nothing was saved |
| `GraphicRendition.Renders` | src/flanterm/flanterm.c:116-383 | From the bytes on: SGR changes the colours alone, as its first 16 parameters say, and resets them without any |
| `GraphicRendition.InTurn` | src/flanterm/flanterm.c:120-383 | A list of parameters does what its groups do in sequences of their own, one after another, where 38 and 48 take the mode and its numbers with them |
| `GraphicRendition.AttributeMeans` | src/flanterm/flanterm.c:116-329 | What each parameter does to the attributes and to the colours of text and background, which reverse video exchanges: 39, 49 and 0 lead back to the default ones |
| `ColourInvariant.SgrBytes` | src/flanterm/flanterm.c:116-383 | Feeding such a list as bytes keeps the invariant and draws nothing |
| `ColourInvariant.AttributeExact` | src/flanterm/flanterm.c:116-328 | A parameter other than 38 and 48 keeps every coherent state coherent exactly when it is not a bright colour different from its plain one |
| `EditingForms.DeleteExact` | src/flanterm/flanterm.c:698-707 | DCH does what it should on every screen exactly when `n <= cols - x` |
| `EditingForms.EraseBelowExact` | src/flanterm/flanterm.c:654-663 | It does so on every screen exactly when no wrap is pending and either no row is below or the region ends at the last row with rows at most cols |
| `ControlForms.EraseAboveExact` | src/flanterm/flanterm.c:664-680 | It does so on every screen exactly when the cursor row is above the bottom margin and below the number of columns |
| `ControlForms.EraseLineExact` | src/flanterm/flanterm.c:719-724 | It does so on every screen exactly when no wrap is pending, one-column screens apart |
| `ControlForms.EraseCharactersExact` | src/flanterm/flanterm.c:703-707 | ECH does what it should on every screen of a given size, region and cursor exactly when there is nothing to erase, or the cursor is on the screen and the blanks fit, or are lost because nothing wraps, or wrap onto the same row |
| `ControlForms.DeleteLinesExact` | src/flanterm/flanterm.c:619-623 | DL deletes at the cursor inside the region and does nothing outside it exactly when it is given no line or the cursor is in the first row of the region |
| `ControlForms.InsertLinesExact` | src/flanterm/flanterm.c:624-632 | IL does what it should on every screen exactly when it is given no line or the cursor is in the region; above it, too, it pushes lines down |
| `ControlForms.InsertModeExact` | src/flanterm/flanterm.c:1327-1349 | Insert mode does what it should exactly on the screen and without a pending wrap, or when the row to be shifted is alike from there on |
| `PageAllocator.RunSafe` | src/mm/pmm.c:60-93 | Over any run of calls that succeed, live blocks are pairwise disjoint, and with the free pages make up exactly the initial ones |
| `PageAllocator.ScanFinds` | src/mm/pmm.c:60-74 | The scan stops behind the lowest run of free pages at or after the index, and finds one exactly when there is one; otherwise its block sticks out of the memory |
| `PageAllocator.BitmapCovers` | src/mm/pmm.c:36-37 | The bitmap covers every page exactly when the page count is a multiple of 8 or an eighth of it is not a multiple of 4096 |
| `AddressSpaces.Vmm.Map` | src/mm/vmm.c:121-136 | The page translates to `paddr | flags`, every other translation is as before, one page is used per missing table, and the memory is reached by a run within the map |
| `AddressSpaces.Vmm.MapPages` | src/mm/vmm.c:63-67 | Consecutive pages translate to consecutive physical pages on 64 bits, also when addresses or page numbers come round, where the last write counts; all else is kept; one page is used per missing table |
| `AddressSpaces.Vmm.AllocThenFree` | src/mm/vmm.c:72-97 | Allocating and freeing leaves the pages unmapped and the free pages as they were but for exactly the page-table pages made on the way |
| `Isolation.LowerHalfRefines` | src/mm/vmm.c:99-160 | After any run, a page of the lower half of a live map translates to its last write under that map, to nothing if the map was made since, or as at the start |
| `Isolation.Isolation` | src/mm/vmm.c:99-160 | Whatever run of mappings, unmappings, makings and deletions is done with other maps, a map keeps every translation of its lower half |
| `Isolation.UpperHalfShared` | src/mm/vmm.c:99-109 | A new map shares an entry of the upper half with the kernel map up to the first table linked there in either, and exactly that long; while it does, both translate alike below it |
| `PrintfGadget.Vsnprintf` | src/libc/printf.c:1352-1377 | For every format and size the count is the length of the text (as an int), and the buffer holds its beginning and a terminator; a format that is cut off has no count, and the buffer then holds the beginning of the text up to its terminator |
| `PrintfText.CutOffExact` | src/libc/printf.c:1056-1150 | The printer passes the terminator of a format exactly when a scan of its characters ends in flags, a width or a precision, whatever the arguments are |
| `PrintfSyntax.Printed` | src/libc/printf.c:1047-1350 | A format of letters and specifications prints them in order, and arguments are used in order |
| `PrintfSyntax.SpecRead` | src/libc/printf.c:1056-1150 | Every conversion specification is read as the flags, width, precision, length and specifier it is written with |
| `PrintfMeaning.IntegerText` | src/libc/printf.c:1056-1238 | An integer conversion, from the format on: the argument is read at the length given, in two's complement for d and i, and its digits in base 10, 16, 8 or 2 follow exactly the blanks, sign, prefix and zeros that flags, width and precision ask for, up to 32 characters |
| `PrintfMeaning.StringText` | src/libc/printf.c:1278-1308 | A string conversion prints its argument, cut off at the precision, and blanks on the side asked for; a null pointer prints as (null) |
| `PrintfMeaning.PointerText` | src/libc/printf.c:1310-1319 | A pointer prints as 0x and its lower-case hexadecimal digits, zeros filling 18 columns unless left-adjusted; the null pointer as (nil) |
| `PrintfValue.FieldWidth` | src/libc/printf.c:431-481 | The field has its width exactly when it is left-adjusted, not zero-padded, or at most 32 wide |
| `Scheduler.Run` | src/sched/sched.c:33-122 | The invariant holds after every possible run of interrupts, deaths and births |
| `Scheduler.LivesExact` | src/sched/sched.c:102-122 | From any state with a task at the scan position, no interrupt to come dispatches a dead task exactly when the state is safe: the first task lives, or the scan comes round to it without a restart and the second one lives |
| `Scheduler.FirstMustLive` | src/sched/sched.c:102-122 | After the death of the first task, the next interrupt dispatches it exactly at `cid == 0`, and no interrupt dispatches a dead task exactly when `cid != 0`, no task from `cid` on is dead and the second one lives |
| `Scheduler.Resumes` | src/sched/sched.c:102-122 | A task is resumed with the registers it was last interrupted with, whatever happened in between |
| `Scheduler.StartsAsMade` | src/sched/sched.c:33-122 | A new task starts with exactly the registers and the page map it was made with, whatever happened since |
| `Scheduler.RoundRobin` | src/sched/sched.c:102-122 | While no task is dead the tasks are dispatched in list order, over and over |
| `Scheduler.AllReaped` | src/sched/sched.c:81-122 | Every dead task is unlinked within (dead tasks) * (tasks) interrupts, and the live ones remain in order |
| `Initrd.RoundTrip` | src/initrd/quasfs.c:7-36 | Packing then reading accepts the image and returns exactly the bytes and the length of the first file of that name; an absent name gives nothing and zero |
| `Initrd.FindPacked` | src/initrd/quasfs.c:16-36 | The reader finds the first file packed under a name and nothing under any other |
| `BackendForms.PutAt` | src/flanterm/backends/fb.c:428-450 | Queueing a cell changes exactly that cell of the logical screen; a position outside the grid changes nothing |
| `BackendForms.BlankAt` | src/flanterm/backends/fb.c:496-520 | A blank row is made of spaces in the current colours |
| `BackendForms.ScrollAt` | src/flanterm/backends/fb.c:480-503 | Every row of the region shows the one below, the last one is blank, the rows outside stay |
| `BackendForms.RevScrollAt` | src/flanterm/backends/fb.c:452-478 | Every row of the region shows the one above, the first one is blank, the rows outside stay; in an empty region only the top row is blanked |
| `BackendForms.ClearAt` | src/flanterm/backends/fb.c:505-520 | Every cell becomes blank in the current colours; the cursor goes home on request |
| `BackendForms.CursorSaturates` | src/flanterm/backends/fb.c:522-541 | Any 32-bit position, also a negative one that wrapped around, goes to the nearest one in the grid |
| `BackendForms.ReportThenSet` | src/flanterm/backends/fb.c:522-548 | Setting the reported position changes nothing exactly when the cursor is in the grid, since the report hides a pending wrap |
| `BackendForms.MoveAt` | src/flanterm/backends/fb.c:550-569 | Copies one logical cell to another; a position outside the grid makes it do nothing |
| `BackendForms.WrapForm` | src/flanterm/backends/fb.c:695-705 | The pending wrap scrolls at the bottom margin, else moves down, then limits the row by the number of columns |
| `BackendForms.GlyphAt` | src/flanterm/backends/fb.c:692-712 | A glyph changes the cell at the cursor, or after a pending wrap the first cell of the next row, and no other; the cursor advances |
| `Geometry.PixelToSpot` | src/flanterm/backends/fb.c:341-380 | Every pixel inside the grid area is exactly one dot of one cell |
| `Geometry.DotInFont` | src/flanterm/backends/fb.c:341-380 | The font index of every dot is inside the font |
| `Geometry.CanvasBound` | src/flanterm/backends/fb.c:341-380 | The canvas index of every visible pixel is inside the canvas |
| `Geometry.GlyphDot` | src/flanterm/backends/fb.c:341-380 | The framebuffer, canvas and font indices computed in the loops are those of the dot being drawn |
| `Geometry.PaintDot` | src/flanterm/backends/fb.c:341-422 | Drawing one more dot changes exactly its pixel, or none if the fast form skips it |
| `Geometry.PaintSkip` | src/flanterm/backends/fb.c:382-422 | A font dot that both glyphs share needs no repainting |
| `Geometry.FitValid` | src/flanterm/backends/fb.c:926-933 | The grid lies inside the margins and no further column or row would fit |
| `Geometry.RenderShows` | src/flanterm/backends/fb.c:341-380 | A picture drawn from scratch has, at each pixel of each cell, the foreground where the font is set and the background elsewhere, exchanged exactly under a shown cursor, the canvas for the transparent colour, and the canvas outside the grid |
| `Pending.QueueFits` | src/flanterm/backends/fb.c:428-450 | `queue_i` never exceeds rows * cols |
| `Pending.AppendItem` | src/flanterm/backends/fb.c:428-450 | A new queue item keeps queue and map linked and is a one-cell update of the logical screen |
| `Pending.UpdateItem` | src/flanterm/backends/fb.c:428-450 | Overwriting a queued item keeps the links and is a one-cell update of the logical screen |
| `Pending.PickDrawn` | src/flanterm/backends/fb.c:428-450 | A cell without queue item shows the grid |
| `Pending.TablePut` | src/flanterm/backends/fb.c:428-450 | The linear and the two-dimensional view of a cell update agree |
| `Shifts.ScrollUpStep` | src/flanterm/backends/fb.c:483-493 | One copy of the scrolling loop, read through queue items, advances the row shift by one cell |
| `Shifts.ScrollDownStep` | src/flanterm/backends/fb.c:455-468 | One copy of the backward loop advances the downward shift by one cell |
| `Shifts.TableScrollUp` | src/flanterm/backends/fb.c:480-503 | The finished upward loop is an exact row shift of the region |
| `Shifts.TableScrollDown` | src/flanterm/backends/fb.c:452-478 | The finished downward loop is an exact row shift of the region |
| `Shifts.ScrolledLines` | src/flanterm/backends/fb.c:480-503 | Shift and blank row together are `Display.Scroll` |
| `Shifts.RevScrolledLines` | src/flanterm/backends/fb.c:452-478 | Shift and blank row together are `Display.RevScroll`, also with an empty region |
| `Drawing.RenderPut` | src/flanterm/backends/fb.c:341-380 | Changing one cell changes the from-scratch picture in that cell's rectangle alone |
| `Drawing.FastPaint` | src/flanterm/backends/fb.c:382-422 | Where the fast form skips a dot, old and new glyph have the same colour there |
| `Drawing.DrawnWhole` | src/flanterm/backends/fb.c:341-380 | Drawing a cell from scratch, inverted for the cursor, keeps the picture that of the grid |
| `Drawing.Repaired` | src/flanterm/backends/fb.c:680-687 | Drawing the old cursor cell leaves no stale cell |
| `Drawing.Unlink` | src/flanterm/backends/fb.c:640-654 | Committing a pending cell to the grid does not change the logical screen |
| `Drawing.Skip` | src/flanterm/backends/fb.c:664-678 | A queue item whose cell was committed already is passed over |
| `Drawing.Drained` | src/flanterm/backends/fb.c:664-678 | After the loop nothing is pending and the grid is the logical screen |
| `Drawing.StaleAtCursor` | src/flanterm/backends/fb.c:680-689 | Only the cell under the newly drawn cursor is stale for the next flush |
| `Drawing.LayStep` | src/flanterm/backends/fb.c:731-736 | Each cell drawn by the full redraw adds its rectangle to the picture |
| `Drawing.BrokenLink` | src/flanterm/backends/fb.c:640-654 | Clearing a map entry without dequeuing breaks the links exactly when that entry was an item |
| `FramebufferBackend.Framebuffer.constructor` | src/flanterm/backends/fb.c:763-1044 | The grid geometry, an empty screen, and every word of the framebuffer in the colour that font, cell, cursor and canvas give it |
| `FramebufferBackend.Framebuffer.DrawDot` | src/flanterm/backends/fb.c:357-377 | One font dot, `scaleX` pixels wide, advances the painting by exactly these pixels |
| `FramebufferBackend.Framebuffer.PlotChar` | src/flanterm/backends/fb.c:341-380 | The whole glyph rectangle has the from-scratch colours; nothing else changes |
| `FramebufferBackend.Framebuffer.PlotCharFast` | src/flanterm/backends/fb.c:382-422 | Exactly the dots that differ from the old glyph are repainted |
| `FramebufferBackend.Framebuffer.PushToQueue` | src/flanterm/backends/fb.c:428-450 | A single-cell update of the logical screen that keeps queue, map and grid linked, within the queue's size |
| `FramebufferBackend.Framebuffer.Current` | src/flanterm/backends/fb.c:460-466 | Reading a cell through its queue item, else the grid, reads the logical screen |
| `FramebufferBackend.Framebuffer.BlankRow` | src/flanterm/backends/fb.c:495-502 | A row of the logical screen becomes blank |
| `FramebufferBackend.Framebuffer.ShiftUp` | src/flanterm/backends/fb.c:483-493 | The in-place copying loop leaves the row shift on the linear screen |
| `FramebufferBackend.Framebuffer.ShiftDown` | src/flanterm/backends/fb.c:455-468 | The descending `size_t` loop terminates, also past zero, and leaves the row shift |
| `FramebufferBackend.Framebuffer.Scroll` | src/flanterm/backends/fb.c:480-503 | Refines `Display.Scroll` on the logical screen and keeps the invariant |
| `FramebufferBackend.Framebuffer.RevScroll` | src/flanterm/backends/fb.c:452-478 | Refines `Display.RevScroll` and keeps the invariant |
| `FramebufferBackend.Framebuffer.Clear` | src/flanterm/backends/fb.c:505-520 | Refines `Display.Clear` |
| `FramebufferBackend.Framebuffer.SetCursorPos` | src/flanterm/backends/fb.c:522-541 | Refines `Display.SetCursor` |
| `FramebufferBackend.Framebuffer.GetCursorPos` | src/flanterm/backends/fb.c:543-548 | Reports the clamped cursor |
| `FramebufferBackend.Framebuffer.MoveCharacter` | src/flanterm/backends/fb.c:550-569 | Refines `Display.MoveCharacter` |
| `FramebufferBackend.Framebuffer.LineWrap` | src/flanterm/backends/fb.c:695-705 | Refines `Display.Wrap` |
| `FramebufferBackend.Framebuffer.RawPutchar` | src/flanterm/backends/fb.c:692-712 | Refines `Display.RawPutchar` |
| `FramebufferBackend.Framebuffer.DrawCursor` | src/flanterm/backends/fb.c:631-655 | Draws the cursor cell inverted, commits its pending value and unlinks it; off-grid cursors change nothing |
| `FramebufferBackend.Framebuffer.DrawItem` | src/flanterm/backends/fb.c:664-678 | Draws one queued cell, fast when the colours agree, unless it was committed already; the logical screen stays |
| `FramebufferBackend.Framebuffer.RepairOldCursor` | src/flanterm/backends/fb.c:680-687 | After the repair every visible pixel is that of the grid with the cursor shown |
| `FramebufferBackend.Framebuffer.PaintCanvas` | src/flanterm/backends/fb.c:721-729 | Every visible pixel becomes that of the canvas and no other one changes |
| `FramebufferBackend.Framebuffer.LayGrid` | src/flanterm/backends/fb.c:721-736 | Canvas and all cells are drawn |
| `FramebufferBackend.Framebuffer.SetTextFg` | src/flanterm/backends/fb.c:571-575 | Sets one text colour; the logical screen and the invariant stay |
| `FramebufferBackend.Framebuffer.SetTextBg` | src/flanterm/backends/fb.c:577-581 | Sets one text colour; the logical screen and the invariant stay |
| `FramebufferBackend.Framebuffer.SetTextFgBright` | src/flanterm/backends/fb.c:583-587 | Sets one text colour; the logical screen and the invariant stay |
| `FramebufferBackend.Framebuffer.SetTextBgBright` | src/flanterm/backends/fb.c:589-593 | Sets one text colour; the logical screen and the invariant stay |
| `FramebufferBackend.Framebuffer.SetTextFgRgb` | src/flanterm/backends/fb.c:595-599 | Sets one text colour; the logical screen and the invariant stay |
| `FramebufferBackend.Framebuffer.SetTextBgRgb` | src/flanterm/backends/fb.c:601-605 | Sets one text colour; the logical screen and the invariant stay |
| `FramebufferBackend.Framebuffer.SetTextFgDefault` | src/flanterm/backends/fb.c:607-611 | Sets one text colour; the logical screen and the invariant stay |
| `FramebufferBackend.Framebuffer.SetTextBgDefault` | src/flanterm/backends/fb.c:613-617 | Sets one text colour; the logical screen and the invariant stay |
| `FramebufferBackend.Framebuffer.SetTextFgDefaultBright` | src/flanterm/backends/fb.c:619-623 | Sets one text colour; the logical screen and the invariant stay |
| `FramebufferBackend.Framebuffer.SetTextBgDefaultBright` | src/flanterm/backends/fb.c:625-629 | Sets one text colour; the logical screen and the invariant stay |
| `FramebufferBackend.Framebuffer.SwapPalette` | src/flanterm/backends/fb.c:334-339 | Exchanges the two text colours and nothing else |
| `FramebufferBackend.Framebuffer.SaveState` | src/flanterm/backends/fb.c:318-324 | Saves colours and cursor |
| `FramebufferBackend.Framebuffer.RestoreState` | src/flanterm/backends/fb.c:326-332 | Restores colours and cursor |
| `Editing.RawPutsInLine` | src/flanterm/backends/fb.c:692-712 | `n` glyphs that fit on the line fill it from the cursor and change nothing else |
| `Editing.RawPutsKept` | src/flanterm/backends/fb.c:692-712 | While scrolling is enabled printing changes only cells and the cursor, which stays at most one past the last column |
| `TerminalModel.Ground` | src/flanterm/flanterm.c:1242-1350 | A byte outside UTF-8 sequences keeps the invariant and the screen size |
| `TerminalModel.Control` | src/flanterm/flanterm.c:1274-1325 | Control characters keep the invariant |
| `TerminalModel.Print` | src/flanterm/flanterm.c:1327-1349 | A printable byte changes only cells and the cursor |
| `TerminalModel.Emit` | src/flanterm/flanterm.c:1226-1239 | A decoded code point changes only cells and the cursor |
| `TerminalModel.Continue` | src/flanterm/flanterm.c:1214-1240 | A continuation byte keeps the invariant |
| `TerminalModel.Designate` | src/flanterm/flanterm.c:1262-1272 | Character set designation leaves the screen alone |
| `TerminalModel.EscapeParse` | src/flanterm/flanterm.c:801-882 | A byte inside an escape sequence keeps the invariant |
| `TerminalModel.EscapeStart` | src/flanterm/flanterm.c:814-881 | The byte after ESC keeps the invariant |
| `TerminalModel.EscapeFunction` | src/flanterm/flanterm.c:835-881 | ESC 7, 8, D, E, M, ( and ) keep the invariant |
| `TerminalModel.ControlSequence` | src/flanterm/flanterm.c:478-777 | Every byte of a control sequence keeps the invariant |
| `TerminalModel.Parameter` | src/flanterm/flanterm.c:478-512 | Parameter bytes keep the count at most 16, and below 16 while a number is pending |
| `TerminalModel.FinalByte` | src/flanterm/flanterm.c:526-777 | The action of a final byte keeps the invariant and restores the scrolling flag |
| `TerminalModel.Dispatch` | src/flanterm/flanterm.c:531-772 | The action touches only screen, attributes, insert mode and saved cursor |
| `TerminalModel.Edit` | src/flanterm/flanterm.c:619-770 | The editing controls keep a proper region and the screen size |
| `TerminalModel.MoveCursor` | src/flanterm/flanterm.c:536-618 | The cursor controls change nothing but the cursor, which stays at most one past the last column |
| `TerminalModel.Attribute` | src/flanterm/flanterm.c:116-328 | One SGR parameter keeps the colour indices below 8 |
| `TerminalModel.SgrFrom` | src/flanterm/flanterm.c:116-383 | Any SGR parameter list, with 38 and 48 skipping their arguments, keeps the colour indices below 8 |
| `TerminalModel.Reinit` | src/flanterm/flanterm.c:71-102 | The reset state satisfies the invariant |
| `Steps.Run` | src/flanterm/flanterm.c:106-114 | The invariant holds after every byte sequence |
| `Steps.RunAppend` | src/flanterm/flanterm.c:106-114 | Runs compose |
| `Confinement.ConfinedStep` | src/flanterm/flanterm.c:1201-1350 | One allowed byte keeps the cursor row in the region and every line outside it |
| `Confinement.ConfinedRun` | src/flanterm/flanterm.c:536-586 | Any run of printable bytes, BS, HT, LF, VT, FF, CR, ESC D, E, M and CSI A to F keeps the cursor row in the region and every line outside it |
| `Utf8.FillEmpty` | src/flanterm/flanterm.c:1220-1224 | A continuation byte fills the next empty six-bit digit |
| `Utf8.Decodes` | src/flanterm/flanterm.c:1214-1255 | The encoding of section 3 of RFC 3629 of a code point is decoded to it, and nothing is printed before its last byte |
| `Utf8.BrokenSequence` | src/flanterm/flanterm.c:1214-1218 | A byte that breaks a sequence is handled as from the ground state |
| `Utf8.SequenceDecodes` | src/flanterm/flanterm.c:1214-1255 | Every lead byte with its continuation bytes is decoded to the number of their bits, and nothing is printed before the last one |
| `Utf8.OverlongLetter` | src/flanterm/flanterm.c:1214-1255 | The failing input: 0xc1 0x81 is taken for the letter A |
| `Parameters.Horner` | src/flanterm/flanterm.c:490-498 | Accumulating decimal digits on 32 bits yields the number modulo 2^32 |
| `Parameters.NumberRead` | src/flanterm/flanterm.c:490-498 | The digits of a number accumulate to it modulo 2^32 |
| `Parameters.ListRead` | src/flanterm/flanterm.c:478-524 | A printed parameter list fills the parameter array |
| `Parameters.GapsRead` | src/flanterm/flanterm.c:478-529 | In a list in which numbers are missing, these are zero, but a missing last one is no parameter and has its default |
| `ColourInvariant.CoherentPair` | src/flanterm/flanterm.c:116-328 | With two indexed colours the physical pair is the intensity-adjusted pair, swapped exactly under reverse video |
| `ColourInvariant.DirectExact` | src/flanterm/flanterm.c:331-379 | 38 and 48 keep every coherent state coherent exactly when the palette has no other colour than theirs |
| `ColourInvariant.SgrCoherent` | src/flanterm/flanterm.c:116-383 | Any list of other parameters keeps the palette invariant |
| `GraphicRendition.RendersOne` | src/flanterm/flanterm.c:116-329 | A single parameter other than 38 and 48 |
| `GraphicRendition.RendersRgb` | src/flanterm/flanterm.c:339-356 | 38;2 and 48;2 set exactly the colour of three bytes, also under reverse video |
| `GraphicRendition.RendersIndexed` | src/flanterm/flanterm.c:357-377 | 38;5 and 48;5 set exactly a palette colour or one of the colour cube |
| `EditingForms.RevScrollThenScroll` | src/flanterm/backends/fb.c:452-503 | Scrolling back and forward restores every line but the last of the region |
| `EditingForms.ScrollThenRevScroll` | src/flanterm/backends/fb.c:452-503 | Scrolling forward and back restores every line but the first of the region |
| `EditingForms.ScrollsForm` | src/flanterm/flanterm.c:619-623 | `n` scrolls lose the first `n` lines of the region, or all of them |
| `EditingForms.DeleteFits` | src/flanterm/flanterm.c:698-707 | DCH shifts left and blanks the tail when the gap fits on the line |
| `EditingForms.InsertThenDelete` | src/flanterm/flanterm.c:687-707 | DCH undoes ICH up to the characters pushed off the line |
| `EditingForms.ErasesBelow` | src/flanterm/flanterm.c:654-663 | ED 0 blanks exactly the cells from the cursor to the end of the screen |
| `ControlForms.CursorUpForm` | src/flanterm/flanterm.c:540-555 | CUU stops at the top margin when it starts at or below it, else at the first row |
| `ControlForms.CursorDownForm` | src/flanterm/flanterm.c:559-575 | CUD stops at the bottom margin when it starts above it, else at the last row, except from the row just below the region |
| `ControlForms.CursorDownExact` | src/flanterm/flanterm.c:559-575 | CUD never moves up, exactly when the cursor is not just below the region |
| `ControlForms.CursorForwardForm` | src/flanterm/flanterm.c:576-586 | CUF stops at the last column and CUB at the first one |
| `ControlForms.ForwardThenBack` | src/flanterm/flanterm.c:576-586 | CUB undoes CUF exactly when `x + n < cols` or the cursor is in the first column |
| `ControlForms.PositionsReached` | src/flanterm/flanterm.c:592-618 | VPA, CHA and CUP count from one; larger numbers mean the last row or column; zero means the last one for VPA and CHA, the first one for CUP |
| `ControlForms.TabExact` | src/flanterm/flanterm.c:1288-1294 | HT goes to the next multiple of eight or the last column, exactly when the stop is below 2^31 |
| `ControlForms.LineFeedForm` | src/flanterm/flanterm.c:845-860 | LF, IND and NEL scroll in the last row of the region and else go down, not past the last row |
| `ControlForms.ReverseLineFeedForm` | src/flanterm/flanterm.c:861-869 | RI scrolls back in the first row of the region and else goes up, not past the first row |
| `ControlForms.RevScrollsForm` | src/flanterm/flanterm.c:627-629 | `n` backward scrolls open `n` lines at the top of the region, at most all of them |
| `ControlForms.InsertLinesForm` | src/flanterm/flanterm.c:624-632 | IL above the bottom margin opens lines at the cursor row and moves the rest down to the margin |
| `ControlForms.InsertLinesBelow` | src/flanterm/flanterm.c:624-632 | IL at or below the bottom margin blanks the cursor row |
| `ControlForms.InsertBelowExact` | src/flanterm/flanterm.c:624-632 | IL at or below the bottom margin does nothing, as it should, exactly when it is given no line or the row is blank already |
| `ControlForms.InsertBelowFails` | src/flanterm/flanterm.c:624-632 | A failing screen for every size, region, cursor row below it and count |
| `ControlForms.EraseCharactersFits` | src/flanterm/flanterm.c:703-707 | ECH blanks `n` cells from the cursor when they are on the line |
| `ControlForms.EraseLineRight` | src/flanterm/flanterm.c:719-724 | EL 0 blanks from the cursor to the end of the line |
| `ControlForms.EraseLineStart` | src/flanterm/flanterm.c:725-730 | EL 1 blanks the cells before the cursor and leaves the cursor cell alone |
| `ControlForms.EraseStartExact` | src/flanterm/flanterm.c:725-730 | EL 1 blanks the line through the cursor, as it should, exactly when the cursor cell is blank already |
| `ControlForms.EraseStartFails` | src/flanterm/flanterm.c:725-730 | A failing screen for every size, region and cursor |
| `ControlForms.EraseLineWhole` | src/flanterm/flanterm.c:731-737 | EL 2 blanks the line and restores the cursor |
| `ControlForms.ErasesAboveWhenReached` | src/flanterm/flanterm.c:664-680 | ED 1 blanks every cell through the cursor |
| `ControlForms.InsertCharactersExact` | src/flanterm/flanterm.c:687-697 | ICH shifts the rest of the line and blanks the gap, as it should, exactly when the count is not zero or the rest of the line is blank |
| `ControlForms.InsertModeForm` | src/flanterm/flanterm.c:1327-1349 | In insert mode a glyph goes between the cells before and after the cursor, and the last cell is lost |
| `ControlForms.InsertModeWraps` | src/flanterm/flanterm.c:1327-1349 | With a pending wrap insert mode makes no room: the glyph overwrites the first cell of the row it wraps to |
| `ControlForms.MarginsForm` | src/flanterm/flanterm.c:740-762 | DECSTBM with parameters that leave at least two rows of the screen sets the region to exactly these, missing ones not limiting it; else the region is the whole screen; the cursor goes home |
| `Sequences.Acts` | src/flanterm/flanterm.c:478-777 | A sequence read from the ground state ends there, and does what its final byte does with its parameters, scrolling disabled meanwhile |
| `Sequences.LinesInserted` | src/flanterm/flanterm.c:624-632 | Every cell after ESC [ n L |
| `Sequences.LinesScrolled` | src/flanterm/flanterm.c:619-623 | Every cell after ESC [ n M |
| `Sequences.CharactersShifted` | src/flanterm/flanterm.c:687-697 | Every cell after ESC [ n @ |
| `Sequences.CharactersClosed` | src/flanterm/flanterm.c:698-707 | Every cell after ESC [ n P when the gap fits on the line |
| `Sequences.CharactersBlanked` | src/flanterm/flanterm.c:703-707 | Every cell after ESC [ n X when the blanks fit on the line |
| `Sequences.LineBlanked` | src/flanterm/flanterm.c:717-739 | Every cell after ESC [ n K |
| `Sequences.ScreenBlanked` | src/flanterm/flanterm.c:652-686 | Every cell after ESC [ n J where wrapping reaches every cell |
| `Sequences.RegionSet` | src/flanterm/flanterm.c:740-762 | The region and the cursor after ESC [ n ; m r |
| `Escapes.ControlActs` | src/flanterm/flanterm.c:1277-1325 | What each control character does to the screen, in coordinates |
| `Escapes.PrintableActs` | src/flanterm/flanterm.c:1327-1349 | A printable character draws itself, or the line-drawing glyph if its character set is that one, after making room in insert mode |
| `Escapes.FunctionActs` | src/flanterm/flanterm.c:835-869 | What ESC 7, 8, D, E and M do, in coordinates; any other byte behind ESC that starts no longer sequence does nothing |
| `Escapes.Designates` | src/flanterm/flanterm.c:1262-1272 | ESC ( and ESC ) and 0 or B designate the line-drawing set or ASCII, and change nothing else |
| `Escapes.LineDrawing` | src/flanterm/flanterm.c:1317-1345 | With the line-drawing set behind SO, SO and a character draw its glyph there, and SI leads back |
| `Escapes.PositionOverText` | src/flanterm/flanterm.c:711-716 | ESC [ s, any such text, and ESC [ u: the cursor is where it was seen before the text, and all else is as after the text |
| `Escapes.Resets` | src/flanterm/flanterm.c:71-102 | ESC c leaves a blank screen, the whole screen as the region, and parser and attributes of a new terminal; colours and what was saved stay |
| `Escapes.EmitMeans` | src/flanterm/flanterm.c:1226-1238 | A decoded character draws its glyph, or without one a box, with a blank behind it if it is two columns wide, or nothing |
| `Escapes.CharacterActs` | src/flanterm/flanterm.c:1214-1240 | So does its encoding, which ends in the ground state |
| `Escapes.BracketDiscards` | src/flanterm/flanterm.c:479-483 | ESC [ [ takes one more byte with it and does nothing |
| `Wrapping.LineLeaves` | src/flanterm/backends/fb.c:695-705 | Otherwise one line and one glyph from the start of the last row lead below the screen |
| `Wrapping.TextLost` | src/flanterm/backends/fb.c:431-433 | Below the screen glyphs are lost, however many follow |
| `Commands.CancelledPrivate` | src/flanterm/flanterm.c:1202-1212 | The failing input: ESC [ ? CAN leaves the flag, and ESC [ J then erases nothing |
| `Commands.ErasesFromGround` | src/flanterm/flanterm.c:652-663 | From the ground state ESC [ J erases |
| `Commands.EightBitIntroducer` | src/flanterm/flanterm.c:814-834 | After 0x9b and any one byte the terminal is as after ESC [ |
| `Commands.EightBitFails` | src/flanterm/flanterm.c:814-834 | The failing input: 0x9b and a final byte do nothing yet |
| `Commands.CommandSwallowed` | src/flanterm/flanterm.c:455-476 | An operating system command with any seven-bit text ends at BEL or ESC backslash outside any sequence, and changes nothing but the parser |
| `Commands.CommandPrints` | src/flanterm/flanterm.c:1214-1240 | A UTF-8 sequence inside a command is printed as it is outside |
| `ControlLoops.PutBlanks` | src/flanterm/flanterm.c:654-663 | The blank-writing loop is `n` calls of the backend |
| `ControlLoops.ScrollTimes` | src/flanterm/flanterm.c:619-623 | The scrolling loop of DL |
| `ControlLoops.RevScrollTimes` | src/flanterm/flanterm.c:624-632 | The scrolling loop of IL |
| `ControlLoops.OpenLine` | src/flanterm/flanterm.c:687-695 | The descending loop of ICH terminates at the cursor column and opens the gap |
| `ControlLoops.InsertBlanks` | src/flanterm/flanterm.c:687-697 | ICH refines its closed form |
| `ControlLoops.CloseLine` | src/flanterm/flanterm.c:698-701 | The moves of DCH close the gap |
| `ControlLoops.DeleteCells` | src/flanterm/flanterm.c:698-707 | DCH refines its closed form |
| `ControlLoops.EraseCells` | src/flanterm/flanterm.c:703-707 | ECH refines its closed form |
| `ControlLoops.OpenCell` | src/flanterm/flanterm.c:1327-1334 | The descending loop of insert mode terminates and shifts the rest of the line |
| `ControlLoops.EraseAbove` | src/flanterm/flanterm.c:664-680 | The nested loops of ED 1 blank from the corner through the cursor |
| `TerminalDriver.Terminal.constructor` | src/flanterm/backends/fb.c:763-1044 | Initialisation establishes the invariant and a drawn empty screen |
| `TerminalDriver.Terminal.SgrParameter` | src/flanterm/flanterm.c:116-138 | One parameter in place refines `Attribute` |
| `TerminalDriver.Terminal.SgrIntensity` | src/flanterm/flanterm.c:140-210 | Parameters 1, 5, 22 and 25 in place refine `Attribute` |
| `TerminalDriver.Terminal.SgrColour` | src/flanterm/flanterm.c:212-272 | The colour parameters in place refine `Attribute` |
| `TerminalDriver.Terminal.SgrDefault` | src/flanterm/flanterm.c:274-328 | Parameters 39, 49, 7 and 27 in place refine `Attribute` |
| `TerminalDriver.Terminal.Sgr` | src/flanterm/flanterm.c:116-383 | The parameter loop refines `Sgr` |
| `TerminalDriver.Terminal.KeyMove` | src/flanterm/flanterm.c:536-618 | The cursor controls refine `MoveCursor` |
| `TerminalDriver.Terminal.KeyEdit` | src/flanterm/flanterm.c:619-770 | The editing controls refine `Edit` |
| `TerminalDriver.Terminal.Dispatch` | src/flanterm/flanterm.c:531-772 | The switch over final bytes refines `Dispatch` |
| `TerminalDriver.Terminal.ParameterByte` | src/flanterm/flanterm.c:478-524 | The parameter accumulator refines `Parameter` and `Finish` |
| `TerminalDriver.Terminal.ControlSequenceParse` | src/flanterm/flanterm.c:478-777 | Refines `ControlSequence` |
| `TerminalDriver.Terminal.FinalByte` | src/flanterm/flanterm.c:526-777 | The action of a final byte and the end of the sequence |
| `TerminalDriver.Terminal.Reinitialise` | src/flanterm/flanterm.c:71-102 | Refines `Reinit` |
| `TerminalDriver.Terminal.Save` | src/flanterm/flanterm.c:790-799 | Refines ESC 7 |
| `TerminalDriver.Terminal.Restore` | src/flanterm/flanterm.c:779-788 | Refines ESC 8 |
| `TerminalDriver.Terminal.EscapeByte` | src/flanterm/flanterm.c:801-882 | Refines `EscapeParse` |
| `TerminalDriver.Terminal.OscByte` | src/flanterm/flanterm.c:455-476 | Refines `OscParse` |
| `TerminalDriver.Terminal.ContinuationByte` | src/flanterm/flanterm.c:1214-1240 | Refines `Continue` |
| `TerminalDriver.Terminal.DesignateSet` | src/flanterm/flanterm.c:1262-1272 | Refines `Designate` |
| `TerminalDriver.Terminal.ControlByte` | src/flanterm/flanterm.c:1274-1325 | Refines `Control` |
| `TerminalDriver.Terminal.PrintByte` | src/flanterm/flanterm.c:1327-1349 | Refines `Print` |
| `TerminalDriver.Terminal.PutChar` | src/flanterm/flanterm.c:1201-1350 | One byte in place refines `PutChar` |
| `Bitmap.Set` | src/mm/bitmap.c:3-5 | Sets one bit and no other |
| `Bitmap.Clear` | src/mm/bitmap.c:7-9 | Clears one bit and no other |
| `Bitmap.Get` | src/mm/bitmap.c:11-13 | Nonzero exactly when the bit is set |
| `Bitmap.MaskIsShift` | src/mm/bitmap.c:3-13 | The mask of a bit is one shifted by its position in the byte |
| `PageAllocator.LowestRun` | src/mm/pmm.c:60-81 | The block handed out is the lowest free run at or after the index |
| `PageAllocator.AllocateKeeps` | src/mm/pmm.c:60-81 | An allocation keeps live blocks disjoint and loses no page |
| `PageAllocator.ReleaseKeeps` | src/mm/pmm.c:83-93 | A release keeps live blocks disjoint and loses no page |
| `PageAllocator.HighestAttained` | src/mm/pmm.c:24-33 | The highest address is the end of a usable entry, or zero if there is none |
| `PageAllocator.LastPage` | src/mm/pmm.c:24-36 | The page count is that of the end of a usable entry, and no usable entry ends behind it |
| `PageAllocator.LastUsable` | src/mm/pmm.c:24-36 | So no page from the count on is usable, and the last one before it is |
| `PageAllocator.BitmapSizeLeast` | src/mm/pmm.c:37-37 | The bitmap takes the fewest whole pages that have a byte for every eight pages |
| `PageAllocator.StorageTaken` | src/mm/pmm.c:39-49 | Taking the bitmap from an entry removes exactly its pages from the usable ones |
| `PageAllocator.PlaceBitmap` | src/mm/pmm.c:39-49 | The first usable entry that can hold the bitmap gives up its start |
| `PageAllocator.HighestAddress` | src/mm/pmm.c:24-33 | The end of the highest usable entry |
| `PageAllocator.Pmm.constructor` | src/mm/pmm.c:17-58 | Exactly the usable pages, less the bitmap's, are free; the page count is that of the highest end of a usable entry, whose last page is usable, and no page behind it is |
| `PageAllocator.Pmm.ClearEntry` | src/mm/pmm.c:51-57 | Clears exactly the pages of an entry |
| `PageAllocator.Pmm.Alloc` | src/mm/pmm.c:60-81 | Returns the lowest run of free pages at or after the index, and takes exactly it |
| `PageAllocator.Pmm.Release` | src/mm/pmm.c:83-93 | Frees exactly the block and moves the index to it |
| `Bits.OrSplit` | src/mm/vmm.c:49-49 | Bitwise or works digit by digit |
| `Bits.OrBit` | src/mm/vmm.c:121-140 | A bit of the or is set exactly when it is set in one of the two words |
| `PageTables.EntryFields` | src/mm/vmm.c:135-135 | `paddr | flags` keeps address and flags apart for an aligned address below 2^52 and flags outside the address bits |
| `PageTables.WalkIs` | src/mm/vmm.c:121-160 | A translation is the last of four present words found at the bits 39, 30, 21 and 12 of the address on, each in the table that the word before it names |
| `PageTables.Walks` | src/mm/vmm.c:32-54 | A walk from a live root only visits tables on the path of its page, in the lower half only its own |
| `PageTables.LinkKeepsTree` | src/mm/vmm.c:43-51 | Linking a fresh zeroed table keeps the tree |
| `PageTables.LinkKeepsTables` | src/mm/vmm.c:43-51 | It adds the path to the new table and no other |
| `PageTables.LinkKeepsTranslations` | src/mm/vmm.c:43-51 | It changes no translation of any map |
| `PageTables.LeafKeepsTree` | src/mm/vmm.c:135-135 | Writing a last-level entry keeps the tree |
| `PageTables.LeafTranslations` | src/mm/vmm.c:135-159 | Writing a last-level entry changes one page, under the maps whose walk ends in that table |
| `PageTables.RootKeepsTree` | src/mm/vmm.c:99-109 | A new map keeps the tree, upper half shared |
| `PageTables.RootTranslations` | src/mm/vmm.c:99-109 | A new map agrees with the kernel map on the upper half and translates nothing in the lower one |
| `PageTables.DropKeepsTree` | src/mm/vmm.c:111-119 | Clearing a root keeps the tree |
| `PageTables.DropTranslations` | src/mm/vmm.c:111-119 | Clearing a root changes no translation of another map |
| `AddressSpaces.OnePath` | src/mm/vmm.c:32-54 | Two paths of one map that end in the same entry are equal |
| `AddressSpaces.Linked` | src/mm/vmm.c:43-51 | Linking at the end of a path keeps the tree and all translations and makes exactly that path |
| `AddressSpaces.LeafWritten` | src/mm/vmm.c:135-135 | Writing the entry of a page changes that page alone, in the lower half for one map alone |
| `AddressSpaces.PagesDiffer` | src/mm/vmm.c:126-129 | Different pages of a range have different table indices |
| `AddressSpaces.AllocPage` | src/mm/vmm.c:44-44 | A page for a table is the lowest one the allocator can reach |
| `AddressSpaces.Vmm.constructor` | src/mm/vmm.c:173-175 | An empty kernel map |
| `AddressSpaces.Vmm.EnsureTable` | src/mm/vmm.c:32-54 | The table at the end of a path, taken from the allocator exactly if it was missing; no translation changes |
| `AddressSpaces.Vmm.FindTable` | src/mm/vmm.c:32-54 | The walk step without allocation |
| `AddressSpaces.Vmm.Unmap` | src/mm/vmm.c:138-160 | Exactly one page's translation is removed, nothing is allocated, and the memory is reached by a run within the map |
| `AddressSpaces.Vmm.New` | src/mm/vmm.c:99-109 | A fresh map with the kernel's upper half and an empty lower half; no other map changes; one `Make` step of a run |
| `AddressSpaces.Vmm.Delete` | src/mm/vmm.c:111-119 | No other map changes, exactly the root is freed, and the current map is never a deleted one; one `Drop` step of a run |
| `AddressSpaces.Vmm.Load` | src/mm/vmm.c:168-171 | Sets the current map |
| `AddressSpaces.Vmm.Alloc` | src/mm/vmm.c:72-87 | The lowest run of free pages, mapped one to one |
| `AddressSpaces.Vmm.Free` | src/mm/vmm.c:89-97 | The pages are unmapped and free again; all other translations are kept |
| `Worlds.RunsCompose` | src/mm/vmm.c:99-160 | Runs of operations on any number of maps compose |
| `Isolation.StepKeeps` | src/mm/vmm.c:32-160 | Linking a table, writing an entry, making and deleting a map each keep the tree, and every translation but the ones they are for |
| `Isolation.RunKeepsTree` | src/mm/vmm.c:32-160 | The tables are a tree after any run of operations |
| `Isolation.OthersKept` | src/mm/vmm.c:121-160 | A run within one map, as mapping, unmapping, allocating and freeing are, leaves the lower half of every other map |
| `Isolation.Agreement` | src/mm/vmm.c:99-160 | Two maps that agree in an entry of their roots still do after a run exactly when no table was linked in that entry of either |
| `PrintfValue.DigitsDenote` | src/libc/printf.c:544-550 | As many digits as fit denote the value modulo a power of the base |
| `PrintfValue.Capacity` | src/libc/printf.c:527-550 | 32 characters hold every 64-bit value in base 8, 10 and 16, and the low 32 bits in base 2 |
| `PrintfValue.NumeralDenotes` | src/libc/printf.c:527-550 | Numeral and leading zeros denote the value, in base 2 modulo 2^32 |
| `PrintfValue.PrefixedShape` | src/libc/printf.c:460-507 | Prefix insertion takes back padding zeros only, and adds as much of the prefix as fits |
| `PrintfValue.IntegerShape` | src/libc/printf.c:431-553 | Every integer conversion is blanks, sign, prefix, zeros, numeral, blanks; zeros and numeral denote the value; the sign is lost exactly when the rest fills the buffer |
| `PrintfMeaning.PlainText` | src/libc/printf.c:1152-1238 | Without flags, width and precision, an unsigned conversion prints nothing but the digits of its argument, without leading zeros |
| `PrintfMeaning.NumeralText` | src/libc/printf.c:525-553 | The digits of a number denote it, are those of the base in the case asked for, and start with no zero |
| `PrintfMeaning.IntegerExact` | src/libc/printf.c:458-553 | How many blanks and zeros there are, and what is left of sign and prefix, for any value and flags |
| `PrintfMeaning.CharText` | src/libc/printf.c:1258-1276 | A character conversion prints the low eight bits of its argument, and blanks on the side that the flag asks for |
| `PrintfMeaning.SelfText` | src/libc/printf.c:1321-1346 | A percent sign and anything else that is no conversion print themselves |
| `PrintfMeaning.NegativePrecisionExact` | src/libc/printf.c:1086-1090 | A negative precision among the arguments is taken for zero: a string is printed as if there were none exactly when it is all blanks and fits the field |
| `PrintfSyntax.StandardForm` | src/libc/printf.c:1056-1150 | The specifications covered are those of the standard and of `b`, written as flags, width, precision, length and specifier |
| `PrintfSyntax.Unfinished` | src/libc/printf.c:1041-1059 | A format that ends inside a specification prints nothing for it, or its terminator where the end is not noticed |
| `PrintfSyntax.CountsTaken` | src/libc/printf.c:1061-1092 | Width and precision are the numbers written, modulo 2^32, or the arguments in place of asterisks, where a negative width asks for left adjustment |
| `PrintfSyntax.Splits` | src/libc/printf.c:1047-1350 | In any format a specification prints what it prints alone, and what follows takes the arguments behind those it uses up |
| `PrintfGadget.ShownPrefix` | src/libc/printf.c:322-339 | Until positions wrap, the buffer holds the beginning of the output |
| `PrintfGadget.TerminatedPrefix` | src/libc/printf.c:342-352 | The buffer holds the first characters, then NUL, and everything behind the size is untouched |
| `PrintfGadget.Gadget.PutChar` | src/libc/printf.c:322-339 | Appends one character to the output, stored only below the limit |
| `PrintfGadget.Gadget.OutRev` | src/libc/printf.c:431-453 | The reversed text padded to the width, although the padding is decided by positions that wrap at 2^32 |
| `PrintfGadget.Gadget.PadRight` | src/libc/printf.c:447-452 | Blanks up to the width, counted by wrapping positions |
| `PrintfGadget.PutDigits` | src/libc/printf.c:544-550 | The digit loop |
| `PrintfGadget.Gadget.Finalize` | src/libc/printf.c:458-522 | Zeros, prefix, sign and padding refine `Finalized` |
| `PrintfGadget.Gadget.PrintInteger` | src/libc/printf.c:525-553 | Refines `Integer` |
| `PrintfGadget.Gadget.PutIntegerConversion` | src/libc/printf.c:1153-1238 | Base, flags and argument width of the integer specifiers |
| `PrintfGadget.Gadget.PutStringConversion` | src/libc/printf.c:1278-1308 | The string specifier with precision and width |
| `PrintfGadget.Gadget.PutPointerConversion` | src/libc/printf.c:1310-1319 | The pointer specifier |
| `PrintfGadget.ParseSpecifier` | src/libc/printf.c:1056-1150 | Flags, width, precision and length are parsed as `ParseSpec` says |
| `PrintfGadget.FlagLoop` | src/libc/printf.c:1024-1037 | The flag loop |
| `PrintfGadget.NumberLoop` | src/libc/printf.c:420-427 | Decimal numbers on 32 bits |
| `PrintfGadget.Gadget.FormatStringLoop` | src/libc/printf.c:1039-1349 | The output grows by exactly the text of the format, and the terminator is passed exactly when the format is cut off |
| `PrintfText.CutOffInputs` | src/libc/printf.c:1056-1150 | The shortest formats that are cut off, and ends that are noticed |
| `PrintfText.PassesTerminator` | src/libc/printf.c:1343-1346 | The failing input: for `%5` the terminator is printed and passed |
| `Scheduler.SwitchSafe` | src/sched/sched.c:102-122 | A switch keeps the invariant, dispatches a live task, and loads the registers last saved for it; the running task and its page map are never freed |
| `Scheduler.KillKeeps` | src/sched/sched.c:73-75 | The death of a running task other than the first keeps the invariant |
| `Scheduler.RemoveKeeps` | src/sched/sched.c:81-100 | Reaping the task at the scan position keeps the invariant |
| `Scheduler.CreateKeeps` | src/sched/sched.c:33-67 | A new task keeps the invariant while the list stays below its size |
| `Scheduler.RemovalInBounds` | src/sched/sched.c:91-95 | The shift of a removal reads up to slot `tid`, so it stays inside the list exactly when that is not full |
| `Scheduler.IdleKeepsRecord` | src/sched/sched.c:102-122 | The record of a task that does not run stays as it is |
| `Scheduler.IdleThenDispatched` | src/sched/sched.c:102-122 | The interrupt that dispatches a task that has been idle loads the registers and the page map of its record |
| `Scheduler.BirthIs` | src/sched/sched.c:33-67 | A birth puts the task behind all others, which keep their records, as do the scan position and the running task |
| `Scheduler.DeathIs` | src/sched/sched.c:73-75 | A death marks exactly the running task as dead |
| `Scheduler.FirstTask` | src/sched/sched.c:33-122 | The first task makes the scheduler ready, and the first interrupt loads its registers |
| `Scheduler.TickAlive` | src/sched/sched.c:102-122 | When the next task is alive only the scan position moves |
| `Scheduler.TickDead` | src/sched/sched.c:113-121 | When the next task is dead it is unlinked and the scan starts over |
| `Scheduler.ReapNext` | src/sched/sched.c:113-121 | The next dead task is unlinked when the scan reaches it, at its cyclic distance |
| `Scheduler.Sched.CreateNewTask` | src/sched/sched.c:33-67 | Appends a task to the list |
| `Scheduler.Sched.KillCurrent` | src/sched/sched.c:73-75 | Refines `Kill` |
| `Scheduler.Sched.RemoveTask` | src/sched/sched.c:81-100 | The in-place shift refines `Remove` |
| `Scheduler.Sched.SwitchTask` | src/sched/sched.c:102-122 | Refines `Switch` and returns the registers to go on with |
| `Initrd.ValueOfBytes` | initrd/quasfs.c:26-34 | Words written little-endian read back |
| `Initrd.Extents` | initrd/quasfs.c:25-35 | File extents follow each other without gaps |
| `Initrd.ContentInImage` | initrd/quasfs.c:46-54 | Every file's bytes are in the image at its address, inside it |
| `Initrd.HeaderRead` | src/initrd/quasfs.c:16-36 | The reader sees name, address and size of every header, whatever each unwritten byte of the image is |
| `Initrd.Layout` | initrd/quasfs.c:6-60 | The format of an image in byte offsets: signature, number of files, and in each header of 80 bytes the magic number, the name, the address and the size |
| `Initrd.WordBytes` | src/initrd/quasfs.c:16-36 | A word is eight bytes, the least significant one first |
| `Initrd.HeadRead` | src/initrd/quasfs.c:7-14 | The reader sees the signature and the file count |
| `Initrd.StrEqExact` | src/initrd/quasfs.c:20-20 | The string comparison succeeds exactly when the image holds the bytes of the name and a NUL |
| `Initrd.Pack` | initrd/quasfs.c:18-60 | The packer writes the specified image |
| `Initrd.FillHeaders` | initrd/quasfs.c:25-35 | The running address is the sum of the sizes before |
| `Initrd.Reader.Init` | src/initrd/quasfs.c:7-14 | Succeeds exactly when the image starts with the bytes `QUAS` and a NUL |
| `Initrd.Reader.Read` | src/initrd/quasfs.c:16-25 | The address in the first header with the name, or nothing |
| `Initrd.Reader.Ftell` | src/initrd/quasfs.c:27-36 | The size in the first header with the name, or zero |

## Left out

- The embedder's callback: it is NULL in this kernel, so bell, status and position reports and unknown modes have
  no effect.
- The code page, character width, 256-colour and line-drawing tables are parameters; a width is 0, 1 or 2. An SGR
  index of 256 or more reads behind the colour table; the parameter may return anything for it.
- The struct of the terminal is split: fields the backend reads are in `Framebuffer`, the parser's in one record of
  `Terminal`. The clamping of a parameter by CUU, CUD and the like works on a copy; the buffer is dead afterwards.
- The allocation of the terminal's arrays and the generation of its font and canvas are inputs of the constructor;
  `flanterm_fb_deinit` is not modelled.
- The switches that compile canvas support out are off, as in this build.
- `vmm_init`: its boot mappings are calls of `Map`; the translation buffer has no counterpart. `mmap` and
  `vmm_alloc_map_pages` are loops of `Map` like `MapPages`.
- The page bitmap is an array of its own, although the kernel keeps it inside the pages it excludes; reads and
  writes through mapped pages are not modelled.
- `pmm_alloc` without a free run, and a bitmap that does not cover the memory: excluded by preconditions, since the
  kernel has no working path for them.
- Printing through a function instead of a buffer, floating point (compiled out), and the stores of `%n`.
- Conversion specifications that go on with a flag, a digit, a point, an asterisk or a length modifier out of place,
  as in `%5-d` or `%hld`: the code prints that character, and the standard gives them no meaning.
- What the printer reads behind the terminator of a format that is cut off; section 7.21.6.1 of ISO/IEC 9899:2011
  leaves such a format without meaning.
- Task records hold registers, page map and death; names, arguments, identifiers and the lock have no property here.
  Steps are atomic, on one core.
- `quasfs_dir` (its buffer is too small for its entries), and the packer's file errors.
- `libc/lock.c`, `heap/heap.c`, `exec/`, `sched/ipc.c`, the drivers and the window manager.
- Operating system commands with C1 controls and broken UTF-8 in their text.
