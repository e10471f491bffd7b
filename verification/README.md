# Verified models of TomatoOS

TomatoOS is a hobby x86-64 kernel with the Flanterm terminal and the uACPI interpreter built in. This project models
the parts of it whose correctness is hard to see from the code, and proves what they promise, for all inputs and all
runs. It is checked with `dafny verify dfyconfig.toml`.

| part | files | what is proved |
|---|---|---|
| ACPI fields (`src/uacpi/io.c`, `interpreter.c`) | `Bits`, `BitCopy`, `BufferField`, `FieldUnit`, `FieldLayout` | the bit copier, the fast paths against the general ones, and that the fields of a list act as separate variables under every run of stores |
| Kernel heap (`src/kmem`) | `HeapMemory`, `HeapList`, `Heap` | over a byte array that also holds the headers: every handle reads back what was last written through it, in bounds, apart from the others and off all headers, in every run |
| Pages (`src/mem`) | `Pmm`, `Paging` | first fit by bitmap; the four-level tables as one map from page to entry, down to every byte of a mapping and every table it takes |
| Terminal (`src/flanterm`) | `Framebuffer`, `Editing`, `Parser`, `Terminal`, `Sequences` | the drawing cache as a plain grid, the flush, which cells each editing sequence changes, every byte stream as a run of steps on parser and grid, and laws of whole sequences of bytes |
| Locks (`src/uacpi/mutex.c`, `event.c`) | `GlobalLock`, `RwLock` | all interleavings of the lock steps, as state machines |
| General-purpose events (`src/uacpi/event.c`) | `Gpe` | masks against user counts, with failing register accesses |
| Namespace (`src/uacpi/namespace.c`) | `NamespaceTree`, `NamespaceWalk`, `NamespacePath` | relinking, the walk and the teardown without recursion, paths there and back |
| BCD (`src/uacpi/interpreter.c`) | `Bcd` | the two conversions and when they undo each other |

`Arith` holds shared arithmetic. Code that changes things step by step is modelled by classes, arrays and loops with
invariants; each such method is tied to a function or predicate on sequences, and the laws are lemmas about those. The
locks are step relations, because their subject is interleaving.

## What turned out not to hold

In each case the model does what the code does, and the condition under which the promise holds is proved.

- `align4` and `sbrk` work modulo 2^64. `Heap.Align4Covers`: the rounded size covers the request exactly up to 2^64 - 4.
  `Heap.Heap.Kmalloc`: a pointer it returns covers the request if and only if break, header and rounded size add up to
  less than 2^64. `Heap.ShortGrant` is a call that gets less than it asked for, `Heap.WrappedGrant` one that gets
  a pointer above the break; what callers hold is untouched even then, but the break no longer is where the blocks end.
- `kfree` never lowers the break: in `Heap.Heap.Kfree` the call of `cbrk` is unreachable. It can give up
  the whole list, and `Heap.Heap.FindBlock` searches the current one only.
- `pmm_alloc_page` with size 0, or a size within a page of 2^64, counts no pages, and only with those (`Pmm.PagesCover`).
- The offset of an access to a field is kept in 32 bits. A field that ends past byte 2^32 of a region that long is read
  and written around its end: `FieldUnit.ReadRight` and `FieldUnit.WriteRight` have the exact conditions, and in
  `FieldLayout.WrapsAround` a store succeeds and changes byte 0.
- The byte offset of a field is kept in 32 bits, so a field starts where it was laid out exactly if that is below bit
  2^35 (`FieldLayout.FieldAtStart`).
- `map_page` over more than 2^36 pages comes back to its first page, and entries name frames below 2^52 bytes only.
  `Paging.ByteOfRun` says for each byte when it is mapped as asked, `Paging.PageTables.KernelMap` when a whole range is.
- `flanterm_full_refresh` draws the cursor but does not record where. Even with nothing queued, a cell can stay in
  swapped colours for good (`Framebuffer.StaleCursor`); `Framebuffer.Screen.FullRefresh` gives the exact condition, and
  the one under which it leaves the queue unsound.
- Erasing types blanks at the cursor. What is erased from the cursor on or up to it stops at the bottom margin and at a
  row as far down as the screen is wide (`Editing.ErasesRest`, `Editing.ErasesTo`), and a cursor that waits at the right
  edge erases below instead (`Editing.ErasesLine`). Deleting more characters than there are to the right of the cursor
  can blank cells to its left or in the next row (`Editing.DeletesRest`, for every count); erasing characters can run on
  into the next row (`Editing.BlanksStay`).
- Bright colours by their own numbers are not remembered as bright, and bold or blink in reverse video without a colour
  takes the wrong default; apart from the colours of 38 and 48, these are the only numbers after which colours and
  attributes can disagree (`Parser.LooksKept`).
- `flanterm_fb_raw_putchar` scrolls only at the bottom margin and cuts the cursor's row only by the number of columns.
  After the right edge a character goes into the next row if and only if that is a row of the screen and its number is
  less than the number of columns; otherwise it goes above it, or, below the screen, nowhere (`Framebuffer.WrapsInto`).
  `Framebuffer.NarrowScreen` is a screen on which it overwrites the first row. `Framebuffer.LeavesBelow` says when the
  cursor leaves the screen, and in `Sequences.LostBelow` bytes that set margins and fill the last row lose the next
  character (`Sequences.LostOnFiveRows` on five rows of ten). The row always stays below the greater of rows and columns
  (`Parser.StepBeside`).
- Inserting no characters, ESC [ 0 @, wipes the rest of the line (`Editing.OpensGap`).
- Cursor moves add and subtract modulo 2^64 and are clamped as 32-bit numbers; they stop at the edge of the screen
  exactly under the condition of `Framebuffer.Saturates`.
- After all runtime events have been enabled while one of them was masked, unmasking that one does not enable it
  (`Gpe.LostUnmask`; the exact condition is in `Gpe.Block.MaskUnmask`). Disabling an event for wake keeps that event's bit
  and clears the other seven (`Gpe.Block.EnableDisableForWake`).
- ToBCD of a number of more than sixteen digits keeps only the digits above the sixteenth (`Bcd.ThereAndBack`).
- The text of an operating system command is swallowed whole if and only if no byte but its last is other than an escape
  (`Sequences.OscSwallows`): ESC ] 0 ; a BEL types ";a" (`Sequences.OscTitle`), and code points inside a command are
  printed while it stays open (`Sequences.OscCodePoint`).
- A control sequence cancelled after its ? leaves the mark behind (`Sequences.PrivateLeft`), and the next cursor sequence
  then does nothing (`Sequences.CursorPositioned`, both directions).
- A walk of the namespace takes a node without an object to be like the one before it. It calls for exactly the wanted
  nodes if and only if no such node is visited when the last node with an object was wanted
  (`NamespaceWalk.ForEachInOrder`); `NamespaceWalk.CalledUnwanted` is a tree on which it calls for one more.
- A namespace path finds the first node of each name, so a node's own path leads back to it exactly if no earlier peer
  shares a name on the way (`NamespacePath.RoundTrip`).

## Model

| member | source | states |
|---|---|---|
| `BitCopy.BitSpan.Offset` | src/uacpi/io.c:38-46 | Drops exactly min(bits, length) bits from the front of a span. |
| `BitCopy.GatherBit` | src/uacpi/io.c:60-75 | Bit j of the eight source bits fetched across two bytes, for every shift and count; zero past the count. |
| `BitCopy.FetchBits` | src/uacpi/io.c:60-75 | The fetched byte is the next at most eight bits of the source span, padded with zeroes; the second byte is read only if needed. |
| `BitCopy.StoreBits` | src/uacpi/io.c:76-88 | Stores the next at most eight bits across two destination bytes and changes no other bit. |
| `BitCopy.Copy` | src/uacpi/io.c:48-95 | Destination bit index+k becomes source bit index+k, or zero past a shorter source, for every k below the length; no other bit changes; for all indices and lengths. |
| `BufferField.MemcpyZerout` | src/uacpi/stdlib.c:112-122 | Copies the source bytes cut or zero-padded to the destination size, and touches nothing else. |
| `BufferField.CutMisalignedTail` | src/uacpi/io.c:16-26 | Clears the bits above the bit length in the last byte, keeps all others. |
| `BufferField.ReadMisaligned` | src/uacpi/io.c:97-112 | Any field: its bits, zero-padded to whole bytes, land in the destination. |
| `BufferField.ReadAligned` | src/uacpi/io.c:114-129 | The byte-aligned path meets the same contract as the general one. |
| `BufferField.ReadsAgree` | src/uacpi/io.c:97-129 | On byte-aligned fields both read paths leave the same bytes. |
| `BufferField.Read` | src/uacpi/io.c:114-129 | Reading gives the field's bits, zero-padded to whole bytes; bytes past them are untouched. |
| `BufferField.WriteMisaligned` | src/uacpi/io.c:131-147 | Any field takes the value's bits, cut or zero-padded; every other bit of the buffer is unchanged. |
| `BufferField.WriteAligned` | src/uacpi/io.c:149-177 | The byte-aligned path with its saved tail meets the same contract as the general one. |
| `BufferField.WritesAgree` | src/uacpi/io.c:131-177 | On byte-aligned fields both write paths leave the same bytes. |
| `BufferField.Write` | src/uacpi/io.c:149-177 | The field takes the value's bits, cut or zero-padded; nothing else changes. |
| `FieldUnit.AccessRead` | src/uacpi/opregion.c:896-915 | An access succeeds exactly if it lies inside the region, and then gives those bytes zero-extended. |
| `FieldUnit.AccessWrite` | src/uacpi/opregion.c:896-915 | An access succeeds exactly if it lies inside the region, and then writes those bytes only. |
| `FieldUnit.WalkStep` | src/uacpi/io.c:408-457 | Access after access, the walk over a field stays at the next bit of the field and ends with its last access. |
| `FieldUnit.WalkWraps` | src/uacpi/io.c:408-457 | The offset kept in 32 bits is that of the walk, or 2^32 less once past it; no access straddles the wrap, and none after it comes back to the field's start. |
| `FieldUnit.ReadMisaligned` | src/uacpi/io.c:408-457 | Access by access, for regions of any length: succeeds exactly if every access up to byte 2^32 is in bounds, and gives the field's bits, taken around that end, cut or padded to the destination. |
| `FieldUnit.ReadSingle` | src/uacpi/io.c:459-507 | The single-access path meets the same contract. |
| `FieldUnit.ReadsAgree` | src/uacpi/io.c:408-507 | Where both apply, single-access and general read give the same bytes or both fail. |
| `FieldUnit.Read` | src/uacpi/io.c:459-507 | For regions of any length: when it succeeds, and the field's bits, taken around byte 2^32, cut for a short destination and zero-padded for a long one. |
| `FieldUnit.ReadRight` | src/uacpi/io.c:408-507 | A read gives the field's own bits or fails if and only if the field ends by byte 2^32 or the region is shorter than that; the only if is for regions whose bits 0 and 2^35 differ. |
| `FieldUnit.PrepareUnit` | src/uacpi/io.c:509-574 | The bits of an access outside the field are as the update rule wants them; a rule that is none is refused if there are such bits. |
| `FieldUnit.WriteRound` | src/uacpi/io.c:530-571 | One more access written extends the part of the region that is as it should be. |
| `FieldUnit.Write` | src/uacpi/io.c:509-574 | For regions of any length: field bits become the value's, around byte 2^32, the other bits of its accesses follow the update rule, everything else is unchanged; after a failure this holds up to the failing access; and which inputs fail. |
| `FieldUnit.WriteRight` | src/uacpi/io.c:509-574 | A complete write stores the value in the field and nothing elsewhere if the field ends by byte 2^32; otherwise bit 0 of the region gets a bit of the value. |
| `FieldUnit.ReadBack` | src/uacpi/io.c:408-574 | After a complete write the field reads back the value, whatever the update rule. |
| `FieldUnit.OtherBitsKept` | src/uacpi/io.c:509-574 | Under the Preserve rule a write leaves every bit outside the field unchanged. |
| `FieldUnit.OtherFieldsKept` | src/uacpi/io.c:509-574 | Under the Preserve rule a write leaves the value of every disjoint field unchanged. |
| `FieldLayout.FieldAtStart` | src/uacpi/interpreter.c:1740-1802 | A field starts where it was laid out if and only if that is below bit 2^35. |
| `FieldLayout.LayOut` | src/uacpi/interpreter.c:1612-1868 | Stops at the first item of no known kind or field under a reserved access type, with the error that item deserves; up to there each named item has a field of its length, at the sum of the lengths before it, of the access width in force. |
| `FieldLayout.FieldsDisjoint` | src/uacpi/interpreter.c:1740-1802 | Fields of one list never share a bit and lie within the list. |
| `FieldLayout.FieldsAreVariables` | src/uacpi/interpreter.c:1740-1802 | After every run of stores to the fields of one list, each field reads as the last value stored to it, cut or padded, or as at the start. |
| `FieldLayout.Play` | src/uacpi/io.c:408-574 | The same through the code: stores made one after the other by `FieldUnit.Write`, then a read by `FieldUnit.Read`, give that value; nothing fails if all accesses lie inside the region. |
| `FieldLayout.WrapsAround` | src/uacpi/io.c:509-574 | A field across byte 2^32 of a region that long: the store succeeds and byte 0 is overwritten. |
| `FieldLayout.RulesKept` | src/uacpi/interpreter.c:1740-1802 | Every field has the update rule of its list. |
| `HeapMemory.LeRoundTrip` | src/include/kmem.h:9-16 | Little-endian bytes of a number give the number back. |
| `HeapMemory.StoreHeader` | src/include/kmem.h:9-16 | Storing one member of a header changes that member of that header only. |
| `HeapList.SplitInv` | src/kmem/kmalloc.c:39-52 | Splitting keeps the blocks apart, ordered and linked. |
| `HeapList.AbsorbInv` | src/kmem/kfree.c:5-14 | Merging with the next block keeps them so. |
| `HeapList.ExtendInv` | src/kmem/kmalloc.c:54-70 | So does a new block at the break, hung onto a chain or starting one. |
| `HeapList.UnlinkInv` | src/kmem/kfree.c:46-72 | So does unlinking the last block, which leaves a gap and null back links. |
| `HeapList.GiveUpInv` | src/kmem/kfree.c:46-72 | So does giving up the whole list. |
| `Heap.Align4RoundsUp` | src/include/kmem.h:5 | `align4` is rounding up to a multiple of four, modulo 2^64. |
| `Heap.Align4Covers` | src/include/kmem.h:5 | The rounded size covers the request if and only if it is at most 2^64 - 4. |
| `Heap.GrantCovers` | src/kmem/kmalloc.c:26-70 | Without a free block to reuse, what `sbrk` grants covers header and data if and only if the sizes do not wrap, or wrap and do not fit. |
| `Heap.Heap.constructor` | src/kmem/kmalloc.c:20-24 | An empty heap, nothing held. |
| `Heap.Heap.SplitBlock` | src/kmem/kmalloc.c:39-52 | The headers in memory become those of the split list; what callers hold is untouched. |
| `Heap.Heap.FindBlock` | src/kmem/kmalloc.c:9-18 | The first free block of the current chain that is large enough; none exactly if the chain has none. |
| `Heap.Heap.Sbrk` | src/kmem/kmalloc.c:26-37 | Moves the break exactly when the new one, as a 64-bit number, is not past the end. |
| `Heap.Heap.ExtendHeap` | src/kmem/kmalloc.c:54-70 | For every size: null exactly if `sbrk` refuses; otherwise the break moves as it says, and there is one more block at the old break, in the list and in memory, with everything held still there; the heap is valid if nothing wraps. |
| `Heap.Heap.Kmalloc` | src/kmem/kmalloc.c:72-103 | For every size: null if and only if no free block of the chain fits and `sbrk` refuses; a pointer covers the request if and only if break, header and rounded size add up to less than 2^64, a size for which they do not being larger than the heap; the pointer was not held and all other contents are unchanged; unless a grant wraps, the heap is valid, and if one does, only the break is not at the end of the blocks. |
| `Heap.Heap.MergeBlocks` | src/kmem/kfree.c:5-14 | Takes over a free next block and repairs the back link. |
| `Heap.Heap.IsAddrValid` | src/kmem/kfree.c:29-36 | For every address: accepts exactly those between the base of the current chain and the break that a header before them points to; a held one it accepts belongs to that chain. |
| `Heap.Heap.Kfree` | src/kmem/kfree.c:46-72 | The pointer is no longer held; everything else is unchanged; the break does not move. |
| `Heap.Heap.ResizeInPlace` | src/kmem/krealloc.c:15-42 | Shrinks or grows into a free neighbour, keeping the bytes, or says that it cannot. |
| `Heap.Heap.MoveBlock` | src/kmem/krealloc.c:44-60 | Moves to a new block and copies as many bytes as both hold, for every size; covers the request under the condition of `Kmalloc`. |
| `Heap.Heap.Krealloc` | src/kmem/krealloc.c:4-61 | For every size: on success a block that covers the request if and only if `Kmalloc`'s condition holds, starting with the bytes that both sizes hold; on failure nothing changes; size zero frees. |
| `Heap.Heap.WriteByte` | src/kmem/kmalloc.c:72-103 | A caller's write to a byte it holds changes that byte of its data and nothing else anyone holds. |
| `Heap.Heap.HeldApart` | src/kmem/kmalloc.c:72-103 | Data of two held pointers lie inside the heap and never overlap. |
| `Heap.Heap.HeldOffHeaders` | src/kmem/kfree.c:46-72 | Held data never overlap the header of a block of any chain, current or given up. |
| `Heap.Heap.Play` | src/kmem/kmalloc.c:72-103 | After any calls of malloc, free, realloc and writes, of any sizes, every handle reads back what was last written through it, kept up to the shorter size by each realloc; held data are in bounds, pairwise apart, off every header and at least as long as asked; unless some call was granted although break, header and size do not add up to less than 2^64. |
| `Heap.ShortGrant` | src/kmem/kmalloc.c:72-103 | On a fresh heap a request of 2^64 - 1 bytes gets a block of fewer. |
| `Heap.WrappedGrant` | src/kmem/kmalloc.c:26-70 | On a fresh heap a request that wraps around with its header gets a pointer, and the break stays below it. |
| `Pmm.PagesCover` | src/mem/pmm.c:111-112 | The pages counted cover the request if and only if rounding up does not wrap; none are counted exactly for size zero and those sizes. |
| `Pmm.Pages.AllocPage` | src/mem/pmm.c:111-134 | Marks exactly the lowest run of enough clear pages, and fails only if there is none, although the scan jumps ahead. |
| `Pmm.Pages.Free` | src/mem/pmm.c:136-142 | Clears exactly the given pages; address zero is ignored. |
| `Pmm.Pages.Perform` | src/mem/pmm.c:111-142 | A call of the allocator is a step of the run relation. |
| `Pmm.TakeOne` | src/mem/pmm.c:111-134 | A clear page is found if there is one, and taking it leaves one less. |
| `Pmm.AllocKeeps` | src/mem/pmm.c:111-134 | Allocation keeps outstanding ranges marked, unreserved and disjoint. |
| `Pmm.ReleaseKeeps` | src/mem/pmm.c:136-142 | Freeing what was allocated keeps them so. |
| `Pmm.RunKeeps` | src/mem/pmm.c:111-142 | In every run, outstanding ranges are disjoint and never include a reserved page. |
| `Paging.IndicesDetermine` | src/mem/paging.c:110-117 | Two addresses have the same four table indices if and only if they are in the same page. |
| `Paging.NodeUnique` | src/mem/paging.c:110-145 | In a tree of tables, addresses that reach the same table agree on all indices above it. |
| `Paging.PutLeaf` | src/mem/paging.c:188-192 | Writing one last-level entry changes the entry of that page and of no other. |
| `Paging.HangLeaf` | src/mem/paging.c:147-161 | Hanging a cleared table changes the entry of no page. |
| `Paging.HangNode` | src/mem/paging.c:147-161 | Hanging a cleared table on an absent entry adds that table to the ways through the entry and changes no other way. |
| `Paging.PageTables.constructor` | src/mem/paging.c:81-85 | A cleared top table maps nothing. |
| `Paging.PageTables.AllocateEntry` | src/mem/paging.c:147-161 | A page that was clear is taken, cleared and hung on the entry, or nothing changes. |
| `Paging.PageTables.MapOne` | src/mem/paging.c:162-195 | Succeeds if and only if there are as many clear pages as the address lacks tables, and takes just those; then one page gets its new entry, all others keep theirs, and only tables and clear pages are written. After a failure no page is clear. |
| `Paging.PageTables.MapPage` | src/mem/paging.c:162-195 | Succeeds if and only if there are as many clear pages as the run lacks tables, each counted once, and takes just those; then the mapping is the old one with the run laid over it, later over earlier, and no other memory is touched. After a failure no page is clear. |
| `Paging.FewTables` | src/mem/paging.c:162-195 | A run of n pages lacks at most n / 2^9 + n / 2^18 + n / 2^27 + 6 tables. |
| `Paging.AfterHit` | src/mem/paging.c:162-195 | A page that no later page of the run falls on gets the entry made for it. |
| `Paging.ByteOfRun` | src/mem/paging.c:162-195 | Byte t of a run, for every physical address, translates to the physical byte that far on if and only if that is below 2^52 and the run does not come back to its page, or only with its frames. |
| `Paging.PageTables.GetPhysicalAddress` | src/mem/paging.c:110-145 | Translation by the four levels, absent if one is not present. |
| `Paging.PageTables.KernelMap` | src/cpu/kernel_api.c:24-36 | For every address and length: succeeds exactly if there are pages for the tables lacking; then every byte of an unaligned range can be reached from the returned pointer if and only if the range ends by byte 2^52 and spans at most 2^48 bytes from the start of its page. |
| `Framebuffer.Room` | src/flanterm/fb.c:592-615 | A cell without a queue item leaves room in the queue: items are about distinct cells, so there are at most rows times columns. |
| `Framebuffer.Screen.PushToQueue` | src/flanterm/fb.c:592-615 | A push is an update of one cell of the plain grid; outside the screen it is nothing. |
| `Framebuffer.Screen.Scroll` | src/flanterm/fb.c:646-670 | Exactly the rows inside the margins move up and the last becomes blank, though cells are copied in place. |
| `Framebuffer.Screen.RevScroll` | src/flanterm/fb.c:617-644 | Exactly the rows inside the margins move down and the first becomes blank, down to a counter that wraps. |
| `Framebuffer.Screen.Clear` | src/flanterm/fb.c:672-687 | Every cell becomes blank. |
| `Framebuffer.Screen.MoveCharacter` | src/flanterm/fb.c:719-740 | One cell is copied to another place, or nothing if either is outside. |
| `Framebuffer.Saturates` | src/flanterm/fb.c:689-709 | A cursor moved left or right, up or down, by some amount stops at the edge if and only if it stays on the screen, the screen has one cell that way, or what is left, as a signed 32-bit number, has the right sign. |
| `Framebuffer.Screen.RawPutchar` | src/flanterm/fb.c:868-890 | Matches the plain grid: wrap, scroll, put, advance. |
| `Framebuffer.WrapsInto` | src/flanterm/fb.c:868-890 | Past the right edge a character is typed at the start of the next row, or of the last one after a scroll, if and only if that is a row of the screen and its number is less than the number of columns; otherwise into the last row with such a number, or nowhere if that is below the screen. |
| `Framebuffer.LeavesBelow` | src/flanterm/fb.c:868-890 | A character takes the cursor below the screen if and only if it wraps on the last row, with the bottom margin above it and more columns than rows. |
| `Framebuffer.NarrowScreen` | src/flanterm/fb.c:868-890 | Two characters on a screen of three rows and one column: the second overwrites the first. |
| `Framebuffer.Screen.DrawCursor` | src/flanterm/fb.c:808-832 | The cell under the cursor is shown in swapped colours and leaves the queue; the contents do not change. |
| `Framebuffer.Screen.DrainQueue` | src/flanterm/fb.c:841-851 | Every queued cell is drawn once and the grid becomes the contents. |
| `Framebuffer.Screen.Flush` | src/flanterm/fb.c:834-866 | Nothing stays queued, contents are unchanged, and a faithful display comes to show them, swapped under an enabled cursor. |
| `Framebuffer.FlushShows` | src/flanterm/fb.c:834-866 | After a flush the display shows the contents if and only if the cells the flush left alone were right. |
| `Framebuffer.Screen.FullRefresh` | src/flanterm/fb.c:892-918 | Contents never change; the cache stays sound, and the display repairable, each under an exact condition on cursor and queue. |
| `Framebuffer.StaleCursor` | src/flanterm/fb.c:892-918 | A run after which a flushed display is wrong although nothing was queued at the refresh. |
| `Framebuffer.Screen.constructor` | src/flanterm/fb.c:1163-1246 | The initial screen is sound and shown. |
| `Framebuffer.Screen.Play` | src/flanterm/fb.c:592-890 | Every run of operations has the effect of the same run on a plain grid, and whenever it ends in a flush the display shows that grid. |
| `Editing.BlanksFromRow` | src/flanterm/flanterm.c:689-723 | Blanks typed from the start of a row, without scrolling, wipe as many cells as there are blanks, but none after the last row they can get to. |
| `Editing.BlanksAnywhere` | src/flanterm/flanterm.c:689-779 | Which cells a number of blanks wipe, from any cursor. |
| `Editing.EraseRest` | src/flanterm/flanterm.c:691-700 | J 0 wipes the rest of the line, unless the cursor waits at the right edge, and the rows below that blanks can get to. |
| `Editing.ErasesRest` | src/flanterm/flanterm.c:691-700 | J 0 erases everything from the cursor on, whatever it is, if and only if the cursor is on the screen and on the last row, or the bottom margin is the last row and the screen is not taller than wide. |
| `Editing.ErasesTo` | src/flanterm/flanterm.c:701-717 | J 1 erases everything up to the cursor if and only if its row is above the bottom margin and less than the width. |
| `Editing.ErasesLine` | src/flanterm/flanterm.c:757-764 | K 0 erases the rest of the line if and only if the cursor is on the screen and does not wait at the right edge; on a screen of one column its top row is an exception. |
| `Editing.BlanksStay` | src/flanterm/flanterm.c:740-747 | X stays in its line if and only if the blanks fit or there is no row to go on to. |
| `Editing.OpenStep` | src/flanterm/flanterm.c:724-734 | One step of @, from the right edge down: all cells to the right have moved by the gap and its places are blank. |
| `Editing.OpensGap` | src/flanterm/flanterm.c:724-734 | @ puts in as many blanks as asked and moves the rest of the line right if and only if at least one was asked for, or the rest is blank. |
| `Editing.CloseStep` | src/flanterm/flanterm.c:735-739 | One step of P: the cells up to this one have moved left. |
| `Editing.DeletesRest` | src/flanterm/flanterm.c:735-747 | P with any count takes cells out of the line and blanks its end if and only if there are that many to the right, or the blanks it types happen to stay there. |
| `Editing.ScrollOnce` | src/flanterm/flanterm.c:651-658 | Scrolling once more is moving the rows between the margins up by one row more. |
| `Editing.RevScrollOnce` | src/flanterm/flanterm.c:659-669 | The same downwards, also with the top margin at or below the bottom one. |
| `Parser.Collected` | src/flanterm/flanterm.c:515-540 | A byte of a control sequence keeps at most sixteen parameters of 32 bits, one under way only if there is room. |
| `Parser.DigitsCollected` | src/flanterm/flanterm.c:515-523 | Digits are collected into the decimal number they spell, modulo 2^32. |
| `Parser.NumberCollected` | src/flanterm/flanterm.c:515-540 | A number and its separator are one more parameter. |
| `Parser.Defaulted` | src/flanterm/flanterm.c:542-555 | Given parameters are kept; the others take the default of the sequence. |
| `Parser.Target` | src/flanterm/flanterm.c:565-650 | Every cursor sequence sends the cursor to a place on the screen. |
| `Parser.MarginsFor` | src/flanterm/flanterm.c:780-803 | The margins set always satisfy top < bottom <= rows. |
| `Parser.LooksKept` | src/flanterm/flanterm.c:131-344 | A number of an m sequence keeps the colours those the attributes stand for, if and only if it is none of four kinds, or the colours in question are the same. |
| `Parser.ReverseTwice` | src/flanterm/flanterm.c:329-344 | Reverse video on and off again is nothing. |
| `Parser.StepOk` | src/flanterm/flanterm.c:1434-1475 | The bits of the bytes to come are clear in the code point so far. |
| `Parser.EncodedSteps` | src/flanterm/flanterm.c:1462-1475 | The first byte of a code point (section 3 of RFC 3629) announces how many follow, also in the middle of another one. |
| `Parser.EncodedAt` | src/flanterm/flanterm.c:1434-1445 | Each further byte adds its six bits; the last completes the code point. |
| `Parser.StepBeside` | src/flanterm/flanterm.c:1422-1573 | Every byte leaves the cursor, and the saved one, at most one column beside the screen and in a row below the greater of rows and columns, with scrolling on; in a row of the screen if the bottom margin is the last row or the screen is not wider than tall. |
| `Parser.StepSteady` | src/flanterm/flanterm.c:1422-1573 | Every byte keeps the parser in range and the grid proper, so that runs of steps are defined for all byte streams. |
| `Terminal.Terminal.Reinit` | src/flanterm/flanterm.c:86-116 | Reinitialising restores the whole-screen margins and a parser at rest. |
| `Terminal.Terminal.Sgr` | src/flanterm/flanterm.c:131-400 | Attributes and colours become those of the recursive account of the numbers; palette indices stay below eight. |
| `Terminal.Terminal.EraseDisplay` | src/flanterm/flanterm.c:689-723 | J: exactly the cells of `Parser.DisplayErased` become blank, and the cursor is back. |
| `Terminal.Terminal.EraseLine` | src/flanterm/flanterm.c:757-779 | K: exactly the cells of `Parser.LineErased` become blank. |
| `Terminal.Terminal.OpenGap` | src/flanterm/flanterm.c:724-734 | @: the rest of the line moves right by the gap, which is blank, a gap of none wiping it; the counter never passes the cursor. |
| `Terminal.Terminal.CloseGap` | src/flanterm/flanterm.c:735-747 | P and X: the cells of `Parser.GapClosed`. |
| `Terminal.Terminal.ControlScreen` | src/flanterm/flanterm.c:560-803 | Every sequence that edits the screen or moves the cursor turns the plain grid into the one `Parser.Controlled` says. |
| `Terminal.Terminal.ControlSequenceParse` | src/flanterm/flanterm.c:502-817 | A byte of a control sequence does what `Parser.SequenceActs` says to parser and grid, and scrolling is switched back. |
| `Terminal.Terminal.EscapeParse` | src/flanterm/flanterm.c:841-916 | A byte after an escape does what `Parser.EscapeActs` says. |
| `Terminal.Terminal.Putchar` | src/flanterm/flanterm.c:1422-1573 | For every byte and every state between bytes, parser and plain grid make the step `Parser.Stepped`, and such a state is left. |
| `Terminal.Terminal.WriteCodePoint` | src/flanterm/flanterm.c:1422-1475 | The bytes of every code point, also in the middle of another, print it: its glyph, or the replacement and blanks; nothing else of the parser changes. |
| `Terminal.Terminal.Write` | src/flanterm/flanterm.c:120-129 | For every byte stream parser and plain grid make the run of steps of its bytes; parser in range, cache sound, margins proper throughout; and with automatic flushing the display shows the last grid. |
| `Sequences.OscRuns` | src/flanterm/flanterm.c:480-500 | ESC ] and any text of bytes that start no code point: escapes keep the command open, the first other byte ends it, and the rest runs as ordinary bytes. |
| `Sequences.OscSwallows` | src/flanterm/flanterm.c:480-500 | Such a text, with or without 0x18 and 0x1A, is swallowed whole if and only if no byte but the last is other than an escape; then the screen is unchanged. |
| `Sequences.OscTitle` | src/flanterm/flanterm.c:480-500 | ESC ] 0 ; a BEL types the characters ; and a. |
| `Sequences.OscCodePoint` | src/flanterm/flanterm.c:1422-1475 | A code point inside a command is printed, and the command stays open. |
| `Sequences.SequenceRuns` | src/flanterm/flanterm.c:502-564 | ESC [, digits and separators, and a final byte act as that byte with the parameters collected. |
| `Sequences.CursorPositioned` | src/flanterm/flanterm.c:565-650 | ESC [ r ; c H, for all strings of digits, puts the cursor on the row and column given, 1 for 0, cut to the screen, and leaves the cells alone; it does nothing exactly if a mark is left from a cancelled sequence. |
| `Sequences.PrivateLeft` | src/flanterm/flanterm.c:1422-1573 | ESC [ ? CAN ends at rest with the mark left. |
| `Sequences.MarginsSet` | src/flanterm/flanterm.c:780-803 | ESC [ t ; b r, for all strings of digits, sets the margins if they are two rows of the screen or more, else the whole screen, and sends the cursor home. |
| `Sequences.TextTyped` | src/flanterm/flanterm.c:1422-1573 | Printable bytes at rest are typed one after the other and change nothing else. |
| `Sequences.StepLeavesBelow` | src/flanterm/flanterm.c:1422-1573 | A printable byte takes the cursor below the screen exactly in the case of `Framebuffer.LeavesBelow`. |
| `Sequences.LostBelow` | src/flanterm/fb.c:868-890 | On every screen wider than tall: margins above the last row, the cursor sent to that row and a line of text; the next character changes no cell and the cursor is below the screen. |
| `Sequences.LostOnFiveRows` | src/flanterm/fb.c:868-890 | The same for twenty-three given bytes on five rows of ten. |
| `Sequences.SavedKept` | src/flanterm/flanterm.c:819-916 | No byte but the end of an ESC 7 changes what was saved. |
| `Sequences.RunKeepsSaved` | src/flanterm/flanterm.c:819-916 | Nor does any run of bytes that completes no ESC 7. |
| `Sequences.SavedAndRestored` | src/flanterm/flanterm.c:819-916 | After ESC 7, any bytes that complete no further ESC 7 and leave the parser at rest, and ESC 8, attributes, character set, colours and cursor are as they were, on the cells as the bytes left them. |
| `GlobalLock.PartsOfBits` | src/uacpi/mutex.c:20-53 | The masks set and clear just the owned and pending bits, and comparing words is comparing those. |
| `GlobalLock.OsTryKeeps` | src/uacpi/mutex.c:20-76 | Steps of an attempt keep the invariant. |
| `GlobalLock.OsWaitKeeps` | src/uacpi/mutex.c:78-93 | Steps of waiting and waking keep it. |
| `GlobalLock.OsReleaseKeeps` | src/uacpi/mutex.c:43-116 | Steps of a release keep it. |
| `GlobalLock.HandlerKeeps` | src/uacpi/event.c:2088-2113 | Steps of the interrupt handler keep it. |
| `GlobalLock.RunSafe` | src/uacpi/mutex.c:20-116 | It holds in every state of every interleaving. |
| `GlobalLock.MutualExclusion` | src/uacpi/mutex.c:20-116 | System and firmware never own the lock together. |
| `GlobalLock.ReleaseSeesPending` | src/uacpi/mutex.c:43-53 | A release reports pending if and only if an attempt failed since the lock was acquired. |
| `GlobalLock.NotificationNotLost` | src/uacpi/event.c:2088-2113 | When firmware and handler have nothing left to do, a waiting system has been signalled. |
| `RwLock.CountStep` | src/uacpi/mutex.c:353-384 | A thread's step changes the number of counted readers by that thread. |
| `RwLock.ReadKeeps` | src/uacpi/mutex.c:353-369 | Steps of taking a read lock, including failures, keep the invariant. |
| `RwLock.UnlockKeeps` | src/uacpi/mutex.c:371-384 | Steps of releasing one keep it, whichever thread comes last. |
| `RwLock.WriteKeeps` | src/uacpi/mutex.c:386-394 | Steps of the write lock keep it. |
| `RwLock.RunSafe` | src/uacpi/mutex.c:353-394 | It holds in every state of every interleaving of any number of threads. |
| `RwLock.WriterAlone` | src/uacpi/mutex.c:353-394 | With a writer inside there is no reader and no other writer. |
| `RwLock.CountExact` | src/uacpi/mutex.c:353-394 | Outside readers' steps the count is the number of readers, and the write mutex is held if and only if there is a writer or a reader. |
| `Gpe.Block.SetState` | src/uacpi/event.c:335-376 | Writes the event's enable bit exactly when not masked or when disabling, and only if both accesses work. |
| `Gpe.Block.ToggleMasks` | src/uacpi/event.c:1170-1185 | One bit of the runtime mask; the current mask follows. |
| `Gpe.Block.AddUser` | src/uacpi/event.c:1212-1235 | Runtime bit set if and only if there are users, including after rollback; masked events stay off. |
| `Gpe.Block.RemoveUser` | src/uacpi/event.c:1187-1205 | The same for the last user. |
| `Gpe.Block.MaskUnmask` | src/uacpi/event.c:1256-1304 | A masked event is off afterwards if and only if the access worked or it was off; an unmasked one comes on exactly if it is in the current mask and used. |
| `Gpe.Block.ApplyAction` | src/uacpi/event.c:698-736 | Registers up to the first failing write are as the action asks; all actions but enable-all-for-wake keep masked events off. |
| `Gpe.Block.EnableDisableForWake` | src/uacpi/event.c:1855-1890 | Enabling sets the bit; disabling keeps it and clears the other seven of the register. |
| `Gpe.LostUnmask` | src/uacpi/event.c:1256-1304 | A run that leaves a used, unmasked event off without any failing access. |
| `Gpe.Block.Play` | src/uacpi/event.c:1170-1304 | In every run the runtime mask tells who has users; if masking accesses work and enable-all-for-wake is not used, masked events are off. |
| `NamespaceTree.InstallLinked` | src/uacpi/namespace.c:302-329 | Appending a child keeps child, peer and parent links consistent. |
| `NamespaceTree.InstallNumbered` | src/uacpi/namespace.c:302-329 | The tree keeps a postorder numbering when a node is appended. |
| `NamespaceTree.Namespace.Install` | src/uacpi/namespace.c:302-329 | The node becomes the last child; a dangling one is refused. |
| `NamespaceTree.UninstallLinked` | src/uacpi/namespace.c:351-446 | Taking out a childless node keeps the links consistent. |
| `NamespaceTree.UninstallNumbered` | src/uacpi/namespace.c:351-446 | The tree keeps a postorder numbering. |
| `NamespaceTree.Namespace.Uninstall` | src/uacpi/namespace.c:351-446 | Removes exactly a childless node; refuses dangling nodes, parents and the root. |
| `NamespaceTree.KidBefore` | src/uacpi/namespace.c:208-265 | Children come before their parent in the postorder. |
| `NamespaceTree.Namespace.Wipe` | src/uacpi/namespace.c:226-229 | The inner loop only meets childless nodes, so no uninstall is refused. |
| `NamespaceTree.Namespace.Deinitialize` | src/uacpi/namespace.c:208-265 | Terminates on every tree, leaves the bare root, and every other node is uninstalled exactly once. |
| `NamespaceWalk.MoveOn` | src/uacpi/namespace.c:895-905 | What is left to do after a node is what is left at its next peer, or at its parent going up. |
| `NamespaceWalk.ForEachChild` | src/uacpi/namespace.c:834-936 | Terminates on every tree; makes exactly the callbacks of the recursive walk, up to the first that stops it, for every choice of callbacks, depth, wanted types and nodes without objects. |
| `NamespaceWalk.WalkOnce` | src/uacpi/namespace.c:834-936 | No callback is made twice. |
| `NamespaceWalk.WalkVisits` | src/uacpi/namespace.c:834-936 | If nothing turns the walk away, its callbacks are those visits, of all nodes down and up, at which the last answer of the type test is yes. |
| `NamespaceWalk.VisitsOrder` | src/uacpi/namespace.c:834-936 | Going down the visits are the preorder, going up the postorder of the subtree, as deep as asked. |
| `NamespaceWalk.AnswerMeans` | src/uacpi/namespace.c:790-806 | The last answer is yes if and only if the last visited node with an object is wanted. |
| `NamespaceWalk.MadeDue` | src/uacpi/namespace.c:834-936 | No wanted node is passed over; the callbacks are for wanted nodes only if and only if the visits are undisturbed. |
| `NamespaceWalk.ForEachInOrder` | src/uacpi/namespace.c:834-936 | With either callback or both, the loop calls for the wanted nodes in preorder going down and postorder going up if and only if its visits are undisturbed by nodes without objects. |
| `NamespaceWalk.ObjectsUndisturbed` | src/uacpi/namespace.c:790-806 | They are if every node has an object. |
| `NamespaceWalk.CalledUnwanted` | src/uacpi/namespace.c:790-806 | A tree on which the descending callback is made for a node without an object. |
| `NamespacePath.Depth` | src/uacpi/namespace.c:1015-1025 | The number of nodes above a node. |
| `NamespacePath.GenerateAbsolutePath` | src/uacpi/namespace.c:1034-1072 | The buffer is exactly as long as the path and its terminator, and is filled with it. |
| `NamespacePath.FindSubNode` | src/uacpi/namespace.c:448-466 | The first child with the name, or none. |
| `NamespacePath.SegmentToName` | src/uacpi/namespace.c:468-489 | Up to four characters before a dot, filled up with underscores. |
| `NamespacePath.Resolve` | src/uacpi/namespace.c:491-621 | The node that scope, segments and the search above lead to, or the error the source gives. |
| `NamespacePath.SegmentsChain` | src/uacpi/namespace.c:552-588 | Segments lead down a chain of nodes that are each the first of their name. |
| `NamespacePath.RoundTrip` | src/uacpi/namespace.c:491-621 | With names of four characters without dots, resolving a node's own absolute path, from anywhere, gives the node if and only if neither it nor a node above has an earlier peer of the same name. |
| `NamespacePath.LandsByChain` | src/uacpi/namespace.c:552-588 | Segments can only lead to a node down its own trail. |
| `NamespacePath.ThereAndBack` | src/uacpi/namespace.c:1034-1072 | The same for the path written into a buffer and read back. |
| `Bcd.FromBcd` | src/uacpi/interpreter.c:3196-3201 | The sixteen nibbles read as decimal digits, valid or not, without overflow. |
| `Bcd.ToBcd` | src/uacpi/interpreter.c:3202-3211 | The decimal digits as nibbles, or for more than sixteen only those above the sixteenth. |
| `Bcd.ThereAndBack` | src/uacpi/interpreter.c:3181-3216 | FromBCD(ToBCD(n)) = n if and only if n < 10^16; otherwise n / 10^16. |

## Left out

- Heap.Heap.MoveBlock: when the new block was granted by wrapping, the copy into it, which runs past the end of the heap, and the `kfree` after it are not modelled.
- Heap.Heap.Krealloc: says nothing about the heap in that case.
- Heap.Heap.constructor: asks that the heap does not begin in the first 40 bytes of the address space or end in the last 16 MiB.
- Paging.PageTables.MapPage: says nothing about the tables once an allocation has failed; the walk then goes on through whatever the entry holds, as in the source. Flag bits above bit 7 never reach an entry.
- NamespaceWalk.ForEachChild: callbacks that change the tree are not modelled.
- Terminal.Terminal.constructor: asks for three screenfuls of cells to be fewer than 2^64. Parameters that a sequence clamps are not written back, which no later byte can observe; callbacks to the client are not modelled.
- FieldUnit.Write: bank, index and serial fields, field locks and regions that are not plain memory.
- Pixels, fonts, colour conversion and code-page tables: the display is one character per cell, and the tables are parameters.
- The AML interpreter apart from field layout and BCD; tables, resources, sleep states and the other parts of uACPI.
- The native mutex, spinlock and event, and the firmware: assumed to keep the contracts uACPI and the ACPI specification state for them, not the kernel's stubs.
- Sequence numbers of the Global Lock, fixed events, event handlers and the dispatch of interrupts.
- Reference counts and object lifetimes of namespace nodes; namespace locking.
- The initial page bitmap: any bitmap in which the reserved pages are marked is allowed.
- The virtual file system, drivers, interrupts, timers, boot and logging: hardware access or little logic of their own.
- Nothing was executed: the models are related to the source by reading it.
