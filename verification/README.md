# hlos: a verified model of the kernel's memory, console, formatter and symbol code

hlos is a small 32-bit x86 kernel. This project models its two memory allocators, the intrusive
list under them, the printf engine, the scrolling text console, the boot and kernel page tables and
the kernel symbol index, and proves what they promise over every input, every run or every reachable
state.

* **Page allocator** (`BuddyModel`, `FreeBlocks`, `BuddyInvariant`, `BuddyTheorems`, `BuddyBoot`,
  `BuddyRuns`, `BuddyAllocator`, `BuddyMemory`). `BuddyAllocator.BuddyMm` holds the page heads and the
  eleven free areas in arrays and updates them in place; every method ends in the state that the
  function of the same name in `BuddyModel` computes from the old one. About those functions one invariant is proved:
  the lists are exactly the maximal aligned blocks of the free page set. Taking a maximal block out
  and putting a block back beside a busy buddy are the only two moves, and splitting, merging,
  allocation, release and boot seeding are built from them. `BuddyMemory` joins this to the layout
  that init_pmm computes: from the end of the kernel and the end of memory to blocks that callers
  can use byte by byte.
* **Byte allocator** (`SlobModel`, `SlobTheorems`, `SlobRuns`, `SlobAllocator`). Headers tile the
  4 MiB arena in address order; the used blocks alone determine the whole list, which gives the exact
  round trip and independence from the order of releases. Any run keeps the layout; that every held
  block keeps its header on the list is promised only for runs whose allocations split, and
  `SlobRuns.UnsplitLosesHeader` is a run without splitting that loses one.
* **printf engine** (`PrintfDigits`, `PrintfSpec`, `PrintfSink`, `PrintfNumber`, `PrintfDecode`,
  `PrintfRender`, `Printf`, `PrintfFormats`, `PrintfConversions`). `PrintfRender.Render` is the
  unbounded text of a format; the running code writes a truncation of it into a buffer. `PrintfFormats.Meaning` is an independent
  reading of a format as a list of literals and directives; `PrintfFormats.EveryFormat` reads any
  format as such a list and shows that rendering it gives what the list means. `PrintfConversions`
  tells what each directive prints from its characters and its arguments alone.
* **Console** (`ConsoleModel`, `Console`), **page tables** (`PageTables`), **symbol index** (`Ksym`),
  **intrusive list** (`IntrusiveList`). `Bits` defines the bitwise operators bit by bit.

Conventions. Unsigned words are natural numbers; wrap-around is written out where the code can reach
it, and where a proof shows that it cannot, plain arithmetic is used. The 16-bit widths and precisions
of the formatter wrap as the code makes them wrap (`PrintfSpec.ToInt16`), and `PrintfSpec.FieldFits`
says exactly when that shows. Overflow of an int, as in skip_atoi, is taken to wrap. Pointer arithmetic
with an unsigned difference wraps modulo 2^32, so it is modelled by the integer difference. The free lists of the page allocator and the
header list of the byte allocator are sequences that the methods reassign; that the pointer operations
act on circular lists as those sequence operations is what `IntrusiveList` proves. The main results
write the code's constants as numbers, so they hold of this kernel and not of one with other constants.

Assumptions about callers:

* A caller frees a block it got from `alloc_pages`, with the same order (`BuddyRuns.Enabled`).
* What `kfree` takes for a block in use is one (`SlobModel.Releasable`): either the header in front of
  the address is on the list, or the allocated bit found there is clear, which is how gluing leaves the
  headers it drops until their memory is written again. Callers that release only what they hold meet
  this by themselves as long as their allocations split (`SlobRuns.CarefulStep`).
* Sizes passed to `kmalloc` leave room for the 12 bytes of a header below 2^32 (`SlobModel.NoWrap`).

Where the code and its comments disagree, the model follows the code:

* libs/vsprintf.c:76 announces the qualifiers `h`, `l` and `L`. A lone `h` or `l` swallows the
  conversion character behind it (`PrintfFormats.QualifierHonoured`, `PrintfFormats.LongDecimalLost`).
* libs/vsprintf.c:628-631 refers to ISO C99. A `.` without digits leaves the precision unset, a negative
  `*` precision counts as zero, `%#x` of zero prints `0x0`, and widths and precisions are cut to 16 bits:
  a precision of 32767 without a width is padded with 32768 spaces (`PrintfSpec.WidePrecisionWraps`).
* mm/buddy.c:59 assumes page heads up to a whole top-order block. `init_pmm` may provide fewer, and the code
  needs only one past the managed pages, which `init_pmm` does provide (`BuddyMemory.HeadsSuffice`).
* mm/pmm.c:116-117 requires the page heads to end below 16 MiB. Nothing checks it, and it fails exactly
  when kernel, tables and heads take more than 4096 pages (`PageTables.HeadsMappedAtBoot`).
* mm/slob.c:162 adds the header to the size in 32 bits. A size for which the sum wraps is served, if at
  all, from a block that is too small for it, and no other size is (`SlobTheorems.ServedHasRoom`).
* mm/slob.c:117-119 returns from a split that would leave too little without marking the block used, so
  the same address is handed out twice in a row exactly then (`SlobTheorems.UnsplitServedTwice`).

## Model

| member | source | states |
|---|---|---|
| Bits.XorPow2 | mm/buddy.c:44-65 | B ^ (1 << O) of an aligned index is its twin, and twin & index is the parent start |
| Bits.AndMask | mm/buddy.c:81-81 | masking with (1 << k) - 1 drops an aligned part only |
| Bits.AlignedIsMultiple | mm/buddy.c:50-57 | zero low bits mean divisible by 2^k |
| Bits.OrDisjoint | include/page.h:44-47 | joining disjoint bit fields with or is addition |
| FreeBlocks.PairFacts | mm/buddy.c:48-57 | a block and its buddy are disjoint and make up the parent block |
| FreeBlocks.Nested | mm/buddy.c:48-57 | two aligned blocks that share a page are nested |
| FreeBlocks.MaximalDisjoint | mm/buddy.c:74-101 | different maximal free blocks share no page |
| FreeBlocks.RemoveMaximal | mm/buddy.c:136-139 | taking a maximal block out of the free set removes it from the family and nothing else |
| FreeBlocks.AddIsolated | mm/buddy.c:98-100 | adding a block whose buddy is not free adds it to the family and nothing else |
| FreeBlocks.MaximalAbove | mm/buddy.c:124-145 | every aligned free run lies in a maximal block of at least its order |
| BuddyInvariant.TakeInv | mm/buddy.c:89-91 | unlinking a listed block keeps lists, marks, orders and counters in agreement for the smaller free set |
| BuddyInvariant.PutInv | mm/buddy.c:98-100 | linking a block beside a busy buddy keeps them in agreement for the larger free set |
| BuddyInvariant.BuddyTest | mm/buddy.c:67-87 | the test of mark and order is true exactly when the whole buddy is free, and exactly when it is listed |
| BuddyInvariant.FreeOnePageInv | mm/buddy.c:74-101 | merging upward ends in the maximal blocks of the enlarged free set |
| BuddyInvariant.ExpandInv | mm/buddy.c:103-117 | splitting downward frees exactly the upper parts and leaves the lower block taken |
| BuddyInvariant.InvMarksFit | mm/buddy.c:67-87 | no mark up to head n stands for a block that leaves the managed pages, so no merge ever looks past head n |
| BuddyInvariant.SameFreeSetSameLists | mm/buddy.c:74-101 | the free set alone determines every free list as a collection, and every counter |
| BuddyTheorems.AllocComplete | mm/buddy.c:119-165 | NULL exactly when no aligned run of that size is free or the order is above 10; otherwise such a run, from the front of the smallest non-empty order, one reference, invariant kept |
| BuddyTheorems.RmqueueScan | mm/buddy.c:123-145 | the upward scan cuts the front block of the first non-empty list |
| BuddyTheorems.CutInv | mm/buddy.c:136-141 | cutting a listed block down takes just the requested block out of the free set |
| BuddyTheorems.FreePagesInv | mm/buddy.c:147-151 | a block rejoins the lists exactly when its last reference is dropped |
| BuddyTheorems.FreeOnePageCounts | mm/buddy.c:74-101 | merging touches no reference count |
| BuddyTheorems.MergeUndoesExpand | mm/buddy.c:74-117 | re-merging undoes splitting level by level |
| BuddyTheorems.RemergeStops | mm/buddy.c:83-87 | the re-merge of a split block stops at the order it was split from |
| BuddyTheorems.RoundTrip | mm/buddy.c:74-165 | alloc then last free restores every list, counter, mark and order exactly |
| BuddyTheorems.CountersCountFreePages | mm/buddy.c:9-18 | the sum of nr_free[k] * 2^k is the number of free pages |
| BuddyBoot.SeedPuts | mm/buddy.c:226-233 | each block the boot loop frees is linked without any merge |
| BuddyBoot.SeedBlocks | mm/buddy.c:226-236 | from any point of the boot loop, how many blocks of each order are still added |
| BuddyBoot.SeedAll | mm/buddy.c:207-236 | booting with any n pages and one more unmarked head frees them all: n / 1024 blocks of order 10, and of each smaller order k one if n / 2^k is odd |
| BuddyRuns.StepInv | mm/buddy.c:147-165 | no allocation, extra reference or release breaks the invariant of zone and live blocks |
| BuddyRuns.Run | mm/buddy.c:147-165 | a whole legal run keeps the invariant |
| BuddyRuns.BootWorld | mm/buddy.c:207-236 | the seeded zone with nothing handed out satisfies the invariant, for any n and one more unmarked head |
| BuddyRuns.EveryRun | mm/buddy.c:74-165 | after every legal run from boot the eleven lists are the maximal blocks of the pages nobody holds, listed heads and only those carry mapcount -128 and their order, other pages are clean, and free plus live pages are all pages |
| BuddyRuns.BootServes | mm/buddy.c:123-165 | right after boot a request is served if and only if its order is at most 10 and that many pages exist |
| BuddyRuns.BootServesLargest | mm/buddy.c:135-165 | with 1024 pages or more, order 10 yields a block of 1024 pages aligned to 1024 with one reference, and exactly 1024 pages fewer are free |
| BuddyRuns.BlocksApart | mm/buddy.c:74-165 | free blocks are aligned, in range, and disjoint from each other and from live blocks |
| BuddyRuns.NoFreeBuddies | mm/buddy.c:83-96 | below order 10 a listed block's buddy is never listed at the same order |
| BuddyRuns.HistoryIndependent | mm/buddy.c:74-165 | equal live blocks mean equal free blocks and counters, whatever happened before |
| BuddyRuns.FreesEffect | mm/buddy.c:147-151 | after a series of releases exactly the blocks with references left are live |
| BuddyRuns.GetOneReference | include/mm.h:41-61 | get_page adds one reference to that page alone, and dropping one takes it back |
| BuddyRuns.FreesLegal | mm/buddy.c:147-151 | a series of releases is legal exactly when it drops no more references than there are |
| BuddyRuns.ReleaseOrderIrrelevant | mm/buddy.c:147-151 | releasing the same references in any other order is legal too and ends in the same free blocks and counters |
| BuddyMemory.HeadsSuffice | mm/pmm.c:132-140 | whatever the memory, the heads init_pmm zeroes include one past the managed pages, all that mm/buddy.c:59 really needs |
| BuddyMemory.MemoryAccounted | mm/pmm.c:126-146 | after every legal run from boot, what lies in front of the pages plus free plus live pages is all of memory, and the allocator manages the pages of the layout |
| BuddyMemory.LiveBlockMapped | mm/pmm.c:34-57 | every byte of a live block is mapped by the kernel tables, to its own place in memory |
| BuddyMemory.LiveBlocksApart | mm/pmm.c:34-38 | no two live blocks overlap in the kernel's address space |
| BuddyMemory.BootArena | mm/slob.c:46-53 | slob_init gets its block at boot when there are 1024 pages or more, and it is the 4 MiB arena to the byte, inside memory |
| BuddyAllocator.BuddyIndex | mm/buddy.c:61-96 | the XOR and AND on the 11-bit window yield the true buddy and parent page |
| BuddyAllocator.BuddyMm.GetPage | include/mm.h:41-48 | one more reference, nothing else changed |
| BuddyAllocator.BuddyMm.PutPageTestzero | include/mm.h:55-61 | one reference fewer, true exactly when none is left |
| BuddyAllocator.BuddyMm.SetPageOrder | mm/buddy.c:32-36 | the page is marked with the order, no other page changes |
| BuddyAllocator.BuddyMm.RmvPageOrder | mm/buddy.c:38-42 | mark and order of the page are cleared, no other page changes |
| BuddyAllocator.BuddyMm.MergeBuddy | mm/buddy.c:84-96 | one round of the merge loop: absorb a free buddy or leave everything alone, reading no head past head n |
| BuddyAllocator.BuddyMm.FreeOnePage | mm/buddy.c:74-101 | the in-place merge loop computes the merge |
| BuddyAllocator.BuddyMm.Expand | mm/buddy.c:103-117 | the in-place split loop computes the split |
| BuddyAllocator.BuddyMm.RmqueueSmallest | mm/buddy.c:123-145 | the in-place search and split computes the specified zone and page |
| BuddyAllocator.BuddyMm.AllocPages | mm/buddy.c:153-165 | the in-place allocation computes the specified zone and page |
| BuddyAllocator.BuddyMm.FreePages | mm/buddy.c:147-151 | the in-place release computes the specified zone |
| BuddyAllocator.BuddyMm.InitBuddyMm | mm/buddy.c:193-205 | every area empty with counter zero |
| BuddyAllocator.BuddyMm.InitPages | mm/buddy.c:215-223 | every managed page has one reference and no mark, heads beyond them are untouched |
| BuddyAllocator.BuddyMm.FreeRound | mm/buddy.c:228-236 | one round of the boot loop leaves the rest of the seeding as it was |
| BuddyAllocator.BuddyMm.PmmFreePages | mm/buddy.c:207-236 | the boot code terminates with the seeded zone, reading no head past head n |
| SlobTheorems.InitLaid | mm/slob.c:100-106 | the fresh arena is one free block of 4 MiB less a 12-byte header, laid out correctly |
| SlobTheorems.BlocksDisjoint | mm/slob.c:24-29 | different blocks of the list do not overlap, headers included |
| SlobTheorems.FitsField | mm/slob.c:25-29 | lengths fit the 31-bit field and blocks stay inside the arena |
| SlobTheorems.SplitInv | mm/slob.c:111-129 | both branches of a split keep the arena tiled in address order with no two free neighbours |
| SlobTheorems.GlueInv | mm/slob.c:131-154 | all four cases of gluing restore that layout |
| SlobTheorems.KmallocInv | mm/slob.c:157-174 | allocation keeps the layout |
| SlobTheorems.KfreeInv | mm/slob.c:177-186 | release keeps the layout, also of an address whose header gluing has dropped |
| SlobTheorems.UsedDetermineLayout | mm/slob.c:111-154 | the used blocks alone determine the whole list |
| SlobTheorems.NothingUsed | mm/slob.c:104-106 | with nothing in use the arena is the one initial block |
| SlobTheorems.KmallocResult | mm/slob.c:157-174 | NULL exactly when no free block is longer than max(size, 32) + 12, otherwise the payload 12 bytes behind the header of the lowest-addressed one |
| SlobTheorems.KmallocUsed | mm/slob.c:112-129 | blocks in use stay; if and only if 44 bytes remain the served block becomes used with exactly max(size, 32) bytes at the returned address and the rest is a free block behind it |
| SlobTheorems.UnsplitServedTwice | mm/slob.c:112-174 | the same request is served twice with the same address if and only if less than 44 bytes remain |
| SlobTheorems.ServedHasRoom | mm/slob.c:160-166 | the block that serves a request is longer than the size asked for if and only if size + 12 is below 2^32 |
| SlobTheorems.WrappedSizeServed | mm/slob.c:160-166 | a request for 2^32 - 1 bytes is served by a fresh arena |
| SlobTheorems.KfreeUsed | mm/slob.c:177-186 | a release removes its own block from the used ones and touches no other |
| SlobTheorems.KfreeUnused | mm/slob.c:181-182 | releasing what is not in use changes nothing |
| SlobTheorems.KmallocThenKfree | mm/slob.c:112-186 | releasing what was just allocated restores the list exactly, split or not |
| SlobRuns.RunInv | mm/slob.c:157-186 | every run in which kfree takes only blocks in use for used keeps the arena tiled and free neighbours joined |
| SlobRuns.UnsplitLosesHeader | mm/slob.c:112-186 | a run without splitting after which a block still held has no header on the list and its memory is handed out again |
| SlobRuns.CarefulStep | mm/slob.c:157-186 | when allocations split, what callers hold is exactly what is marked used, step by step, so every release finds its header on the list |
| SlobRuns.StaysPut | mm/slob.c:157-186 | a held block keeps its address and its max(size, 32) bytes until it is released |
| SlobRuns.HeldDisjoint | mm/slob.c:157-174 | the bytes callers asked for lie in the 4 MiB, apart from each other and from every 12-byte header |
| SlobRuns.CarefulFromInit | mm/slob.c:100-186 | from initialisation: the bytes asked for are apart throughout, and one free block again once all is released |
| SlobRuns.HeldDetermineLayout | mm/slob.c:131-186 | histories that leave the same blocks held leave the same list |
| SlobAllocator.Slob.constructor | mm/slob.c:100-106 | one free block over the arena |
| SlobAllocator.Slob.SplitChunk | mm/slob.c:112-129 | the in-place split computes the split |
| SlobAllocator.Slob.GlueChunk | mm/slob.c:132-154 | the in-place gluing computes the glued list |
| SlobAllocator.Slob.Kmalloc | mm/slob.c:157-174 | the search loop computes the specified list and address |
| SlobAllocator.Slob.Kfree | mm/slob.c:177-186 | the in-place release computes the specified list |
| PrintfDigits.TenthWide | libs/vsprintf.c:300-304 | multiplying by 0x1999999a and shifting by 32 is division by ten below 10^8 |
| PrintfDigits.TenthFour | libs/vsprintf.c:306-306 | multiplying by 0x199a and shifting by 16 is division by ten up to 9999 |
| PrintfDigits.TenthThree | libs/vsprintf.c:310-314 | multiplying by 0xcd and shifting by 11 is division by ten up to 999 |
| PrintfDigits.RevDigitsValue | libs/vsprintf.c:295-320 | the digits stand for the number and the highest is not zero |
| PrintfDigits.DigitsRead | libs/vsprintf.c:378-400 | printed digits, in either case, read back as the number |
| PrintfSpec.NumberTextLength | libs/vsprintf.c:358-460 | a field is as wide as asked or as sign, prefix and max(digits, precision) need, if and only if its 16-bit counter does not wrap |
| PrintfSpec.NumberTextFits | libs/vsprintf.c:401-460 | then the loops that share the counter write the field as intended |
| PrintfSpec.NumberTextShape | libs/vsprintf.c:401-460 | then spaces, sign, prefix, only digits of the base that read as the magnitude, spaces; padding on one side only, and exactly max(digits, precision) digits unless zeros fill the field |
| PrintfSpec.WidePrecisionWraps | libs/vsprintf.c:401-412 | a precision of 32767 without a width is preceded by 32768 spaces |
| PrintfSpec.StringTextLength | libs/vsprintf.c:267-285 | a string field is as wide as asked or as its text, unless the width is -32768 and it is not left-justified |
| PrintfSpec.CharTextLength | libs/vsprintf.c:507-528 | the same of a character, for the widths -32768 and -32767 |
| PrintfSink.Sink.Put | libs/vsprintf.c:407-411 | a bounded write: the buffer holds the text cut at its end, nothing beyond is touched |
| PrintfSink.Sink.Copy | libs/vsprintf.c:488-497 | a literal run is copied as far as it fits |
| PrintfSink.Sink.Terminate | libs/vsprintf.c:609-614 | NUL after the text or in the last place |
| PrintfNumber.PutDecTrunc8 | libs/vsprintf.c:294-320 | below 10^8 the reversed decimal digits, at most eight, without division |
| PrintfNumber.PutMasked | libs/vsprintf.c:387-396 | the reversed octal or hexadecimal digits of any 64-bit value, at most 22 |
| PrintfNumber.GenerateDigits | libs/vsprintf.c:378-400 | all three ways of making digits agree and never overrun tmp |
| PrintfNumber.Number | libs/vsprintf.c:338-461 | for all widths and precisions, the loops write what the closed form says, wrap-around of the counter included |
| PrintfDecode.QualifierBounds | libs/vsprintf.c:163-178 | the qualifier stage looks past the NUL exactly after a lone h or l at the very end |
| PrintfDecode.DecodeBounds | libs/vsprintf.c:79-256 | a decode stops at or before the NUL except in that case, and consumes something unless resumed |
| PrintfDecode.AtoiUndoesDigits | libs/vsprintf.c:48-57 | skip_atoi undoes the decimal printer wherever the digits stand |
| PrintfRender.RoundDecreases | libs/vsprintf.c:481-485 | every round of the loop lowers (characters left, arguments awaited) |
| Printf.SkipAtoi | libs/vsprintf.c:48-57 | the digit loop computes value and end |
| Printf.FormatDecode | libs/vsprintf.c:79-256 | the staged decoder, fresh or resumed, computes the specified token |
| Printf.PutString | libs/vsprintf.c:259-288 | string padded to the width, cut at the precision, null shown as (null) |
| Printf.PutChar | libs/vsprintf.c:507-528 | character padded to the width |
| Printf.Emit | libs/vsprintf.c:487-606 | the switch writes what the token contributes and takes its argument |
| Printf.Round | libs/vsprintf.c:481-607 | one round writes one token and leaves the rest of the text to be written |
| Printf.Vsnprintf | libs/vsprintf.c:463-619 | returns the full length as an int whatever the size below 2^31, else 0; the buffer gets the first min(len, size-1) characters and a NUL, nothing else |
| Printf.Vscnprintf | libs/vsprintf.c:671-697 | returns min(len, size-1), len taken modulo 2^32, or 0 for size 0 and sizes from 2^31 on |
| PrintfFormats.EveryFormat | libs/vsprintf.c:79-619 | every format reads as literals and directives and prints what those mean, unless it is cut off behind a lone h or l |
| PrintfFormats.RenderMeans | libs/vsprintf.c:79-619 | every list of literals and directives, spelled out, renders to what those mean, `*` arguments, swallowed and unknown conversions included |
| PrintfFormats.RenderDirective | libs/vsprintf.c:84-256 | a spelled-out directive is decoded back to its flags, width, precision, qualifier and conversion |
| PrintfFormats.ParsedPieces | libs/vsprintf.c:79-256 | what a format is read as is well formed and spells the format |
| PrintfFormats.RenderLiteral | libs/vsprintf.c:106-113 | text without a percent sign is copied |
| PrintfFormats.QualifierHonoured | libs/vsprintf.c:166-178 | a qualifier is honoured exactly when it is not a lone h or l |
| PrintfFormats.LongDecimalLost | libs/vsprintf.c:169-177 | "%ld" prints a percent sign |
| PrintfConversions.ArgumentValue | libs/vsprintf.c:567-603 | each conversion type reads its argument as the value of its own C type: signed and unsigned char, short, int, long, long long, size_t |
| PrintfConversions.IntPrinted | libs/vsprintf.c:598-602 | an argument in the range of int or unsigned int is read as it is |
| PrintfConversions.TypeSelected | libs/vsprintf.c:227-253 | the qualifier and the sign select the type with the intended value, and change nothing else |
| PrintfConversions.FlagSet | libs/vsprintf.c:123-130 | each flag character sets its own flag and no other |
| PrintfConversions.FoldedFlags | libs/vsprintf.c:116-134 | the flags of a directive are the characters that stand there, in any order and number |
| PrintfConversions.NumberParts | libs/vsprintf.c:358-376 | minus below zero, else plus or a space as asked; 0x, 0X or an octal 0 as asked |
| PrintfConversions.IntegerMeans | libs/vsprintf.c:115-460 | every d, i, u, o, x or X directive prints its argument: padding, sign, prefix and digits told from the directive's characters, digits that read as the value, as wide as asked or needed, and takes just its arguments |
| PrintfConversions.StringMeans | libs/vsprintf.c:260-288 | every %s prints the text up to the precision, (null) for a null pointer, with spaces on the side asked for |
| PrintfConversions.CharMeans | libs/vsprintf.c:507-528 | every %c prints the low byte, with spaces on the side asked for |
| PrintfConversions.OthersMean | libs/vsprintf.c:191-225 | %% prints a percent sign, %p only the p, an unknown character a percent sign and itself, and none takes an argument |
| ConsoleModel.GridKeeps | drivers/console.c:90-100 | each character but newline and carriage return stays on the grid where the cursor stood for it, with attribute 7 below 128 and 255 above |
| ConsoleModel.GridShowsText | drivers/console.c:90-100 | every other cell is 0x720 |
| ConsoleModel.LineWraps | drivers/console.c:94-100 | a line fills rows of 80, carriage returns (13) take no room |
| ConsoleModel.NewlineStartsRow | drivers/console.c:90-92 | a newline (10) goes to the start of the next row from anywhere |
| ConsoleModel.CursorAfterLines | drivers/console.c:90-100 | the cursor after any sequence of lines, in closed form |
| ConsoleModel.LinesOnGrid | drivers/console.c:90-100 | each character of each line stands in the row and column its place in the line gives, below all lines before it |
| ConsoleModel.ScreenCells | drivers/console.c:79-94 | the screen is 25 rows of 80 cells of the grid, and the topmost follows the cursor only when a character arrives below the last row |
| ConsoleModel.WindowFollowsCursor | drivers/console.c:79-89 | the window holds the cursor's row or ends just above it, and then the next character scrolls by one |
| ConsoleModel.TopMonotone | drivers/console.c:79-89 | the window never moves back and at most one row per character |
| ConsoleModel.WindowDown | drivers/console.c:80-87 | scrolled video memory is the window one row further down |
| ConsoleModel.WindowPut | drivers/console.c:94-94 | storing at the cursor is writing on the grid |
| ConsoleModel.ConsumedPrefix | drivers/console.c:78-78 | a call consumes its first n characters or those in front of the first NUL |
| ConsoleModel.ConsumedConcat | drivers/console.c:78-78 | writing s1 and then s2 consumes what writing s1 + s2 does |
| Console.Vga.constructor | drivers/console.c:60-71 | a cleared screen with the cursor at home |
| Console.Vga.ScrollUp | drivers/console.c:80-87 | the nested copy loops move every row up and blank the last |
| Console.Vga.Put | drivers/console.c:79-100 | after each character the screen is the window on the grid of all text so far |
| Console.Vga.Write | drivers/console.c:73-104 | the same after any write, up to n characters or the first NUL |
| PageTables.EntryFields | include/page.h:43-47 | an entry is present and keeps its frame |
| PageTables.LinearWalk | mm/pmm.c:47-57 | a walk through consecutive tables maps PAGE_OFFSET + p to p |
| PageTables.BootTables.MmapTmpPage | boot/init.c:78-99 | the loops leave the low table, the four high tables and their directory entries |
| PageTables.BootWalk | boot/init.c:78-99 | the boot tables map the first 4 MiB onto itself and above PAGE_OFFSET exactly the first 16 MiB |
| PageTables.LayoutFits | mm/pmm.c:126-140 | directory, tables, heads, room for one more head and pages follow each other without wrap-around up to the end of memory |
| PageTables.HeadsMappedAtBoot | mm/pmm.c:116-117 | the page heads end below 16 MiB if and only if kernel, tables and heads take at most 4096 pages, and always when the kernel ends below 9 MiB |
| PageTables.HeadsBeyondBootTables | mm/pmm.c:116-117 | a 12 MiB kernel with 1 GiB of memory breaks it |
| PageTables.PageAddressExact | mm/pmm.c:21-38 | head and frame number convert both ways, and each page has its own address inside memory |
| PageTables.KernelTables.InitKernelVmm | mm/pmm.c:40-57 | the loops leave linear directory entries and identity tables |
| PageTables.KernelWalk | mm/pmm.c:40-57 | the kernel tables map PAGE_OFFSET + p to p for all of memory |
| PageTables.KernelAgreesWithBoot | mm/pmm.c:40-62 | and agree with the boot tables wherever those map anything above PAGE_OFFSET |
| Ksym.TextEntriesExact | kernel/ksym.c:80-88 | an entry is in the table if and only if some symbol strictly inside the kernel text has its address as value, and its name is the string table plus the symbol's offset |
| Ksym.TextEntriesOrder | kernel/ksym.c:80-88 | each text symbol has one entry, in symbol-table order |
| Ksym.SwapPlaces | kernel/ksym.c:102-109 | exchanging a least entry into place sorts one more and loses none |
| Ksym.ScanUnique | kernel/ksym.c:130-141 | only one index is the first of the greatest address at or below |
| Ksym.Kallsyms.Collect | kernel/ksym.c:80-88 | the two arrays hold the filtered symbols in order |
| Ksym.Kallsyms.SelectMin | kernel/ksym.c:93-101 | an index with the least remaining address |
| Ksym.Kallsyms.Sort | kernel/ksym.c:91-110 | both arrays together become a sorted permutation |
| Ksym.Kallsyms.Load | kernel/ksym.c:80-110 | loading leaves a sorted permutation of the filtered symbols |
| Ksym.Kallsyms.GetSymbolPos | kernel/ksym.c:113-142 | the binary search answers the linear scan; below the first address it returns index 0 and a wrapped offset |
| Ksym.Kallsyms.LookupName | kernel/ksym.c:144-152 | the name and offset of the symbol the scan finds; below the first address the first name and a wrapped offset |
| Ksym.LookupNamesSymbol | kernel/ksym.c:80-152 | that entry has the value and the name address of a symbol strictly inside the kernel text, and no such symbol at or below the address has a greater value |
| IntrusiveList.InitListHead | include/list.h:13-17 | a list of the head alone |
| IntrusiveList.ListAdd | include/list.h:19-41 | the entry goes in right after the given node |
| IntrusiveList.ListAddTail | include/list.h:43-54 | the entry goes in at the end |
| IntrusiveList.ListDel | include/list.h:56-86 | the entry goes out and its pointers become NULL |
| IntrusiveList.ListReplace | include/list.h:88-102 | the new node takes the old one's place, also when it is alone |
| IntrusiveList.ListReplaceInit | include/list.h:104-109 | and the old node becomes an empty list |
| IntrusiveList.ListDelInit | include/list.h:111-119 | the entry goes out and becomes an empty list |
| IntrusiveList.ListMove | include/list.h:121-130 | the entry goes from one list to the front of another |
| IntrusiveList.ListMoveSelf | include/list.h:121-130 | the same within one list |
| IntrusiveList.ListMoveTail | include/list.h:132-142 | the entry goes from one list to the end of another |
| IntrusiveList.ListMoveTailSelf | include/list.h:132-142 | the same within one list |
| IntrusiveList.HeadTests | include/list.h:155-204 | the head's pointers tell empty and singular lists |
| IntrusiveList.NextPrevInverse | include/list.h:19-28 | next and prev undo each other |
| IntrusiveList.ListRotateLeft | include/list.h:183-195 | the first entry becomes the last, an empty list stays |
| IntrusiveList.ListCutPosition | include/list.h:206-244 | the entries up to the given one move to the new list; an empty list leaves it untouched |
| IntrusiveList.ListSplice | include/list.h:246-270 | the other list's entries go in at the front |
| IntrusiveList.ListSpliceTail | include/list.h:272-282 | the other list's entries go in at the end |
| IntrusiveList.ListSpliceInit | include/list.h:284-298 | at the front, and the other list becomes empty |
| IntrusiveList.ListSpliceTailInit | include/list.h:300-315 | at the end, and the other list becomes empty |
| IntrusiveList.CutThenSplice | include/list.h:218-270 | cutting into an empty list and splicing back restores every link |

## Left out

- SlobAllocator.Slob.Kmalloc: sizes for which size + 12 wraps, which would lay headers over each other; `SlobTheorems.ServedHasRoom` says what they are served with.
- SlobTheorems.KmallocResult: the same sizes.
- SlobAllocator.Slob.Kfree: an address off the list in front of which the allocated bit reads as set, after the dropped header has been overwritten; and addresses below 12.
- SlobTheorems.KfreeInv: the same addresses.
- SlobRuns.RunInv: runs that release such an address.
- SlobRuns.HeldDisjoint: stated for runs in which every successful allocation splits its block, the case `SlobTheorems.KmallocUsed` singles out; `SlobRuns.UnsplitLosesHeader` shows what happens otherwise.
- PrintfRender.Render: no text for decimals of 10^8 or more, `%n`, the `t` qualifier or missing arguments, none of which the code supports.
- PrintfConversions.IntegerMeans: decimals of 10^8 or more, the `t` qualifier, and fields for which the 16-bit counter of the padding loops wraps, where `PrintfSpec.NumberText` still says what is written.
- PrintfConversions.StringMeans: the width -32768 without left justification, where `PrintfSpec.StringText` says what is written.
- PrintfConversions.CharMeans: the widths -32768 and, without left justification, -32767, where `PrintfSpec.CharText` does.
- PrintfConversions.OthersMean: `%n`, and an unfinished directive, which `PrintfFormats.EveryFormat` covers.
- PrintfFormats.EveryFormat: formats cut off behind a lone `h` or `l`, where the decoder reads past the NUL.
- Printf.Vsnprintf: texts so long that the write pointer passes the end of the address space and compares below the buffer's end again.
- Vsnprintf's clamp of a buffer end that wraps around the address space (libs/vsprintf.c:475-479), and `snprintf`/`sprintf`, which only pass their arguments on.
- The loop that picks max_phy_addr from the loader's memory map (mm/pmm.c:107-114): the end of memory is a parameter.
- Page faults: `BuddyMemory` takes the page heads as zeroed also where the boot tables do not reach them; `PageTables.HeadsMappedAtBoot` says when they do.
- The ELF section walk (kernel/ksym.c:65-78): the symbol table is a sequence of value and name-offset pairs.
- Ksym.Kallsyms.Collect: tables of more than 1024 text symbols, which overflow the static arrays.
- Ksym.Kallsyms.Load: the same tables.
- Port I/O (including the hardware cursor), control registers, interrupts, descriptor tables, timer and inline assembly.
- LOCK prefixes: the kernel is single-CPU, counters are plain integers.
- hlist functions, iteration macros, libs/string.c beyond strnlen and memcpy, debug printing, and kernel/task.c_bak, which is not compiled.
