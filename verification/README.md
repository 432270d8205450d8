# A model of the kernel's C library core and bit paragraphs

The kernel is COBOL on a hand-written freestanding libc for a 32-bit i686 machine. This project models
the parts whose correctness is not visible from any one function:

- **The block-list heap** (`libc/alloc.c`). `HeapSpec` says what every operation computes on lists of
  sized blocks, with all arithmetic wrapping at 32 bits and nothing assumed about the heap.
  `Allocator` is the C code itself: descriptors in a table, linked by positions, region and master
  records updated in place. Each method is proved equal to the value-level operation for every state
  of the list, sound or not. `HeapLaws`, `HeapWide`, `HeapResize` and `HeapRealloc` find the invariant
  that makes the code right (the head block is free and at least as large as `free_size`) and say what
  each call does to the blocks callers hold; `HeapOrder` says where the free blocks are,
  `HeapContents` what happens to the bytes, and `HeapAnyOrder` what becomes of `mem_free` when regions
  are registered out of order. `HeapRuns` lifts this to whole runs with a ledger of live
  blocks, of bytes held and of bytes granted. `HeapBoot` is about fresh heaps, calls outside the ledger,
  and inputs on which the code fails.
- **Formatted output** (`libc/printf.c`). `Format` gives the text of a format by recursion over the
  format string, with no buffers. `Printf` and `Printer` are the C functions: the reversed 32-character
  digit buffer, the padding loops, the scanner, the truncating output. They are proved to write that
  text. `Grammar` spells conversions out from their parts and says what the scanner makes of each
  spelling; `Conversions` says what text a conversion comes to, from its spelling and arguments alone;
  `FormatLaws`, `FieldLaws` and `AlternateForm` are about truncation, field lengths, and reading numbers
  back. `snprintf` implements section 7.21.6.5 of ISO C11.
- **The text terminal** (`libc/lib.c`). `ScreenDoc` is a document that only grows, with no scrolling;
  `Terminal` is the 80x25 cell array and cursor, always the window on the document's last 25 lines.
- **Number text** (`libc/lib.c`). `NumText` is the pair `itoa` and `internal_atoi`.
- **Bit operations on decimal fields** (`krnlsupa.cbl`, `kernel.cbl`). `DecimalBits` is AND and OR by
  repeated halving of eight-digit fields, and the packing of PCI configuration addresses.

`Machine`, `Memory`, `Numerals` and `BlockList` hold what several of these share: words, upward copies,
digits, and lists threaded through a descriptor table.

Main results, in the terms of the code:

- The design comment at libc/alloc.c:4-9 claims that the free block is always the first. What holds over
  every run is that the head is free and covers `free_size`. That all free blocks are at the left, as
  libc/alloc.c:377 says, is not so; `HeapOrder` states when each operation keeps it. The skip test at
  libc/alloc.c:122 relies on the free head entirely.
- Over every run of allocations, releases and reallocations, callers hold exactly the used blocks, these
  never overlap, and all byte accounts balance, as long as each reallocation meets a condition that its
  branch guards decide; and where one does not, its callers no longer see just the change they asked for.
- What a format comes to is fixed from the outside: a grammar that covers every format, and for every
  conversion the text, from its spelling and its arguments; what the screen shows, cell by cell.
- Several things the code does not do, each with its exact condition and an input: a reallocation resizes
  the block it is given, shrinking keeps the invariant, a resize keeps the contents, free blocks stay at
  the left, an empty request gets an address of its own, a number with the `#` flag keeps its digits, a
  64-bit number keeps them in base 2, a minus sign finds room, `BITWISE-OR` is an OR, a small region is
  sound, `free(NULL)` is harmless, a release with regions out of order hits its own block, a grant is
  clear of the descriptor table.

## Model

| member | source | states |
|---|---|---|
| Memory.CopyForward | libc/lib.c:994-1005 | the upward byte loop of `memcpy` and `memmove` leaves what the element-by-element copy leaves, overlapping or not |
| Memory.CopyUpIsSnapshot | libc/lib.c:998-1005 | when the destination does not start inside the source's tail, an overlapping upward copy is an exact snapshot of the source and touches nothing else |
| HeapLaws.FixKeeps | libc/alloc.c:96-105 | merging keeps the bytes covered, every used block with its address and size, and the free total; the size sum does not wrap |
| HeapLaws.SearchStopsAtHead | libc/alloc.c:108-127 | with a free head the search stops there on its first iteration |
| HeapLaws.SkipTestAloneIsNotEnough | libc/alloc.c:122-127 | concrete lists without the invariant on which the search stops at a free block that is too small, and hands out bytes of a used block |
| HeapLaws.CarveAdds | libc/alloc.c:132-142 | splitting a free head turns exactly its last `size` bytes into a new used block |
| HeapLaws.AllocInRegion | libc/alloc.c:108-147 | on a sound region nothing wraps, the granted bytes are the end of the merged head, the address is new, the region stays sound; refused only for lack of descriptors |
| HeapLaws.LiveIntervals | libc/alloc.c:117-143 | used blocks of a list are non-empty, inside its bytes, and pairwise disjoint |
| HeapLaws.FindFindsNext | libc/alloc.c:150-187 | the walk keeps all used blocks, and stops at the first used block at or after the pointer, for every pointer |
| HeapLaws.WalkMergesIff | libc/alloc.c:150-187 | the walk leaves the list as it was if and only if no two free blocks in a row stand on its way; otherwise the list gets shorter |
| HeapLaws.ReleaseRemoves | libc/alloc.c:169-181 | giving a block back frees exactly its bytes and removes exactly its address, whether or not it merges into a free predecessor |
| HeapLaws.ReleaseJoinsIff | libc/alloc.c:169-181 | a release takes a descriptor off the list if and only if the block in front is free, which then grows by exactly the bytes released |
| HeapLaws.ReleaseTidy | libc/alloc.c:169-181 | a release leaves only free and non-empty used blocks on the list, and a free head free and no smaller |
| HeapLaws.GrantClearsTableIff | libc/alloc.c:54-55 | a granted block has no byte in common with the descriptor table at the start of the region if and only if the merged head keeps at least as many bytes as the table has |
| HeapBoot.TableOverlapExample | libc/alloc.c:54-55 | on the boot heap, a grant that leaves 16 bytes of the head overlaps the table |
| HeapOrder.ReleaseOrderIff | libc/alloc.c:169-180 | with all free blocks at the left, a release keeps them there if and only if no used block stands right in front of the released one |
| HeapOrder.FreeOrderIff | libc/alloc.c:150-187 | the same for all of `mem_free` in a sound region, whose walk keeps the order |
| HeapOrder.AllocOrderIff | libc/alloc.c:108-145 | with all free blocks at the left, `mem_alloc` keeps them there if and only if it is refused or the merged head is followed by no free block |
| HeapOrder.ResizeKeepsOrder | libc/alloc.c:316-397 | no resize in place changes the kinds of the blocks, so it keeps the order |
| HeapBoot.FreeBehindUsedExample | libc/alloc.c:377 | on the boot heap, releasing the first of two blocks granted leaves a free block behind a used one |
| HeapBoot.GrantBetweenFreeExample | libc/alloc.c:377 | on the boot heap, three grants released in order leave all free blocks at the left, and the next grant comes to stand between two of them |
| HeapWide.HeapIntervals | libc/alloc.c:108-147 | over all regions, live blocks are not NULL, not empty, below the end of memory, and disjoint |
| HeapWide.AllocGrants | libc/alloc.c:108-147 | `mem_alloc` with a positive size keeps the heap sound; either callers see no change, or exactly one new block of exactly that size, the free total and `free_size` going down by it |
| HeapWide.AllocFailsIff | libc/alloc.c:108-147 | NULL is returned if and only if no region covers the size or the first that does is out of descriptors |
| HeapWide.AllocServes | libc/alloc.c:108-147 | a request is served by the first region whose `free_size` covers it, and no other region changes; when none covers it, NULL and no change |
| HeapWide.FreeHeapFreesNext | libc/alloc.c:150-191 | `mem_free` of any pointer at all frees the lowest live block at or after it, in whichever region, and nothing else |
| HeapWide.FreeIsExact | libc/alloc.c:150-191 | `mem_free` of a live pointer removes exactly that block, returns exactly its bytes to the free total, and never credits `free_size` |
| HeapAnyOrder.FreeExactIff | libc/alloc.c:150-191 | for sound regions without a common byte, registered in any order: releasing a live pointer removes exactly its block if and only if no earlier slot holds a block at or above it |
| HeapBoot.FreesAnotherExample | libc/alloc.c:150-191 | two regions registered the higher first, after two grants: releasing the one releases the other |
| HeapWide.SoundHeadsFree | libc/alloc.c:294-409 | a sound heap has free heads, which is all `MemRealloc` asks for |
| HeapWide.WalkKeepsHead | libc/alloc.c:308-399 | the walk keeps a free head free on any list |
| HeapResize.TradeNext | libc/alloc.c:323-330 | moving bytes between a block and a free successor keeps every other block, the total, and the block's start |
| HeapResize.TradePrev | libc/alloc.c:331-337 | moving bytes between a block and a free predecessor moves the start by exactly as much |
| HeapResize.GrowInPlace | libc/alloc.c:316-338 | growing in place keeps the region sound, gives exactly the requested size, takes the difference off `free_size`, and moves the start only when the predecessor pays |
| HeapResize.ShrinkKeepsIff | libc/alloc.c:353-392 | shrinking keeps the region sound and its bytes on the list if and only if the predecessor that gets the bytes is the head or the head has that much to spare; the splitting branch only when it fails |
| HeapResize.InPlaceExact | libc/alloc.c:316-397 | every resize in place, for every size, the differences of 2^31 and more that the cast to `ssize_t` misreads included: sound if and only if the branch guards say so, and then exactly this block has the new size, moved exactly when the block in front pays or is paid |
| HeapRealloc.MoveRegrants | libc/alloc.c:339-351 | allocate, copy, free: the old block is replaced by one of the new size that does not overlap it, or nothing changes |
| HeapRealloc.ReallocExactIff | libc/alloc.c:294-409 | `mem_realloc` of any live block of a sound heap to any positive size, up or down, over any regions: callers see exactly that block resized, or nothing on failure, and the heap stays sound, if and only if the guards of the branch taken say so: the walk that decides moves the block, or finds no descriptor, or stops at the block asked for and keeps its region sound; or no walk stops and nothing can be granted |
| HeapRealloc.GrowthDoesItsJob | libc/alloc.c:294-351 | growing a block whose own region has the bytes always satisfies that condition |
| HeapRealloc.OneRegionGrowth | libc/alloc.c:294-351 | with one registered region, as in the running kernel, growing by less than 2 GiB always satisfies it |
| HeapRealloc.RefusalDoesItsJob | libc/alloc.c:294-304 | when no region covers the size, NULL, and nothing changes |
| HeapRealloc.ReallocResult | libc/alloc.c:294-409 | the result for every pointer and positive size on a sound heap, in terms of the list at the block the walk stops at: a free block behind with the difference pays for growth and nothing moves; else a free block in front pays and the start goes down by the difference; else a block apart from all others is granted and the old size copied, or NULL; what is cut off goes to a free block in front, the start going up by it, else behind, else to a new descriptor, or NULL |
| HeapBoot.GrowsInPlaceExample | libc/alloc.c:323-330 | on the boot heap, of three blocks of 16 bytes the first and third released: the block left grows to 24 bytes where it is, on the free block behind it |
| HeapBoot.ResizesAnotherExample | libc/alloc.c:297-338 | two fresh regions after two grants, sound: growing one caller's block resizes the other's |
| HeapRuns.StepAgrees | libc/alloc.c:108-409 | each call keeps heap and ledger in agreement |
| HeapRuns.RunAgrees | libc/alloc.c:108-409 | over every run of positive allocations, releases of what is held, and resizes up or down that satisfy the condition of `ReallocExactIff`: heap sound, live pointers exactly the used blocks, free total plus bytes held is the capacity, `free_size` plus what was taken off it on balance is its initial value |
| HeapRuns.RunKeepsApart | libc/alloc.c:108-409 | after every run the blocks held are disjoint, non-empty and inside memory |
| HeapRuns.BlockOutlivesRun | libc/alloc.c:108-409 | a block stays where and as large as granted through any run that does not name it |
| HeapRuns.BytesOutliveRun | libc/alloc.c:108-409 | over every run in regions below 2 GiB, a block the run does not name keeps every byte, copies included |
| HeapRuns.RunClearsTables | libc/alloc.c:54-55 | over every run, while a region's `free_size` is at least the size of its table, every block held in it is clear of the table |
| HeapBoot.BootRunClearsTable | main.c:17-18 | over every run from the boot heap that has taken at most the capacity less the table, every block held is clear of the table |
| HeapLaws.UnregisteredIsNotCounted | libc/alloc.c:411-429 | a slot that is not registered adds nothing to the count, whatever is in it |
| HeapRuns.PromisesAreCovered | libc/alloc.c:411-429 | `free_size` never exceeds what `mem_total_free` counts, which never exceeds the capacity |
| HeapRuns.CoveredFits | libc/alloc.c:411-429 | disjoint regions in ascending order add up to less than 2^32 bytes, so the count does not wrap |
| HeapContents.ResizeStaysInside | libc/alloc.c:294-409 | a resize that does its job deals only with blocks inside memory, and copies only to a block apart from the old one |
| HeapContents.ResizePreservesIff | libc/alloc.c:316-397 | for every memory content the bytes old and new block have in common are found at the new start, if and only if the bytes did not come from the block in front or go to it, and a copy is as long as that; growing and shrinking alike |
| HeapContents.CopyFitsNewBlock | libc/alloc.c:339-351 | in regions below 2 GiB a copy is no longer than the new block and wraps nowhere |
| HeapContents.ResizeWritesInsideIff | libc/alloc.c:339-351 | for every memory content, no byte outside the new block changes, if and only if the block is not moved or the one the walk stopped at is no larger than the new one |
| HeapContents.ResizeSparesOthers | libc/alloc.c:294-409 | no other block's address or size changes, and under that condition none of its bytes |
| HeapBoot.FreshRegionSoundIff | libc/alloc.c:36-77 | a new region is sound and within its memory if and only if the memory holds the smallest descriptor table; nobody holds anything in it |
| HeapLaws.NewRegionLayout | libc/alloc.c:50-76 | a region has a descriptor per 4096 bytes and at least 8192; what the table leaves is one free block, all of it promised, its size wrapping around when the table is larger than the region |
| HeapLaws.FreeSlotIsFirst | libc/alloc.c:36-48 | while a slot is free the region goes to an unregistered slot with only registered ones before it |
| HeapBoot.SmallRegionExample | libc/alloc.c:36-77 | a region of 64 KiB believes it has nearly all of the address space |
| HeapBoot.BootHeapAgrees | main.c:17-18 | the heap the kernel boots with starts the ledger at zero with 8290304 bytes free |
| HeapBoot.FreeNullIsNoOpIff | libc/alloc.c:150-191 | freeing NULL changes nothing for callers if and only if they hold nothing |
| HeapBoot.FreeNullExample | libc/alloc.c:150-191 | on the boot heap, freeing NULL after one grant gives the granted block back |
| HeapBoot.EmptyRequestSharesIff | libc/alloc.c:108-145 | a request gets an address no live block has if and only if it is not empty, or is refused, or the merged head is not followed by a used block, free blocks without bytes aside |
| HeapBoot.EmptyRequestExample | libc/alloc.c:132-143 | on the boot heap, an empty request after a grant returns the granted block's address |
| HeapBoot.FirstGrowthLosesExample | libc/alloc.c:331-337 | on the boot heap the first block of 16 bytes granted, grown to 32, takes the bytes from the head and loses its contents |
| HeapBoot.FirstCutBreaksExample | libc/alloc.c:374-391 | on the boot heap the first of two blocks of 16 bytes, cut to 8, takes 8 bytes off the list and promises 8 that the head does not have |
| Allocator.MemRegion.FixBlock | libc/alloc.c:96-105 | the stores merge one free successor in the list; descriptors of used blocks are not written |
| Allocator.MemRegion.NewBlock | libc/alloc.c:79-93 | finds a descriptor that is not present, and none exactly when list and lost descriptors fill the table |
| Allocator.MemRegion.Setup | libc/alloc.c:50-76 | fills the slot in as a region with one free block and an otherwise unused table |
| Allocator.MemRegion.SearchRoom | libc/alloc.c:112-127 | the search loop, merging on the way, ends at the block and address the specification names, for any list |
| Allocator.MemRegion.CarveBlock | libc/alloc.c:132-140 | the five stores put the new used block right behind the split one; no other descriptor is written |
| Allocator.MemRegion.AllocFrom | libc/alloc.c:113-145 | one region of `mem_alloc`: new list, `free_size`, result; with a free head no used block's descriptor is written |
| Allocator.MemRegion.FindBlock | libc/alloc.c:154-187 | the walking loop with its previous pointer ends where the specification says, for any list |
| Allocator.MemRegion.ReleaseBlock | libc/alloc.c:169-180 | unlinking into a free predecessor or freeing in place gives the specified list, and the descriptor returns to the table |
| Allocator.MemRegion.FreeFrom | libc/alloc.c:152-188 | one region of `mem_free` |
| Allocator.MemRegion.GrowBlock | libc/alloc.c:320-338 | takes the expanding branch the specification names, or reports that none applies with nothing written; `ReallocResult` says in terms of the list which one that is |
| Allocator.MemRegion.ShrinkBlock | libc/alloc.c:353-392 | takes the shrinking branch the specification names, for every state of the list |
| Allocator.MemRegion.SplitUnlinked | libc/alloc.c:374-391 | the splitting branch takes a descriptor that is never linked |
| Allocator.MemRegion.CountFree | libc/alloc.c:414-427 | the counting loop adds up the free blocks, modulo 2^32 |
| Allocator.MemMaster.constructor | libc/alloc.c:20-34 | four slots, none registered |
| Allocator.MemMaster.MemAlloc | libc/alloc.c:108-147 | heap and result are the specification's on every heap; with free heads no used block's descriptor is written |
| Allocator.MemMaster.MemFree | libc/alloc.c:150-191 | the heap is the specification's on every heap |
| Allocator.MemMaster.MemNewRegion | libc/alloc.c:36-77 | fills the first free slot, or overwrites the last when none is free |
| Allocator.MemMaster.MemTotalFree | libc/alloc.c:411-429 | the free bytes of all registered regions, modulo 2^32 |
| Allocator.MemMaster.MoveBlock | libc/alloc.c:339-351 | allocate, copy the old size, free; on failure nothing is copied or freed |
| Allocator.MemMaster.MemRealloc | libc/alloc.c:294-409 | heap, result and the bytes of memory are the specification's, for every branch including the ending that allocates and returns NULL; `ReallocResult` and `ReallocExactIff` say what that is |
| Numerals.DigitsDenote | libc/printf.c:311-320 | the digits of a number denote it, are below the base, and do not start with zero |
| Numerals.WordFits32 | libc/printf.c:311-320 | in any base from 2 on, 32 places hold every 32-bit number, 11 from base 8 on |
| Numerals.TextIsTable | libc/printf.c:311-320 | digits up to 15 are written as the characters 0 to 9 and a to f, or A to F in upper case |
| FormatLaws.EmitAppend | libc/printf.c:130-136 | bounded output of two texts is bounded output of their concatenation, at an index that wraps at 32 bits |
| FormatLaws.EmitPlaces | libc/printf.c:130-136 | character by character: where each one goes, that none goes at or past the bound, and that nothing else changes |
| FormatLaws.TruncationRefines | libc/printf.c:989-993 | for every size n the buffer holds the first min(n-1, L) characters of the text, then NUL, and is untouched behind; size 0 leaves it alone |
| FormatLaws.TruncationIff | libc/printf.c:989-993 | all texts of a length are truncated like that if and only if the length is below 2^32 or the buffer holds at most the NUL |
| FormatLaws.FormatsCombine | libc/printf.c:651-987 | a complete format followed by another gives the first text followed by the second, from the arguments the first leaves |
| FormatLaws.PlainText | libc/printf.c:651-659 | a format without a percent sign stands for itself |
| Grammar.HeadOfSpelling | libc/printf.c:661-780 | flag characters in any order and number, a width of digits or a star, a precision of a point and digits or a star or nothing, and a length modifier, written out one after the other, are read as what they stand for, up to their end: a negative star width means left alignment, a negative star precision zero; when an argument of a star is missing or no `int`, there is no text |
| Grammar.EveryFormatIsSpelled | libc/printf.c:661-780 | whatever follows a percent sign is such a spelling, so the row above covers every format |
| Conversions.StringShown | libc/printf.c:923-954 | a whole `%s`, from its spelling: one argument is used, a string; the string up to the precision, if there is one, stands at the proper end of a field that is just wide enough, the rest is spaces |
| Conversions.CharacterShown | libc/printf.c:898-921 | the same for `%c` and the low byte of its argument, whatever the precision |
| Conversions.OtherCharacterShown | libc/printf.c:977-986 | `%%`, and every character that is no conversion, comes out as itself whatever flags, width, precision and modifier are in front, and uses no argument |
| Conversions.PlainString | libc/printf.c:923-954 | `%s` writes any string as it is |
| Conversions.ArgumentMeans | libc/printf.c:830-873 | the number converted is the one the low 8 bits of the argument mean for `hh`, 16 for `h`, 64 for `ll` and `j`, else 32, in two's complement for signed conversions; 64-bit arguments are used for `ll` and `j` and only then |
| Conversions.IntFlagsAre | libc/printf.c:792-828 | base and remaining flags by conversion character, field by field |
| Conversions.FieldShownIff | libc/printf.c:200-297 | a sign, the prefix of the alternate form, zeros and digits, as long as the precision and the zero-padded width ask for, stand at the proper end of a field that is just wide enough, if and only if they fit 32 characters, a space for a sign aside; without a precision, digits that just fill the width are given up for the prefix |
| Conversions.IntegerShownIff | libc/printf.c:785-875 | a whole integer conversion from its spelling, with every flag, width, precision and length modifier: one argument is used, of the width of the modifier; the text is the sign, prefix, zeros and digits of its value, in base and case of the conversion character, at the proper end of a field that is just wide enough, if and only if these fit the digit buffer |
| Conversions.AddressShownIff | libc/printf.c:956-975 | the same for `%p`: upper-case hexadecimal digits, filled with zeros to eight unless left aligned |
| Conversions.PlainSizeExample | libc/printf.c:774-777 | `%zu` of 8290304 writes all seven digits |
| FieldLaws.IntLengthIff | libc/printf.c:200-350 | without `#`, an integer field is as long as the larger of width and natural length if and only if the parts made in the digit buffer fit 32 characters; natural length counts the number's own digits, even those that do not fit |
| FieldLaws.ConversionLengthIff | libc/printf.c:785-875 | the same for whole integer conversions with every other flag, width, precision and length |
| FieldLaws.BufferDenotesIff | libc/printf.c:311-320 | the digits in the buffer denote the number if and only if it has at most 32 digits; otherwise they denote less |
| FieldLaws.DigitBounds | libc/printf.c:300-350 | every 32-bit number fits in any base, every 64-bit number in base 8 and above |
| FieldLaws.TextFields | libc/printf.c:898-954 | `%c` and `%s` fields show the byte or the string up to the precision at the proper end, are as long as the larger of width and that, and are otherwise spaces |
| FieldLaws.DecimalShape | libc/printf.c:200-297 | a decimal field is spaces, at most one sign directly before the digits, zeros, digits, spaces |
| FieldLaws.DecimalRoundTripIff | libc/printf.c:189-350 | a decimal field of any 64-bit magnitude reads back through `_atoi` to the signed number if and only if the magnitude has 32 bits and a minus sign has room: precision below 32, zero-padded width at most 32, or left alignment |
| FieldLaws.GivenIs | libc/printf.c:830-873 | the number taken from the argument is its two's complement or unsigned reading at the width of the length modifier |
| FieldLaws.ConversionReadsBackIff | libc/printf.c:785-875 | the same for whole `%d`, `%i`, `%u` conversions, with every flag, width, precision and length modifier |
| FieldLaws.SignLostExample | libc/printf.c:241-296 | `%.32d` of -1 is written without a sign |
| FieldLaws.PlainDecimal | libc/printf.c:640-994 | `%d` of any `int` renders, uses up its argument, and reads back to it, the smallest `int` included |
| AlternateForm.AlternateFormIff | libc/printf.c:251-278 | for non-zero 64-bit numbers in bases 2, 8, 16 the prefixed field denotes the number if and only if the characters taken away are padding zeros and the prefix fits the buffer, in terms of digit count, width, precision and flags |
| AlternateForm.UnsignedConversionIff | libc/printf.c:785-875 | the same for whole `%x`, `%X`, `%o`, `%b` conversions with every flag, width, precision and length, with and without `#` |
| AlternateForm.AddressConversionIff | libc/printf.c:956-975 | the same for `%p` with any flags and precision, which pads to eight digits |
| AlternateForm.PlainFormDenotesIff | libc/printf.c:200-350 | without `#`, and for zero with it, a field in any base, signed or not, denotes the number, whatever its width, precision and flags, if and only if it has at most 32 digits and a minus sign finds room behind the padding zeros |
| AlternateForm.SignedDecimalIff | libc/printf.c:200-350 | for 64-bit decimal numbers: if and only if a minus sign finds room, in terms of precision, width and flags |
| AlternateForm.DecimalConversionIff | libc/printf.c:785-875 | the same for whole `%d`, `%i`, `%u` conversions, 64 bits included |
| AlternateForm.BinaryLostExample | libc/printf.c:338-347 | `%llb` of 2^32 renders, and does not read back |
| AlternateForm.DigitsLostExample | libc/printf.c:251-278 | `%#2x` of 0xab renders as `0x` |
| Printf.Out | libc/printf.c:129-145 | one character is written below the bound or dropped, and the index goes up, wrapping |
| Printf.OutRev | libc/printf.c:200-229 | writes the reversed digit buffer with its spaces on the proper side |
| Printf.PadZeros | libc/printf.c:234-249 | the two zero loops reach exactly the precision and zero-padded width the 32 places allow |
| Printf.AddPrefix | libc/printf.c:251-278 | strips and prefixes as the text specification says, including what does not fit |
| Printf.NtoaFormat | libc/printf.c:232-297 | writes the specified field, in place in the digit buffer |
| Printf.PutDigits | libc/printf.c:311-320 | the digit loop leaves the number's digits, least significant first, at most the last 32 |
| Printf.Ntoa | libc/printf.c:300-350 | `_ntoa_long` and `_ntoa_long_long` write the specified text of the number |
| Printer.ScanFlags | libc/printf.c:667-702 | the flag loop ends with exactly the flags and the rest of the format |
| Printer.Atoi | libc/printf.c:189-197 | the number in front, modulo 2^32, and the rest |
| Printer.ScanWidth | libc/printf.c:704-723 | width from digits or an argument, negative meaning left alignment |
| Printer.ScanPrecision | libc/printf.c:725-741 | precision from digits or an argument, negative meaning zero |
| Printer.ScanLength | libc/printf.c:743-780 | leaves the flags and the rest of the format that the specification's modifier leaves; `HeadOfSpelling` says which flags these are, `ArgumentMeans` how many bits they stand for |
| Printer.TakeNumber | libc/printf.c:830-873 | magnitude and sign of the argument after the casts |
| Printer.IntSettings | libc/printf.c:792-828 | base and remaining flags per conversion |
| Printer.ConvertInt | libc/printf.c:785-875 | writes the specified text of an integer conversion |
| Printer.ConvertChar | libc/printf.c:898-921 | writes the specified text of `%c` |
| Printer.Strnlen | libc/printf.c:173-179 | the smaller of length and bound; the position behind what is counted has been looked at |
| Printer.ConvertStr | libc/printf.c:923-954 | writes the specified text of `%s`; the last position read is the one behind the precision, or the NUL, and with a precision of zero always the NUL |
| Printer.ConvertAddress | libc/printf.c:956-975 | writes the specified text of `%p` |
| Printer.Specifier | libc/printf.c:782-987 | dispatch over the conversion character: succeeds exactly when the specification gives a text, and writes it; the rows of `Conversions` say what that text is |
| Printer.Scan | libc/printf.c:640-988 | the scanner terminates and writes exactly the text of the format, for every format and argument list |
| Printer.Vsnprintf | libc/printf.c:640-994 | buffer and return value for every format, size and buffer including null: same length whatever the bound |
| Printer.Snprintf | libc/printf.c:1024-1031 | the same, writing to a caller's buffer |
| NumText.Itoa | libc/lib.c:835-869 | writes the number's text and NUL and nothing behind |
| NumText.EmitDigits | libc/lib.c:849-854 | the digit loop leaves the text reversed |
| NumText.TurnRound | libc/lib.c:856-866 | the two copies reverse it in place |
| NumText.InternalAtoi | libc/lib.c:885-914 | the value of what is read, up to the limit, as a wrapping `int`; stays inside the terminated string |
| NumText.AcceptsIff | libc/lib.c:891-906 | the loop goes on exactly at the ten decimal digits and, above base 10, at the letters up to and including the one that stands for the base itself |
| NumText.LetterTooMany | libc/lib.c:893 | that letter is read as the base: "G" in base 16 gives 16 |
| NumText.AtoiOfItoaIff | libc/lib.c:835-914 | reading back gives the number, in every base from 2 to 36, if and only if it is below 2^31 |
| NumText.AtoiOfItoaLimited | libc/lib.c:885-914 | with a limit, the number of exactly the first digits, as a wrapping `int`, for every number |
| NumText.ItoaFitsIff | libc/lib.c:835-839 | a number fits the 32-byte buffer if and only if it is below the 32nd power of the base; from base 4 on every 64-bit number does |
| NumText.NoSuperfluousZero | libc/lib.c:835-869 | the text starts with zero if and only if the number is zero |
| ScreenDoc.CursorStaysIff | libc/lib.c:215-268 | a character keeps the cursor on the screen if and only if it is not a backspace in column 0; one scroll is always enough |
| ScreenDoc.CellParts | libc/lib.c:109-112 | the low byte of a cell is the low byte of its character, the high byte the colours |
| ScreenDoc.AddChEffect | libc/lib.c:215-268 | a printing character shows in the cell at the cursor and in no other; it moves the cursor by one, a tab to the next multiple of 4, return to column 0 of its line, newline to column 0 of the next, vertical tab one line down, backspace one to the left; column 80 is column 0 of the next line; a new last line is blank |
| ScreenDoc.Apply | libc/lib.c:129-268 | no single operation takes the cursor off the screen |
| ScreenDoc.RunContinues | libc/lib.c:129-268 | over every run of output without a backspace in column 0, moves, scrolls and clears, the cursor stays on the screen and what has scrolled off never changes |
| ScreenDoc.TextIsLaidOut | libc/lib.c:209-268 | plain text on an empty screen shows, character by character and in the current colours, as the last 25 lines of its layout on 80-column paper, the cursor right behind it |
| Terminal.Screen.constructor | libc/lib.c:114-117 | before any output the cursor is at the top left and whatever video memory holds is on display |
| Terminal.Screen.MoveTo | libc/lib.c:187-195 | the cursor is at line y, column x afterwards, or ERR and it has not moved |
| Terminal.Screen.AttrSet | libc/lib.c:465-476 | later cells get the attribute's colour, existing ones keep theirs |
| Terminal.Screen.ClrToEol | libc/lib.c:129-133 | exactly the cells from the cursor to the end of its line show a space in the current colours, all others, the cursor and what has scrolled off are unchanged |
| Terminal.Screen.ClearScreen | libc/lib.c:153-163 | all 2000 cells show a space in the current colours; cursor and what has scrolled off are unchanged |
| Terminal.Screen.ClrToBot | libc/lib.c:495-501 | exactly the cells from the cursor to the end of the screen show a space in the current colours; cursor and what has scrolled off are unchanged |
| Terminal.Screen.Scrl | libc/lib.c:484-493 | every cell holds what was s lines below it, or shows a space when nothing was; the cursor stays; the window moves down the document by s lines |
| Terminal.Screen.Addch | libc/lib.c:215-268 | the cell at the cursor shows the low byte of a printing character in the current colours, all other cells are unchanged, the cursor goes where `AddChEffect` says, and all is one line higher, above a blank line, exactly when it left the last line; the cells stay the window of the document |
| Terminal.Screen.Addnstr | libc/lib.c:209-213 | the same for a whole text |
| DecimalBits.BitsDetermine | krnlsupa.cbl:71-87 | a number is its bits, so the two laws below fix AND and OR |
| DecimalBits.AndBits | krnlsupa.cbl:71-87 | bit k of the AND is set if and only if it is in both operands |
| DecimalBits.OrBits | kernel.cbl:618-631 | bit k of the OR is set if and only if it is in either operand |
| DecimalBits.LowOrIsOrModulo | kernel.cbl:618-631 | what the OR loop adds up is the OR modulo the power of two of the shorter operand's length |
| DecimalBits.OrParagraphCorrectIff | kernel.cbl:618-631 | the OR paragraph is right if and only if both operands have equally many binary digits and the OR fits eight decimal digits |
| DecimalBits.OrLostExample | kernel.cbl:618-631 | 1 OR 2 comes out as 1 |
| DecimalBits.WeightFits | krnlsupa.cbl:76-87 | while an operand has bits left, the weight is at most 2^26 and fits its field |
| DecimalBits.WorkingStorage.BitwiseAnd | kernel.cbl:604-617 | the AND of all eight-digit operands, in at most 27 rounds; the SUBITAND loop is the same |
| DecimalBits.WorkingStorage.BitwiseOr | kernel.cbl:618-631 | the low bits of the OR, last eight digits, in at most 27 rounds |
| DecimalBits.WorkingStorage.PciComputeAddr | kernel.cbl:498-515 | the packed address of the four fields |
| DecimalBits.AndWordMask | kernel.cbl:500-503 | the mask 0xFC drops exactly the two byte-select bits |
| DecimalBits.PciRoundTripIff | kernel.cbl:498-515 | decoding by section 3.2.2.3.2 of the PCI Local Bus Specification 3.0 recovers bus, slot, function and aligned register, with no carry into the enable bits, if and only if bus, slot and function are in range |

## Left out

Of the heap:

- `mem_align_alloc`: its loop does not advance on a mismatch and nothing calls it.
- Descriptors are positions in a table of their own. The C code overlays the table on the start of the
  region, where payload addresses also begin, so a caller who writes to a block that is not clear of the
  table (`GrantClearsTableIff`) changes descriptors; that is not modelled.
- The next-region link of the master record, and `mem_print`.
- Allocator.MemMaster.MemRealloc: requires a free head in every registered region, without which `mem_alloc` may cut the very block whose size is read after it; the bytes of memory are a parameter, all 2^32 of them, with addresses that wrap.
- HeapRealloc.ReallocExactIff: for live blocks and positive sizes; a block of no bytes shares its address with its neighbour, as `EmptyRequestSharesIff` shows.
- HeapWide.FreeIsExact: for regions registered in ascending address order; the kernel registers one. `FreeExactIff` is about any order; runs and reallocations are not treated there.
- HeapRuns.BytesOutliveRun: callers' own writes to their blocks are not part of a run.

Of formatted output:

- `%f`, `%e`, `%g` and their helpers (IEEE rounding). A format that uses them has no text here.
- `va_list` mechanics: arguments are a sequence of 32-bit words, 64-bit words and strings.
- Printer.Vsnprintf: where C leaves the behaviour undefined (a missing or mismatched argument, a format that ends inside a conversion) it reports that there is no text, and promises nothing about the buffer. A format holds no NUL, which would end it.
- `printf`, `fctprintf` and their character callbacks; only buffer and null output are modelled.
- Printer.TakeNumber: negating the smallest `int` is undefined in C and modelled as two's complement wrap-around.

Of the terminal and number text:

- The serial echo of `addch`, the hardware cursor, colours other than the attribute byte, `getch`.
- Memory.CopyForward: copies cells of one array; on bytes the loop is the same. The backward branch of `memmove`, which is off by one, is not modelled.
- NumText.Itoa: for at most 32 digits, the size of its local buffer, and bases up to 36; `ItoaFitsIff` says which numbers these are.
- NumText.InternalAtoi: `int` overflow is undefined in C and modelled as wrap-around.
- `qsort`, `strtok`, `sitoa` and the other string functions.

Of the COBOL programs:

- DecimalBits.WorkingStorage.BitwiseOr: an ADD that overflows its field keeps the last eight digits; a compiler that suppresses the store instead is not modelled.
- DecimalBits.WorkingStorage.BitwiseAnd: the weight is kept as an unsigned eight-digit number, although its field is signed binary; it is never negative.
- Screens, drivers, `HTOPRINT`, `linesort.cbl` and port input and output.
