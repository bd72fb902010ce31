# DexprOS: a verified model

DexprOS is a small x86-64 operating system that UEFI firmware starts. This project models the parts of it
whose correctness is hardest to see by reading, and proves what they are for.

**The early page maps** (`Paging`, `PageMapState`, `PageMapStructure`, `PageMapBuilder`, `PageMapCoverage`,
`PageMapSetup`, `PageMapTranslation`, `MappedRegions`, `PageMapSizing`, `UefiMemoryMap`, `WordOps`,
`Intervals`). A sizing pass walks the firmware's memory map in ascending order and counts the tables that each
paging level will need. A building pass takes the descriptors in the firmware's order, takes zeroed tables
from a bump pointer and writes identity entries in place. The model keeps the buffer as an array of 64-bit
words at a page-aligned base; `Paging.Walk` is the processor's walk of section 4.5 of the Intel 64 and IA-32
Architectures Software Developer's Manual, Volume 3A. Main results: a finished map translates every address in
a covered page to itself and no other address (`PageMapSetup.IdentityMap`); building succeeds if and only if
the needed tables fit the buffer (`PageMapSetup.SetupPageMap`); with the size that the sizing pass computes it
always does and uses the whole buffer (`PageMapSetup.CreatePageMap`); the 4- and 5-level maps agree below
2^48; the covered memory is exactly what each map has to translate
(`PageMapTranslation.TranslatesExactlyWanted`), and the memory that the kernel then stores its maps in is
among it.

**The physical-memory pipeline** (`EfiMapIteration`, `FirmwareAttributes`, `InitialMemMap`, `CarvedMap`,
`RangeLists`, `PhysicalMemory`, `PhysicalMemMap`, `PhysicalMemTree`, `TreeGeometry`, `TreeWrapping`,
`TreeLayout`, `TreeMarking`, `TreeSummary`, `TreeAccel`, `PhysicalMemStructs`, `Availability`). The firmware's
map becomes an initial map that stores itself in memory it describes, then coalesced physical ranges, then a
binary tree of availability summaries for each range. Each stage counts first and fills afterwards. Main
result (`Availability.SetUpPhysicalMemory`): whatever the firmware's order, once the pipeline has run a page
is available if and only if the firmware gives it conventional or persistent memory and neither the initial
map nor the structures lie on it; the pipeline fails only for want of memory.

**The screen and the shell** (`ScreenState`, `CpuGraphicsDriver`, `BuiltInBitmapFont`, `GlyphPainting`,
`TextLayout`, `LineGeometry`, `RingText`, `DisplayRuns`, `Shell`). Two framebuffers with a pending dirty
rectangle, and a shell that keeps text in a ring and lays it out greedily. Main results: over every run, the
buffers differ only in the pending part once the screen has been cleared, and a swap makes them equal
(`ScreenState.RunIsCoherent`); a clipped blit does what the unclipped one would, pixel by pixel; a flush never
cuts the text off, and leaves on the screen exactly what drawing the whole window on a cleared screen gives,
whatever was there before (`Shell.Shell.FlushStdOut`); and over every run the window stays the last part of
the text (`DisplayRuns.RunStaysValid`).

**The keyboard** (`ScanCodes`, `KeyStates`, `KeyboardCommands`, `PS2KeyboardDriver`, `IndicatorLights`). Scan
codes come from a tree of tables with special sequences; the keys decoded drive modifiers, locks and indicator
lights; commands to the keyboard, the lights among them, go through a queue with limited repeats. Main
results: feeding bytes reports a key if and only if they are a code of it; any list of strokes decodes to
itself however the keyboard's responses are interleaved; pressing and releasing the key of a lock switches the
lock over once, however long it is held, and the lights always show the locks; the transmissions of any run
are the accepted commands in order, each sent one to four times.

**The memory routines** (`MemoryRoutines`): `memset`, `memcpy` and `memcmp`, which work on whole words where
they can, do what byte loops would for every alignment and count.

## How the source maps to the model

- `PrepareLevel1Table` to `PrepareLevel4Table` and the two `MapMemoryRangeInLevel...Table` functions differ
  only in constants, so they are one recursive `PrepareTable`/`MapRange` over the level. The three sizing
  functions and the three set-up functions likewise take the number of levels, which descriptors to
  include, and an optional framebuffer; the transitional map is the one without a framebuffer.
- A callback that is handed each range is modelled by the list of ranges, followed by the callback's work
  on each element.
- The clearing loops for the two framebuffer formats differ in the order of the bytes, the four blitting
  loops in what they do to a pixel; each group is one loop over `Cleared` or `Overlaid`. The word-wide
  branches of `memcpy` and `memcmp` for 8, 4 and 2 bytes are one method over the size. `Puts` and
  `PutsUTF32` are one method over the characters before the terminator.
- Framebuffer memory is an array of pixels, as every offset is a multiple of four bytes.
- Sizes fixed by headers: 4096-byte pages; entries of 40 bytes (initial map), 32 bytes (physical map and
  tree level), 64 bytes (tree); alignment 16; 8 blocks kept inside a level structure; block values 128
  (available), 0 (unavailable) and 1 (one 128th or less); 65536 display characters; 16 commands, 3 repeats.

## What the source does differently from what one expects

- The framebuffer test at `src/Boot/x86_64-efi/InitialPageMapSetup.c:116` compares with the end of the best
  range, not with its base. The scan takes the lowest remaining range if and only if the framebuffer does
  not begin inside that range (`MappedRegions.NextRegionIsLowestIff`, with `OverlapExample`). Sizing is
  therefore stated for regions that do not overlap.
- Both scans of the firmware's map search on from the end of the range they took, and need not come to an
  end themselves. After an empty range they find the same range again (`MappedRegions.EmptyIsFoundAgain`).
  After a range that reaches to the very end of the 64-bit address space, whose end is zero as a 64-bit
  number, they start over with the lowest range of all (`MappedRegions.StartsOver`). For regions that do not
  overlap the scan ends if and only if no region reaches to 2^64, the framebuffer is not empty, and every empty
  descriptor has an earlier one with the same base (`MappedRegions.ScanEndsIff`,
  `EfiMapIteration.IterationEndsIff`). `PageMapSizing.CalculatePageMapSize` asks for that and no more, and
  `IterEfiMemMapAsInitMap` for descriptors that are not empty. (Section 7.2 of the UEFI Specification forbids
  descriptors of no pages.)
- The loop that finds the levels of a tree rounds the range's upper end up in 64 bits, where 2^64 is zero. It
  always ends, at a block size of at most 2^63, but for a range on both sides of 2^63 it ends with a root that
  has no block: the rounded range becomes the whole address space, whose size is zero in 64 bits
  (`TreeWrapping.RootHasOneBlockIff`, with `PageAfterMiddle` and `AllButTheLastPage`). A range on one side of
  2^63 gets the levels of unbounded arithmetic (`TreeWrapping.OneSide`). For ranges that end at most at 2^62
  nothing that is computed for a tree wraps at all (`TreeGeometry.FitsIn64Bits`), and the contracts about whole
  trees ask for that.
- A map without usable memory would still have a non-null pointer to its first tree entry
  (`src/Kernel/Memory/PhysicalMemTreeGen.c:277-304`); the passes over the trees rely on there being one.
  `Availability.SomeTree` shows that the pipeline never gets there without one.
- `ClearScreenRegions` gives every region the first region's size
  (`src/Drivers/Graphics/CpuGraphicsDriver.c:296-297`). The model does the same;
  `ScreenState.RegionClearedExactlyIff` says when a region is nevertheless cleared exactly.
- Scrolling drops the character that caused a line to wrap, although it belongs to the line that stays
  (`src/Shell.c:297-305`), unless the last line scrolled away ends with a new-line character
  (`TextLayout.ScrollDropsExactlyIff`, with `ScrollDropsKeptLetter`).
- Deleting the last character while the window is empty moves the end of the text in front of the window
  (`src/Shell.c:181-190`): `Shell.Shell.DeleteLastDisplayChar` says exactly when the window survives, and
  `DisplayRuns.EmptyWindowReached` is a run that comes to such a window.
- A command that finds sixteen others waiting is dropped (`src/Drivers/Keyboard/PS2KeyboardDriver.c:148-150`;
  `KeyboardCommands.PushAcceptedIff`), be it one for the lights. `IndicatorLights.LightsFollowLocks` is therefore
  about the commands pushed, and `AcceptedLightsShowLocks` about a queue that has room.
- The memory routines step over as many bytes as the address is past a word boundary, not as many as are
  missing to the next one, so the words that follow are often not aligned, against the comment at
  `src/Kernel/kstdlib/string.c:17-18`: `MemoryRoutines.WordsAlignedIff`. The result is right all the same.
- Character 127 passes the font's check (`src/Kernel/BuiltInBitmapFont.c:21-26`) but has no entry in the
  95-entry table (`BuiltInBitmapFont.LookupFailsAt127`). The lookups for a text stay in the table if and only
  if 127 is not among its characters (`LookupsStayInTableIff`). The ring may hold the character; what lays a
  window out or draws it asks that the window does not.

## Model

| member | source | states |
|---|---|---|
| MappedRegions.NextRegionIsLowestIff | src/Boot/x86_64-efi/InitialPageMapSetup.c:77-130 | the scan's next range is the lowest remaining one if and only if the framebuffer does not begin inside the lowest remaining descriptor |
| MappedRegions.OverlapExample | src/Boot/x86_64-efi/InitialPageMapSetup.c:112-121 | a framebuffer inside a loader range makes the scan skip that range's beginning |
| MappedRegions.DisjointNextIsLowest | src/Boot/x86_64-efi/InitialPageMapSetup.c:77-179 | for disjoint non-empty regions the scan always takes the lowest remaining one |
| MappedRegions.EmptyIsFoundAgain | src/Boot/x86_64-efi/InitialPageMapSetup.c:209-243 | an empty descriptor that is the first at its base is found again from its own end |
| MappedRegions.StepMovesOnIff | src/Boot/x86_64-efi/InitialPageMapSetup.c:209-243 | a step of the scan moves on if and only if the region taken is not empty or begins further up |
| MappedRegions.LowestFilled | src/Boot/x86_64-efi/InitialPageMapSetup.c:77-179 | when every empty descriptor has an earlier one with the same base, the search finds what it would find without the empty ones |
| MappedRegions.ScanEndsIff | src/Boot/x86_64-efi/InitialPageMapSetup.c:209-243 | in 64 bits, for regions that do not overlap, the scan comes to its end if and only if none reaches to 2^64, the framebuffer is not empty, and every empty descriptor has an earlier one with the same base |
| MappedRegions.StartsOver | src/Boot/x86_64-efi/InitialPageMapSetup.c:209-243 | the scan never gets beyond the beginning of a region that reaches to 2^64, and never ends |
| MappedRegions.ScanNeverEnds | src/Boot/x86_64-efi/InitialPageMapSetup.c:209-243 | for regions that do not overlap, an empty framebuffer or an empty descriptor that is the first at its base keeps the scan from ever ending |
| MappedRegions.ScanStep | src/Boot/x86_64-efi/InitialPageMapSetup.c:209-243 | going on to the end of the lowest region makes progress, splits no region, and adds exactly that region's pages |
| PageMapSizing.FindNextMemoryRange | src/Boot/x86_64-efi/InitialPageMapSetup.c:77-179 | the loop over the descriptors finds the range that the scan is specified to take |
| PageMapSizing.CountStep | src/Boot/x86_64-efi/InitialPageMapSetup.c:226-240 | the number of distinct tables of a level grows by the span of a new range, plus one if it does not share its first table with the pages below it |
| PageMapSizing.NeededCount | src/Boot/x86_64-efi/InitialPageMapSetup.c:245-250 | the tables of the levels up to one are those of the levels below plus its own distinct ones |
| PageMapSizing.CountRangeTables | src/Boot/x86_64-efi/InitialPageMapSetup.c:226-240 | one pass of the loop keeps every level's counter equal to the number of distinct tables touched so far |
| PageMapSizing.CalculatePageMapSize | src/Boot/x86_64-efi/InitialPageMapSetup.c:182-390 | the scan ends, and its result is 4096 times one plus the number of distinct tables that covered pages fall under, for any order of the descriptors |
| PageMapBuilder.PageMapBuffer.constructor | src/Boot/x86_64-efi/InitialPageMapSetup.c:685-693 | a cleared root table, and nothing mapped |
| PageMapBuilder.PageMapBuffer.ClearTable | src/Boot/x86_64-efi/InitialPageMapSetup.c:688-690 | exactly one table is zeroed |
| PageMapBuilder.PageMapBuffer.TakeTable | src/Boot/x86_64-efi/InitialPageMapSetup.c:456-463 | the next 512 words become a cleared table, linked from its parent's clear entry; the map stays consistent |
| PageMapBuilder.PageMapBuffer.GetOrCreateTable | src/Boot/x86_64-efi/InitialPageMapSetup.c:445-468 | a table is found or made; it fails exactly when a new one does not fit, and nothing moves |
| PageMapBuilder.PageMapBuffer.MapPage | src/Boot/x86_64-efi/InitialPageMapSetup.c:429-431 | one page is mapped to itself; one that is mapped already stays as it is |
| PageMapBuilder.PageMapBuffer.MapPages | src/Boot/x86_64-efi/InitialPageMapSetup.c:425-434 | exactly the pages that the byte range touches are added |
| PageMapBuilder.PageMapBuffer.PrepareTable | src/Boot/x86_64-efi/InitialPageMapSetup.c:393-605 | it succeeds if and only if the needed tables fit; then exactly those tables and pages are added; on failure only part of them; tables never move |
| PageMapBuilder.PageMapBuffer.MapRange | src/Boot/x86_64-efi/InitialPageMapSetup.c:471-490 | the loop that cuts a range at table boundaries has the same outcome as the whole range |
| PageMapBuilder.PageMapBuffer.MapMemoryRange | src/Boot/x86_64-efi/InitialPageMapSetup.c:608-667 | mapping a range from the root down succeeds if and only if its tables fit, and then adds exactly its pages |
| PageMapBuilder.FirstPiece | src/Boot/x86_64-efi/InitialPageMapSetup.c:471-476 | the first piece ends at the first boundary or at the end |
| PageMapBuilder.ThenPiece | src/Boot/x86_64-efi/InitialPageMapSetup.c:487-489 | advancing both ends gives the piece that follows without a gap, or the range is done |
| PageMapState.AddTable | src/Boot/x86_64-efi/InitialPageMapSetup.c:456-463 | linking a cleared table keeps the page map consistent |
| PageMapState.AddPage | src/Boot/x86_64-efi/InitialPageMapSetup.c:429-431 | writing a page's entry keeps the page map consistent |
| PageMapState.IdentityExactly | src/Boot/x86_64-efi/InitialPageMapSetup.c:393-667 | the processor's walk of a consistent map sends an address to itself, writable, if its page is mapped, and faults otherwise |
| PageMapStructure.FollowReaches | src/Boot/x86_64-efi/InitialPageMapSetup.c:439-605 | a path of entries leads to a table exactly when the table it names exists |
| PageMapStructure.ReachedTables | src/Boot/x86_64-efi/InitialPageMapSetup.c:393-667 | every reachable table is page-aligned, inside the buffer, below the bump pointer and reached by one path only |
| PageMapStructure.GrowthPreserves | src/Boot/x86_64-efi/InitialPageMapSetup.c:393-667 | a map that has grown keeps every translation it had |
| PageMapStructure.FourAndFiveAgree | src/Boot/x86_64-efi/InitialPageMapSetup.c:670-846 | below 2^48 the 4-level and 5-level maps of the same pages translate identically |
| PageMapSetup.SetupPageMap | src/Boot/x86_64-efi/InitialPageMapSetup.c:670-846 | it succeeds if and only if the buffer is page-aligned and the root and all needed tables fit; then it covers exactly the pages of the wanted memory and of the framebuffer, with exactly the tables they need |
| PageMapSetup.IdentityMap | src/Boot/x86_64-efi/InitialPageMapSetup.c:670-846 | a finished map translates every address of a covered page to itself and faults on every other address below the root's span |
| PageMapCoverage.CoveredMeaning | src/Boot/x86_64-efi/InitialPageMapSetup.c:425-434 | a page is covered if and only if some included region touches one of its bytes |
| PageMapCoverage.CoveredIffWanted | src/Boot/x86_64-efi/InitialPageMapSetup.c:36-75 | the covered pages are those of run-time memory, of loader and boot or run-time services memory, in the initial map also of conventional memory, and of the framebuffer |
| PageMapTranslation.TranslatesExactlyWanted | src/Boot/x86_64-efi/InitialPageMapSetup.c:670-846 | the processor's walk of a finished map sends an address on a page of wanted memory or of the framebuffer to itself, and faults on every other |
| PageMapTranslation.InitialWantsUsed | src/Boot/x86_64-efi/InitialPageMapSetup.c:36-54 | run-time memory is always in the initial map; other memory is if and only if the kernel's own map gives it a use, persistent memory apart |
| PageMapTranslation.TransitionalWantsLess | src/Boot/x86_64-efi/InitialPageMapSetup.c:56-75 | the transitional map has what the initial one has, less the conventional memory without the run-time attribute |
| PageMapTranslation.TransitionalWithinInitial | src/Boot/x86_64-efi/InitialPageMapSetup.c:36-75 | whatever the transitional map translates, the initial one translates alike |
| PageMapTranslation.UsableIsTranslated | src/Boot/x86_64-efi/InitialPageMapSetup.c:36-54 | every address of an emitted region that is usable and mapped is translated to itself by the initial map |
| PageMapTranslation.InitialMapIsTranslated | src/Kernel/efi/InitialMemMapGenEfi.c:397-459 | so is every address of the pages that the first memory map is stored in |
| PageMapTranslation.StructuresAreTranslated | src/Boot/x86_64-efi/UefiBoot.c:269-288 | so is every address of the buffer found for the physical memory structures |
| PageMapSetup.SizeAndSetup | src/Boot/x86_64-efi/InitialPageMapSetup.c:182-846 | building after sizing succeeds in a page-aligned buffer if and only if the buffer has at least the computed size, and then covers exactly the wanted memory |
| PageMapSetup.CreatePageMap | src/Boot/x86_64-efi/InitialPageMapSetup.c:182-846 | sizing, then building with exactly that many bytes, never fails, uses the whole buffer, and covers exactly the pages of the wanted memory and of the framebuffer |
| RangeLists.CanonicalUnique | src/Kernel/efi/InitialMemMapGenEfi.c:192-262 | ascending maximal range lists that cover the same addresses alike are equal |
| RangeLists.CoalesceCanonical | src/Kernel/Memory/InitialMemMap.c:4-33 | merging touching ranges gives ascending maximal ranges with the same cover |
| RangeLists.CoalesceSame | src/Kernel/Memory/InitialMemMap.c:4-33 | lists with the same cover merge to the same list |
| RangeLists.CoalesceSize | src/Kernel/Memory/InitialMemMap.c:4-33 | merging conserves the number of bytes |
| EfiMapIteration.IterationEndsIff | src/Kernel/efi/InitialMemMapGenEfi.c:209-228 | in 64 bits, for descriptors that do not overlap, the search from each range's end on comes to its end if and only if none reaches to 2^64 and every empty one has an earlier one with the same base |
| EfiMapIteration.LastPageIsFoundAgain | src/Kernel/efi/InitialMemMapGenEfi.c:209-228 | in a map of the last page alone, the search from its end finds it again |
| EfiMapIteration.GetNextEfiMapEntry | src/Kernel/efi/InitialMemMapGenEfi.c:143-185 | it finds the first of the lowest descriptors at or above an address, or reports that none is left |
| EfiMapIteration.IterEfiMemMapAsInitMap | src/Kernel/efi/InitialMemMapGenEfi.c:192-262 | for any order of disjoint non-empty descriptors the emitted ranges are ascending, disjoint and maximal, and cover exactly the described pages with the converted attributes, whose meaning the next rows pin |
| FirmwareAttributes.FlagIffAttribute | src/Kernel/efi/InitialMemMapGenEfi.c:84-139 | each of the fifteen kernel flags is set if and only if the firmware attribute of the same meaning is |
| FirmwareAttributes.CachingKept | src/Kernel/efi/InitialMemMapGenEfi.c:88-101 | the five caching attributes keep their places |
| FirmwareAttributes.FieldIfValid | src/Kernel/efi/InitialMemMapGenEfi.c:130-138 | the instruction-set field is copied if the firmware calls it valid and zero otherwise, and no other bit is ever set |
| FirmwareAttributes.ConversionsTell | src/Kernel/efi/InitialMemMapGenEfi.c:6-82 | which memory types of the firmware become each type of the kernel, and each use |
| FirmwareAttributes.IterationTells | src/Kernel/efi/InitialMemMapGenEfi.c:192-262 | where the firmware describes memory, and nowhere else, there is an emitted range, which says of type, use and every attribute what the descriptor says |
| FirmwareAttributes.InitialMapTells | src/Kernel/efi/InitialMemMapGenEfi.c:397-459 | so says the finished initial map, except that its own pages are in use as the map |
| FirmwareAttributes.PhysicalMapTells | src/Kernel/Memory/InitialMemMap.c:4-33 | so says, of type and attributes, the physical memory map |
| InitialMemMap.LargestUsableIsLargest | src/Kernel/efi/InitialMemMapGenEfi.c:274-288 | the chosen region is usable, mapped, and no such region is larger |
| InitialMemMap.LargestUsableIsFirst | src/Kernel/efi/InitialMemMapGenEfi.c:274-288 | of several such regions it is the first |
| InitialMemMap.AllocInitMemMapMemory | src/Kernel/efi/InitialMemMapGenEfi.c:290-328 | room is found if and only if some usable mapped region has the bytes for one entry more than there are ranges; it begins the largest such region |
| InitialMemMap.InitMemMapCreation.Append | src/Kernel/efi/InitialMemMapGenEfi.c:352-384 | an entry is appended if there is room, and otherwise nothing is written and the creation has failed |
| InitialMemMap.InitMemMapCreation.FillInitMemMapEntry | src/Kernel/efi/InitialMemMapGenEfi.c:345-395 | the range that holds the map is split into the map's own pages and the rest, every other range is kept, as far as they fit |
| InitialMemMap.CarveSplit | src/Kernel/efi/InitialMemMapGenEfi.c:352-384 | carving an iteration splits exactly the chosen range |
| InitialMemMap.IterationUnique | src/Kernel/efi/InitialMemMapGenEfi.c:192-262 | the counting and the filling iteration see the same entries |
| InitialMemMap.CreateInitialMemMapFromEfi | src/Kernel/efi/InitialMemMapGenEfi.c:397-459 | creation fails if and only if no usable mapped region has those bytes; otherwise the filled map is the iteration with the largest region carved |
| CarvedMap.MapFits | src/Kernel/efi/InitialMemMapGenEfi.c:290-328 | the entry array fits in the pages it reserved |
| CarvedMap.MapPagesLeast | src/Kernel/efi/InitialMemMapGenEfi.c:315-326 | the pages reserved are the fewest that hold one entry of 40 bytes more than there are ranges |
| CarvedMap.OneTagged | src/Kernel/efi/InitialMemMapGenEfi.c:352-384 | exactly one entry is tagged as the initial map, and it covers precisely those pages |
| CarvedMap.PagesConserved | src/Kernel/efi/InitialMemMapGenEfi.c:352-384 | the split conserves the total number of pages |
| CarvedMap.CarvedAttributes | src/Kernel/efi/InitialMemMapGenEfi.c:352-384 | every address keeps its type and flags; its usage changes only on the map's own pages |
| CarvedMap.CarvingHeals | src/Kernel/efi/InitialMemMapGenEfi.c:345-395 | merging the carved map on type and flags gives what merging the iteration gives |
| PhysicalMemMap.IterateCombinedPhysRanges | src/Kernel/Memory/InitialMemMap.c:4-33 | the nested loops hand over exactly the merged ranges |
| PhysicalMemMap.GetPhysicalMemMapSize | src/Kernel/Memory/PhysicalMemMapGen.c:5-32 | the counting pass counts the merged ranges |
| PhysicalMemMap.PhysMemMapFill.FillMemMapEntry | src/Kernel/Memory/PhysicalMemMapGen.c:46-70 | a range is appended if there is room; otherwise nothing is written and the fill has failed |
| PhysicalMemMap.CreatePhysicalMemMap | src/Kernel/Memory/PhysicalMemMapGen.c:72-90 | the fill succeeds if and only if the buffer has at least the counted size; then it holds exactly the merged ranges, otherwise as many of them as fit |
| TreeGeometry.RoundingIsDirect | src/Kernel/Memory/PhysicalMemTreeGen.c:54-69 | rounding again at each block size equals rounding the range itself to that size |
| TreeGeometry.BlockBelowEnd | src/Kernel/Memory/PhysicalMemTreeGen.c:54-69 | while two or more blocks remain, the block size is below the end address |
| TreeGeometry.FitsIn64Bits | src/Kernel/Memory/PhysicalMemTreeGen.c:54-69 | for a range that ends at most at 2^62, every value computed for a level that is reached, the next block size included, is below 2^64 |
| TreeGeometry.OneRoot | src/Kernel/Memory/PhysicalMemTreeGen.c:54-69 | in unbounded arithmetic, a non-empty range's top level has exactly one block |
| TreeWrapping.MaxMappedWraps | src/Kernel/Memory/PhysicalMemTreeGen.c:58-59 | up to a block size of 2^63, the upper end rounded in 64 bits is the exact one modulo 2^64 |
| TreeWrapping.BlocksSeen | src/Kernel/Memory/PhysicalMemTreeGen.c:58-61 | the number of blocks computed in 64 bits is the exact one, except that it is zero where the rounded range is the whole address space |
| TreeWrapping.Root64 | src/Kernel/Memory/PhysicalMemTreeGen.c:54-69 | for every range below 2^64 the loop ends, at a block size of at most 2^63, at the first level with at most one block |
| TreeWrapping.OneSide | src/Kernel/Memory/PhysicalMemTreeGen.c:54-69 | a range on one side of 2^63 gets the levels and blocks of unbounded arithmetic |
| TreeWrapping.RootHasOneBlockIff | src/Kernel/Memory/PhysicalMemTreeGen.c:54-69 | in 64 bits the root of a non-empty range has one block if the range lies on one side of 2^63, and none if it lies on both |
| TreeWrapping.PageAfterMiddle | src/Kernel/Memory/PhysicalMemTreeGen.c:54-69 | the range from 0 to 2^63 + 4096 gets a root of no block |
| TreeWrapping.AllButTheLastPage | src/Kernel/Memory/PhysicalMemTreeGen.c:54-69 | for the range from 0 to 2^64 - 4096 the loop ends at blocks of 8192 bytes, with none |
| TreeGeometry.ParentOfBlock | src/Kernel/Memory/PhysicalMemTreeGen.c:385-401 | the child offset is 0 or 1, and every block of a level is a child of exactly one block above |
| TreeGeometry.TotalBlocksBound | src/Kernel/Memory/PhysicalMemTreeGen.c:37-74 | a range of n pages uses at most 2n blocks plus two for each level |
| TreeLayout.OutOfLineIff | src/Kernel/Memory/PhysicalMemTreeGen.c:133-153 | levels of at most eight blocks are kept in their own structure, larger ones take a byte for each block of the shared array |
| TreeLayout.SlicesApart | src/Kernel/Memory/PhysicalMemTreeGen.c:133-153 | the block arrays of different levels are disjoint slices of the shared array, in bounds |
| TreeLayout.OutOfLineWrite | src/Kernel/Memory/PhysicalMemTreeGen.c:133-153 | writing a block of one level in the shared array changes that block and no other |
| TreeLayout.InPlaceWrite | src/Kernel/Memory/PhysicalMemTreeGen.c:133-153 | so does writing a block kept in its level's own structure |
| PhysicalMemTree.CalcTreeEntryElements | src/Kernel/Memory/PhysicalMemTreeGen.c:37-74 | the sizes grow by exactly what the range's tree takes |
| PhysicalMemTree.GetPhysicalMemTreeSize | src/Kernel/Memory/PhysicalMemTreeGen.c:78-112 | the counted sizes are those of all trees |
| PhysicalMemTree.TreeArena.CountTreeLevels | src/Kernel/Memory/PhysicalMemTreeGen.c:156-176 | for every range below 2^64 the loop, in 64-bit arithmetic, ends with the number of levels up to the first that has at most one block |
| PhysicalMemTree.TreeArena.DescribeLevels | src/Kernel/Memory/PhysicalMemTreeGen.c:193-218 | each level gets its block size, first address and number of blocks, the root first |
| PhysicalMemTree.TreeArena.CreateTreeLevelBlocks | src/Kernel/Memory/PhysicalMemTreeGen.c:133-153 | with the counted sizes a level always gets cleared blocks, inside its structure or in the next slice of the shared array, and no other level changes |
| PhysicalMemTree.TreeArena.CreateTreeForMemoryRange | src/Kernel/Memory/PhysicalMemTreeGen.c:231-274 | one more tree is laid out and the counters move to its end |
| PhysicalMemTree.CreatePhysicalMemTree | src/Kernel/Memory/PhysicalMemTreeGen.c:277-304 | with the sizes just computed creation succeeds and the three counters end at their totals |
| TreeMarking.SetAllTreePagesAvailable | src/Kernel/Memory/PhysicalMemTreeGen.c:307-326 | every page of every tree becomes available |
| TreeMarking.MarkUsedTreePages | src/Kernel/Memory/PhysicalMemTreeGen.c:329-367 | exactly the region's pages become unavailable, in every tree they meet |
| TreeMarking.RegionPagesMeaning | src/Kernel/Memory/PhysicalMemTreeGen.c:329-367 | the pages of a region are exactly those that one of its bytes lies on |
| TreeMarking.EntryCountsPages | src/Kernel/Memory/PhysicalMemTreeGen.c:257-266 | a tree's entry counts its pages, one block of the last level for each |
| TreeSummary.SummaryNonZero | src/Kernel/Memory/PhysicalMemTreeGen.c:385-401 | a summary is non-zero if and only if some page under the block is available |
| TreeSummary.SummaryFull | src/Kernel/Memory/PhysicalMemTreeGen.c:385-401 | a summary is 128 if and only if every page of the block's full span is available |
| TreeSummary.SummaryExact | src/Kernel/Memory/PhysicalMemTreeGen.c:385-401 | up to seven levels above the pages a summary is the exact number of 128ths |
| TreeSummary.SummaryClose | src/Kernel/Memory/PhysicalMemTreeGen.c:385-401 | at height h above seven a summary is within h - 7 of it |
| TreeSummary.InBlockMeans | src/Kernel/Memory/PhysicalMemTreeGen.c:385-401 | the pages under a block, child by child, are the 2^h consecutive pages that it spans |
| TreeSummary.CountMeans | src/Kernel/Memory/PhysicalMemTreeGen.c:385-401 | the count that the summaries are compared with is the number of available pages of the span |
| TreeAccel.FillTreeLevelAccelBlocks | src/Kernel/Memory/PhysicalMemTreeGen.c:370-410 | a level filled from the level below holds the summaries, and no other level changes |
| TreeAccel.FillTreeAccelBlocks | src/Kernel/Memory/PhysicalMemTreeGen.c:413-428 | every level of every tree holds the summaries of its pages |
| TreeAccel.IndexAgrees | src/Kernel/Memory/PhysicalMemTreeGen.c:370-428 | in a finished tree every block's byte agrees with the pages below it: non-zero, full, exact or close, and never above 128 |
| PhysicalMemStructs.MarkPhysicalMemTreeRegions | src/Kernel/Memory/PhysicalMemTreeGen.c:431-482 | the trees show as taken exactly the pages in use by the initial map's entries and the given regions |
| PhysicalMemStructs.LayoutDisjoint | src/Kernel/Memory/PhysicalMemStructsGen.c:7-33 | tree entries of 64 bytes, levels of 32, blocks and map follow one another in one buffer without overlap, less than 48 bytes being lost to alignment |
| PhysicalMemStructs.GetPhysicalMemStructsSizeData | src/Kernel/Memory/PhysicalMemStructsGen.c:7-33 | the computed layout is that of the trees and the map of the merged ranges |
| PhysicalMemStructs.CreatePhysicalMemStructs | src/Kernel/Memory/PhysicalMemStructsGen.c:36-69 | with the sizes just computed it succeeds; the trees show exactly the taken pages and the map holds the merged ranges |
| Availability.AvailableMeans | src/Kernel/Memory/PhysicalMemTreeGen.c:307-367 | a page is available if and only if it lies in some tree and is not taken |
| Availability.FreeInMap | src/Kernel/Memory/PhysicalMemTreeGen.c:431-482 | although a tree merges loader and free memory, its untaken pages are exactly those that an entry of free memory describes |
| Availability.FreeInFirmwareMap | src/Kernel/efi/InitialMemMapGenEfi.c:6-82 | the initial map calls a page free if and only if the firmware does and the map itself is not on it |
| Availability.EndToEnd | src/Kernel/Memory/PhysicalMemStructsGen.c:36-69 | after the pipeline a page is available if and only if the firmware gives it conventional or persistent memory and neither the initial map nor the structures lie on it |
| Availability.SomeTree | src/Kernel/Memory/PhysicalMemTreeGen.c:277-304 | a map that could be stored has at least one tree |
| Availability.CarvedReach | src/Kernel/efi/InitialMemMapGenEfi.c:345-395 | the finished initial map reaches no higher than the firmware's map |
| Availability.FindStructsRegion | src/Boot/x86_64-efi/UefiBoot.c:269-288 | a usable mapped region with room is found whenever there is one |
| Availability.SetUpPhysicalMemory | src/Boot/x86_64-efi/UefiBoot.c:254-302 | the whole pipeline fails only for want of memory, and otherwise leaves exact availability and the merged map |
| ScreenState.ClipRegionExact | src/Drivers/Graphics/CpuGraphicsDriver.c:294-319 | the clipped region is the visible part of the region |
| ScreenState.ClipTargetExact | src/Drivers/Graphics/CpuGraphicsDriver.c:498-530 | the clipped target is the visible part of the target |
| ScreenState.ClearedIsSeen | src/Drivers/Graphics/CpuGraphicsDriver.c:150-198 | in either framebuffer format a cleared pixel shows the colour asked for, and its reserved byte is zero |
| ScreenState.OverlaidIsSeen | src/Drivers/Graphics/CpuGraphicsDriver.c:373-482 | in either framebuffer format a drawn pixel shows the image's red, green and blue, blended with what it showed before if the image is transparent |
| ScreenState.MarkRefreshes | src/Drivers/Graphics/CpuGraphicsDriver.c:52-97 | marking keeps the pending rectangle on the screen, and covers what was pending and the new rectangle |
| ScreenState.AroundIsLeast | src/Drivers/Graphics/CpuGraphicsDriver.c:65-87 | the merged rectangle is the smallest around both |
| ScreenState.MarkIsLeast | src/Drivers/Graphics/CpuGraphicsDriver.c:52-97 | what is pending afterwards is the least rectangle around what was and the new one |
| ScreenState.RegionClearedExactlyIff | src/Drivers/Graphics/CpuGraphicsDriver.c:292-345 | a region of a list is cleared exactly if and only if the first region's size clips to the same rectangle there |
| ScreenState.SecondRegionPartlyCleared | src/Drivers/Graphics/CpuGraphicsDriver.c:296-297 | a list of two regions whose second one is not cleared completely |
| ScreenState.StepKeepsCoherence | src/Drivers/Graphics/CpuGraphicsDriver.c:52-596 | every call keeps the buffers equal outside the pending part, and a swap makes them equal |
| ScreenState.RunIsCoherent | src/Drivers/Graphics/CpuGraphicsDriver.c:52-596 | in every run, from the first full clear on, the buffers differ only in the pending part, which lies on the screen, and every swap shows the back buffer |
| CpuGraphicsDriver.ReachedNext | src/Drivers/Graphics/CpuGraphicsDriver.c:237-249 | the row and column loops reach one new slot at a time, each slot of the rectangle once |
| CpuGraphicsDriver.SourceOfPixel | src/Drivers/Graphics/CpuGraphicsDriver.c:349-447 | the image bytes read for a pixel are those at the matching offset of the unclipped rectangle, and in bounds |
| CpuGraphicsDriver.Driver.MarkScreenRegionForSwapping | src/Drivers/Graphics/CpuGraphicsDriver.c:52-97 | the pending part becomes the merged one |
| CpuGraphicsDriver.Driver.SwapBuffers | src/Drivers/Graphics/CpuGraphicsDriver.c:100-147 | exactly the pending slots are copied to the visible buffer |
| CpuGraphicsDriver.Driver.ClearScreen | src/Drivers/Graphics/CpuGraphicsDriver.c:150-217 | exactly the visible pixels are cleared and everything becomes pending |
| CpuGraphicsDriver.Driver.ClearScreenRegions | src/Drivers/Graphics/CpuGraphicsDriver.c:220-345 | exactly the visible pixels of the regions, each with the first one's size, are cleared and marked |
| CpuGraphicsDriver.Driver.BlitImageToFramebuffer | src/Drivers/Graphics/CpuGraphicsDriver.c:349-596 | for all positions and sizes every visible pixel of the target gets the image pixel at the same offset, every other pixel is unchanged, and the clipped target is marked |
| BuiltInBitmapFont.GlyphFits | src/Kernel/BuiltInBitmapFont.c:24-42 | wherever a glyph is put, the driver reads only inside the font's image |
| BuiltInBitmapFont.EntriesInOrder | src/Kernel/BuiltInBitmapFont.c:24-26 | the table's entries follow one another like the characters, from the space on |
| GlyphPainting.GlyphPixel | src/Kernel/BuiltInBitmapFont.c:24-42 | pixel (u, v) of a character's image lands at the cursor plus bearing and (u, v), its top standing as far above the baseline as the font says |
| BuiltInBitmapFont.LookupFailsAt127 | src/Kernel/BuiltInBitmapFont.c:21-26 | character 127 is looked up at index 95, the one after the table's last |
| BuiltInBitmapFont.LookupsStayInTableIff | src/Kernel/BuiltInBitmapFont.c:45-60 | every lookup for a text stays in the table if and only if 127 is not among its characters |
| GlyphPainting.OutsideBoxes | src/Kernel/BuiltInBitmapFont.c:28-42 | drawing glyphs changes nothing outside their boxes |
| GlyphPainting.DrawingShows | src/Shell.c:350-353 | drawing one more glyph on what a list of glyphs shows gives what the longer list shows |
| GlyphPainting.ErasingClears | src/Shell.c:222-231 | clearing a glyph's box removes the last trace that only this glyph left |
| GlyphPainting.DrawGlyph | src/Kernel/BuiltInBitmapFont.c:6-43 | a printable character is blitted into its box, any other draws nothing |
| TextLayout.LaidLags | src/Shell.c:246-266 | greedy wrapping is monotone: starting further left or on an earlier line never ends further on |
| LineGeometry.GlyphPlaced | src/Shell.c:318-355 | a glyph is on the row of its line, beside the characters before it on that line, and within the console's width unless its character is wider than that |
| LineGeometry.LineBrokenIff | src/Shell.c:318-355 | a line ends if and only if a new-line character ends it or the next character does not fit beside it |
| LineGeometry.EveryGlyph | src/Shell.c:318-355 | the glyphs are those of the characters that are no new lines, one each |
| LineGeometry.FittingIsOnPage | src/Shell.c:240-356 | every glyph of a text that fits is within the width and on one of the lines |
| LineGeometry.OneBaseline | src/Kernel/BuiltInBitmapFont.c:28-30 | the glyphs of one line stand on one baseline |
| TextLayout.ScrolledFits | src/Shell.c:240-306 | dropping the overflowing lines leaves a text that needs at most one line break less than there are lines, although its layout starts afresh |
| TextLayout.FittingIsWhole | src/Shell.c:318-355 | a text that fits is laid out to its end |
| TextLayout.ScrollDropsExactlyIff | src/Shell.c:279-305 | scrolling drops all characters of the overflowing lines, and nothing else if and only if the last of those lines ends with a new-line character; otherwise also the character wrapped to the next line |
| TextLayout.ScrollDropsKeptLetter | src/Shell.c:297-305 | a text of which scrolling drops a letter of the line that stays |
| TextLayout.EmptiedIff | src/Shell.c:268-305 | scrolling empties a window if and only if it was empty, or there is one line and the last character completes one |
| RingText.Put | src/Shell.c:88-109 | writing a character keeps the last 65535 characters |
| RingText.Shorten | src/Shell.c:183-189 | moving the end back drops the last character |
| Shell.RingPut | src/Shell.c:88-109 | writing a character keeps the window a final part of the text |
| DisplayRuns.RunStaysValid | src/Shell.c:83-577 | in every run of printing, deleting from a window that is not empty, flushing and clearing, the window stays the last part of the text; after each flush it is what is shown, fits, and is empty only if it was or there is one line, just completed |
| DisplayRuns.RunKeepsLastPrinted | src/Shell.c:83-178 | a run that prints and flushes keeps the last 65535 characters of all that was printed |
| DisplayRuns.EmptyWindowReached | src/Shell.c:181-190 | a run after which there is a text but the window is empty |
| Shell.Shell.ValidView | src/Shell.c:83-110 | a valid ring is a valid display in the sense of the runs |
| Shell.Shell.constructor | src/Shell.c:32-75 | a cleared screen, shown, and no text |
| Shell.Shell.PutChar | src/Shell.c:83-110 | text and window each gain the character and keep their last 65535; a null character is ignored |
| Shell.Shell.Puts | src/Shell.c:112-178 | the same for a whole message |
| Shell.Shell.DeleteLastDisplayChar | src/Shell.c:181-190 | the last character goes; the window stays valid if and only if it was not empty or there was no text |
| Shell.Shell.GetNumOverflowLines | src/Shell.c:240-271 | the number of lines that the window needs beyond those there are |
| Shell.Shell.ScrollDisplay | src/Shell.c:273-306 | the window loses exactly the characters up to where so many lines are complete |
| Shell.Shell.ResetText | src/Shell.c:192-238 | laying the recorded text out again finds every glyph on the screen: afterwards every visible pixel is background |
| Shell.Shell.SetText | src/Shell.c:308-356 | the text is recorded and drawn up to where the display is full, no glyph across the right edge; cursor and line are those of the layout |
| Shell.Shell.FlushStdOut | src/Shell.c:466-479 | the whole window is laid out within the lines there are and no glyph across the right edge, the visible screen is what drawing it on a cleared screen gives, and the text is unchanged |
| Shell.Shell.Clear | src/Shell.c:560-577 | no text, and a back buffer that is all background |
| ScanCodes.FirstByteDecides | src/Drivers/Keyboard/PS2KeyboardDriver.c:283-323 | in a table without double uses the driver's order of search finds the only possible reading of a byte |
| ScanCodes.FeedDecodesExactlyCodes | src/Drivers/Keyboard/PS2KeyboardDriver.c:277-360 | feeding bytes to a table reports a key if and only if they are a code of that key |
| ScanCodes.CodesArePrefixFree | include/DexprOS/Drivers/Keyboard/PS2KeyboardScanCodes.h:24-44 | in a table without double uses no code is a proper beginning of another, and none encodes two keys |
| ScanCodes.DecodingUndoesEncoding | src/Drivers/Keyboard/PS2KeyboardDriver.c:277-360 | any list of strokes decodes to exactly that list of keys and ends at the root table |
| ScanCodes.ReportedKeysWereSent | src/Drivers/Keyboard/PS2KeyboardDriver.c:605-663 | on any byte stream, a reported key's code is what the stream's last bytes spell |
| KeyboardCommands.RunHistory | src/Drivers/Keyboard/PS2KeyboardDriver.c:146-201 | in every run the transmissions are the accepted commands in order, each sent one to four times, and the queue holds the accepted commands not yet finished |
| KeyboardCommands.ResponseProgress | src/Drivers/Keyboard/PS2KeyboardDriver.c:180-201 | every response to a waiting command shortens the queue or uses up a repeat |
| KeyboardCommands.Drains | src/Drivers/Keyboard/PS2KeyboardDriver.c:161-201 | four responses for each waiting command, less the repeats used, empty the queue |
| KeyboardCommands.RepeatsNeedTheBudget | src/Drivers/Keyboard/PS2KeyboardDriver.c:186-201 | when every response asks for a repeat, no fewer do |
| KeyboardCommands.PushAcceptedIff | src/Drivers/Keyboard/PS2KeyboardDriver.c:146-159 | a command is accepted unless sixteen wait, and goes out at once if and only if none does |
| KeyboardCommands.DeviceUnderstands | src/Drivers/Keyboard/PS2KeyboardDriver.c:106-143 | a device that reads a data byte after the codes that ask for one recovers the commands from the bytes |
| KeyStates.NoKeyChangesNothing | src/Drivers/Keyboard/PS2KeyboardDriver.c:454-472 | a part of a code, passed on as no key, changes no key, modifier or lock |
| KeyStates.DownIffPressedLast | src/Drivers/Keyboard/PS2KeyboardDriver.c:454-472 | after any run a key is down if and only if it was pressed when last heard of, or never heard of and down before |
| KeyStates.ModifiersAlwaysAgree | src/Drivers/Keyboard/PS2KeyboardDriver.c:454-518 | in every run each modifier says whether one of its keys is down, and a lock counts as just switched on only while it is on and its key is down |
| KeyStates.HeldIsOn | src/Drivers/Keyboard/PS2KeyboardDriver.c:363-391 | while the key of a lock is held, for any number of repeats, the lock is on |
| KeyStates.PressAndReleaseSwitches | src/Drivers/Keyboard/PS2KeyboardDriver.c:363-451 | pressing the key of a lock, holding it for any number of repeats and releasing it switches the lock over once |
| KeyStates.LedsTellLocks | src/Drivers/Keyboard/PS2KeyboardDriver.c:203-214 | the lights' data byte tells exactly which locks are on |
| KeyStates.LedBitsShow | src/Drivers/Keyboard/PS2KeyboardDriver.c:42-44 | bit 0 of the lights' data byte is Scroll Lock, bit 1 Num Lock, bit 2 Caps Lock, and no other is set |
| IndicatorLights.LightsFollowLocks | src/Drivers/Keyboard/PS2KeyboardDriver.c:203-214 | in every run the last lights command pushed shows exactly the locks that are then on |
| IndicatorLights.AcceptedLightsShowLocks | src/Drivers/Keyboard/PS2KeyboardDriver.c:146-214 | while no command finds the queue full, the last lights command accepted shows exactly the locks that are then on |
| IndicatorLights.LightSwitchesOver | src/Drivers/Keyboard/PS2KeyboardDriver.c:363-451 | pressing, holding and releasing the key of a lock switches its light over, amid any responses |
| IndicatorLights.LightsSentIff | src/Drivers/Keyboard/PS2KeyboardDriver.c:474-518 | a key sends the lights if and only if it changes a lock |
| IndicatorLights.ResetByte | src/Drivers/Keyboard/PS2KeyboardDriver.c:256 | the reset is the single byte 0xFF |
| IndicatorLights.SetUpBytes | src/Drivers/Keyboard/PS2KeyboardDriver.c:217-224 | the bytes that set the keyboard up after a self-test, and none for other responses |
| IndicatorLights.KeyboardUnderstands | src/Drivers/Keyboard/PS2KeyboardDriver.c:106-143 | in every run the keyboard understands from the port exactly the commands sent |
| PS2KeyboardDriver.QueueSeesAnswers | src/Drivers/Keyboard/PS2KeyboardDriver.c:605-675 | whatever bytes arrive, the queue sees every acknowledgement and request to repeat, in order, among the commands pushed for start-up and lights |
| PS2KeyboardDriver.KeysSeeScanBytes | src/Drivers/Keyboard/PS2KeyboardDriver.c:605-675 | the decoder, the keys passed on and the key states depend only on the bytes that are no responses |
| PS2KeyboardDriver.KeysComeThrough | src/Drivers/Keyboard/PS2KeyboardDriver.c:605-675 | from any state between codes, strokes whose codes avoid the response bytes come through exactly amid any responses, leave pressed and locked what they should, and the queue's history, lights included, stays in order |
| PS2KeyboardDriver.TypedFromTheStart | src/Drivers/Keyboard/PS2KeyboardDriver.c:228-257 | the same from the state that initialisation leaves, for strokes with no response in between |
| PS2KeyboardDriver.Driver.constructor | src/Drivers/Keyboard/PS2KeyboardDriver.c:228-257 | the decoder is at the root, no key is down, no lock is on, and the reset command is sent |
| PS2KeyboardDriver.Driver.ExecuteCommand | src/Drivers/Keyboard/PS2KeyboardDriver.c:106-143 | the first command goes out, with its data byte if it takes one, and a response is awaited |
| PS2KeyboardDriver.Driver.PushCommand | src/Drivers/Keyboard/PS2KeyboardDriver.c:146-159 | a command is queued unless the queue is full, and sent at once if the queue was empty |
| PS2KeyboardDriver.Driver.NextCommand | src/Drivers/Keyboard/PS2KeyboardDriver.c:161-177 | the first command is dropped and the next one sent; the driver is idle if and only if none is left |
| PS2KeyboardDriver.Driver.OnCommandAcknowledged | src/Drivers/Keyboard/PS2KeyboardDriver.c:180-184 | an acknowledgement finishes the waiting command, if there is one |
| PS2KeyboardDriver.Driver.ResendCommand | src/Drivers/Keyboard/PS2KeyboardDriver.c:186-201 | the waiting command is sent again at most three times, then dropped |
| PS2KeyboardDriver.Driver.InitialiseKeyboard | src/Drivers/Keyboard/PS2KeyboardDriver.c:217-224 | the four set-up commands are pushed, the last with the lights of the locks |
| PS2KeyboardDriver.Driver.UpdateIndicatorLeds | src/Drivers/Keyboard/PS2KeyboardDriver.c:203-214 | the command that sets the lights is pushed with the bits of the active locks |
| PS2KeyboardDriver.Driver.SwitchLock | src/Drivers/Keyboard/PS2KeyboardDriver.c:363-451 | a lock goes on at a press and off at the release of a later one |
| PS2KeyboardDriver.Driver.UpdateKeyState | src/Drivers/Keyboard/PS2KeyboardDriver.c:454-472 | exactly the key's own state follows its action |
| PS2KeyboardDriver.Driver.UpdateModifierState | src/Drivers/Keyboard/PS2KeyboardDriver.c:474-518 | modifiers and locks follow the key, and the lights are sent if and only if they change |
| PS2KeyboardDriver.Driver.ProcessCodeByLookup | src/Drivers/Keyboard/PS2KeyboardDriver.c:277-331 | the search through extensions, sequences and table entries gives the specified outcome and next state |
| PS2KeyboardDriver.Driver.ProcessByteSequenceCode | src/Drivers/Keyboard/PS2KeyboardDriver.c:333-360 | so does the next byte of a sequence, whose index is always in bounds |
| PS2KeyboardDriver.Driver.ProcessInterrupt | src/Drivers/Keyboard/PS2KeyboardDriver.c:605-667 | one interrupt is one step of the modelled keyboard: decoding, keys, locks and queue |
| MemoryRoutines.EightFoldSum | src/Kernel/kstdlib/string.c:40-44 | or-ing the eight shifted copies of the byte gives their sum |
| MemoryRoutines.EightFoldBytes | src/Kernel/kstdlib/string.c:40-44 | each of the eight bytes of the word that memset stores is the given byte |
| MemoryRoutines.WordsDifferIff | src/Kernel/kstdlib/string.c:358-373 | words differ if and only if some of their bytes do |
| MemoryRoutines.MemSet | src/Kernel/kstdlib/string.c:6-69 | exactly the given bytes are set, whatever the alignment |
| MemoryRoutines.MemCpy | src/Kernel/kstdlib/string.c:72-196 | exactly the given bytes are copied, as they were before, whatever the alignments |
| MemoryRoutines.CopyWords | src/Kernel/kstdlib/string.c:108-114 | words are copied right even where source and destination overlap, the destination being lower |
| MemoryRoutines.WordsAlignedIff | src/Kernel/kstdlib/string.c:17-31 | the words that follow the first bytes are aligned if and only if the address is a multiple of half a word |
| MemoryRoutines.ComparedIsOrder | src/Kernel/kstdlib/string.c:332-480 | the comparison is zero if and only if the bytes are equal, and changes sign with the sides |
| MemoryRoutines.NegativeIff | src/Kernel/kstdlib/string.c:332-480 | the comparison is negative if and only if the left side's first differing byte is the smaller one, and is the difference of those two bytes |
| MemoryRoutines.MemCmp | src/Kernel/kstdlib/string.c:332-480 | the result is the difference of the first bytes that differ, or zero |

## Left out

- 64-bit and 32-bit wrap-around, but for the scans of the firmware's map and the levels of a tree (see above):
  addresses and sizes are otherwise unbounded integers. That ranges end below 2^64, at
  most at 2^62 for trees and at 2^52 for mapped pages, and that screen coordinates, sizes and image offsets
  stay within 32 bits, are hypotheses; see above for what happens beyond.
- PageMapSizing.CalculatePageMapSize: asks that the regions do not overlap, because the scan then skips part of
  one (`OverlapExample`), and that the scan ends at all; the building pass asks for neither.
- PageMapSetup.SizeAndSetup: asks for the same, as it runs the sizing pass first.
- PageMapSetup.CreatePageMap: asks for the same.
- MemoryRoutines.MemCpy: asks that the destination does not begin inside the source; such copies are handed
  to `memmove` (`src/Kernel/kstdlib/string.c:88-93`), which is not part of this model.
- PhysicalMemTree.CreatePhysicalMemTree: stated for the sizes just computed, which is how its only caller uses it.
  With too few level structures the source notes the failure and fills them all the same, past the end of their
  array (`src/Kernel/Memory/PhysicalMemTreeGen.c:269-273`).
- PhysicalMemStructs.CreatePhysicalMemStructs: likewise, and for at least one tree of whole pages; `SomeTree` and
  `MapTreesWhole` show that the pipeline provides them.
- Descriptors that are not aligned to pages, in the availability result: the UEFI Specification aligns them.
- A change of the firmware's map between building the page maps and storing the first memory map: the results
  about memory that the page maps translate (`PageMapTranslation`) speak of one map.
- Blending of images with transparency: an arbitrary function of source, alpha and destination byte, since the
  rounding of floating-point numbers is not the point.
- Firmware calls and jumps in `EndBootPhase.c` and the rest of `UefiBoot.c`, descriptor tables, the task-state
  segment, processor detection: no algorithm to speak of.
- Ports and waiting loops: writing to the keyboard's port appends to a list of bytes.
- What is made of the keys passed on: the key event for the shell and the conversion of keys to characters
  (`src/Drivers/Keyboard/PS2KeyboardDriver.c:521-602`, `669-674`).
- The shell's commands and its prompt (`src/Shell.c:359-464`, `482-558`): only the display is modelled.
- The static tables (keyboard layout, scan codes, font metrics): parameters, with a prefix-free tree of codes
  and advances that are not negative.
- The raw bytes of map entries and tree structures in their buffer: entries are values in typed arrays, whose
  byte offsets `LayoutDisjoint` relates.
