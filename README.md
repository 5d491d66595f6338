# Rite kernel core: frames, page tables and the VGA writer

This project models, in Dafny, two parts of the Rite x86-64 hobby kernel and
proves properties of the model:

- the memory core:
  - physical frames;
  - the bump frame allocator (`AreaFrameAllocator`) over the boot loader's memory areas;
  - page-table entries and their flag bits;
  - the four-level page tables with `create_next_table`;
  - the active page table's `translate`, `map_to`, `map`, `identitiy_map` and `unmap`;
  - the temporary page with its three-frame `TinyAllocator`;
- the VGA text writer: `write_byte`, `new_line`, `scroll`, `clear_row`,
  `clear_screen`, `write_str` and the colour byte.

Each component that the kernel changes in place appears twice:

- A value (`datatype`) with functions. The lemmas are stated about these values.
- A `class` whose fields the methods update. Each method's postcondition says
  the new state equals the function applied to the old state
  (`State() == old(State().Op(..))`).

The frame allocator interface (`trait FrameAllocator`) is the datatype
`Allocators.Allocator`, with one variant per implementation. The class
`Allocators.FrameAllocator` wraps either allocator object and stands for
`&mut A`.

Every way the kernel halts is a `Fault` in an `Outcomes.Result`:

- an `assert!`;
- a `panic!`;
- `unimplemented!()`;
- an `unwrap()` of `None`;
- an out-of-bounds index.

The error paths are modelled rather than excluded by preconditions.

Machine words are naturals below 2^64. Where `usize` arithmetic can overflow,
the model wraps it modulo 2^64, as a release build does.

Physical memory is a map from frames to tables. A frame missing from the map
reads as a zero table.

A frame is "fresh" for an allocator when the allocator can still hand it out
and no table uses it yet. The round-trip lemmas for `map_to` require that the
allocator only hands out such frames (`PageTables.Fresh`). The source relies
on this without checking it. If a frame that is still in use comes back, one
table overwrites another, and `create_next_table` can then reach its final
`unwrap()` on `None`. The model keeps that path.

Points where the code does something other than what one might expect; the
model follows the code:

- The ends of the kernel and multiboot2 ranges are inclusive frames. With the
  kernel at 0x10000..=0x20000, the multiboot2 information at
  0x20000..=0x21000 and one area starting at address 0, the first allocated
  frame is frame 0, because the area starts below the kernel
  (`AreaAlloc.FirstFrameBelowKernel`); it is not the frame at 0x21000, the end
  of the multiboot2 range. That frame is never handed out, since the end is
  inclusive: with the area starting at the kernel, frame 0x22 comes first
  (`AreaAlloc.FirstFrameAfterReserved`).
- `Entry::frame()` is `Some` exactly when PRESENT is set, whatever the address
  bits are.
- `BUFFER_WIDTH` is 25 and `BUFFER_HEIGHT` is 80, as declared. The buffer is
  indexed `chars[row][col]`.

## Model

| member | source | states |
|---|---|---|
| Frames.FrameForAddress | src/memory/mod.rs:23-25 | the frame returned is the one holding `addr`: `index * 4096 <= addr < index * 4096 + 4096`, and its index is below 2^52 |
| Frames.FrameForAddressMonotone | src/memory/mod.rs:23-25 | ordering frames by index agrees with ordering the addresses they come from |
| Frames.StartAddressRoundTrip | src/memory/mod.rs:23-25 | below 2^52 the start address does not wrap, and `get_frame_for_address` of the start address gives back the frame |
| Frames.StartAddress | src/memory/paging/entry.rs:50-51 | `get_start_address`, `index * PAGE_SIZE` wrapped to 64 bits; no contract of its own: `StartAddressRoundTrip` states that below 2^52 it does not wrap and leads back to the frame, and `SetFlagsAccepts` when it fits the address field |
| AreaAlloc.LowestReaching | src/memory/area_alloc.rs:97-103 | the `filter(..).min_by_key(base_addr)` choice: None exactly when no area reaches the cursor; otherwise an area that reaches it, with the smallest base, and the first such area |
| AreaAlloc.MemoryArea.StartFrame | src/memory/area_alloc.rs:106 | the frame holding `base_addr`; no contract of its own: `FrameForAddress` states that the frame holds that address, and `AreaState.FindFreeArea` that the cursor is raised to it |
| AreaAlloc.MemoryArea.LastFrame | src/memory/area_alloc.rs:42-45 | the frame holding `base_addr + length - 1`, wrapped to 64 bits; no contract of its own: `AreaState.AllocFrame` states that every frame it returns is at most this one |
| AreaAlloc.AreaState.FindFreeArea | src/memory/area_alloc.rs:96-113 | the chosen area is the lowest-based one reaching the cursor (None when none does); the cursor becomes the larger of itself and the area's start frame; the rest is unchanged, and validity is kept |
| AreaAlloc.AreaState.AllocFrame | src/memory/area_alloc.rs:31-65 | a returned frame is at or past the cursor, inside the current area and outside both reserved ranges, and the cursor ends one past it; None leaves no current area; an exhausted allocator is unchanged; terminates |
| AreaAlloc.AreaState.DeallocFrame | src/memory/area_alloc.rs:68-70 | always halts with `Unimplemented` |
| AreaAlloc.AreaState.AllocMany | src/memory/area_alloc.rs:31-65 | `n` calls of `alloc_frame` return at most `n` frames; the cursor never moves back and the reserved ranges stay the same |
| AreaAlloc.NewAreaState | src/memory/area_alloc.rs:76-93 | `new` converts the four addresses to frames and picks the lowest-based area; the cursor is at its start; the allocator starts exhausted exactly when there are no areas |
| AreaAlloc.AllocManyIncreasing | src/memory/area_alloc.rs:31-65 | successive allocations are strictly increasing and never reserved, all between the first and the final cursor |
| AreaAlloc.AllocManyBounds | src/memory/area_alloc.rs:31-65 | every frame that successive calls return is unreserved and lies between the cursor before the first call and the cursor after the last |
| AreaAlloc.ExhaustedStaysExhausted | src/memory/area_alloc.rs:33-35 | with no current area, `alloc_frame` returns None and changes nothing, here and on the next call |
| AreaAlloc.FirstFrameBelowKernel | src/memory/area_alloc.rs:39-61 | one area `[0, 0x100000)`, kernel `0x10000..=0x20000`, multiboot2 `0x20000..=0x21000`: the first frame is frame 0 |
| AreaAlloc.FirstFrameAfterReserved | src/memory/area_alloc.rs:52-57 | with the area starting at the kernel, the kernel frames and then the multiboot2 frames are skipped, and frame 0x22 comes first |
| AreaAlloc.AreaFrameAllocator.constructor | src/memory/area_alloc.rs:76-93 | the new object's fields are `NewAreaState` of the arguments |
| AreaAlloc.AreaFrameAllocator.FindFreeArea | src/memory/area_alloc.rs:96-113 | the new fields are `FindFreeArea` of the old ones |
| AreaAlloc.AreaFrameAllocator.AllocFrame | src/memory/area_alloc.rs:31-65 | the recursive method returns the frame, and leaves the fields, that `AllocFrame` of the old fields gives |
| AreaAlloc.AreaFrameAllocator.DeallocFrame | src/memory/area_alloc.rs:68-70 | always halts with `Unimplemented` |
| TinyAlloc.FirstOccupied | src/memory/paging/temp_page.rs:11-13 | the position of the first `Some` slot, every slot before it empty |
| TinyAlloc.FirstEmpty | src/memory/paging/temp_page.rs:21-23 | the position of the first `None` slot, every slot before it occupied |
| TinyAlloc.TinyPool.AllocFrame | src/memory/paging/temp_page.rs:10-17 | None exactly when all slots are empty; otherwise the frame of the first occupied slot, which is emptied, the other slots unchanged |
| TinyAlloc.TinyPool.DeallocFrame | src/memory/paging/temp_page.rs:20-28 | halts with `PoolFull` exactly when all three slots are occupied; otherwise the frame goes into the first empty slot and nothing else changes |
| TinyAlloc.AllocTakesHeldFrame | src/memory/paging/temp_page.rs:10-17 | the pool's multiset of frames loses exactly the frame handed out; an empty result means the pool held nothing |
| TinyAlloc.DeallocAddsFrame | src/memory/paging/temp_page.rs:20-28 | a successful `dealloc_frame` adds exactly the given frame to the pool's multiset |
| TinyAlloc.SeededPoolOrder | src/memory/paging/temp_page.rs:10-28 | a pool seeded with A, B, C hands out A, B, C, then None; a full pool panics on `dealloc_frame` |
| TinyAlloc.TinyAllocator.constructor | src/memory/paging/temp_page.rs:39 | the slot array holds the given frames |
| TinyAlloc.TinyAllocator.AllocFrame | src/memory/paging/temp_page.rs:10-17 | the `take()` loop over the slot array does what `TinyPool.AllocFrame` says |
| TinyAlloc.TinyAllocator.DeallocFrame | src/memory/paging/temp_page.rs:20-28 | the loop that fills the first empty slot, or reports `PoolFull`, does what `TinyPool.DeallocFrame` says |
| Allocators.Allocator.AllocFrame | src/memory/mod.rs:31 | either allocator hands out only frames it could hand out before, and never one it still holds when its frames are distinct; it stays the same kind of allocator, and a pool only shrinks |
| Allocators.Allocator.DeallocFrame | src/memory/mod.rs:34 | the bump allocator always halts; the pool halts exactly when full, and otherwise gains the frame |
| Allocators.Allocator.Drawn | src/memory/mod.rs:31 | after `k` calls of `alloc_frame` the allocator can hand out only frames it could before, and a pool only shrinks |
| Allocators.DrawnSteps | src/memory/mod.rs:31 | one, two and three draws are that many `alloc_frame` calls, one after the other |
| Allocators.NewPool | src/memory/paging/temp_page.rs:34-40 | `TinyAllocator::new` makes three upstream calls and stores their results in order; the upstream allocator ends as after three calls |
| Allocators.PoolFromBumpAllocator | src/memory/paging/temp_page.rs:34-40 | a pool filled from the bump allocator holds strictly increasing frames at or past its cursor, with every empty slot after the occupied ones, so no frame twice |
| Allocators.FrameAllocator.OverArea | src/memory/mod.rs:29-35 | the `&mut A` over a bump allocator object has that object's state |
| Allocators.FrameAllocator.OverPool | src/memory/mod.rs:29-35 | the `&mut A` over a pool object has that object's state |
| Allocators.FrameAllocator.AllocFrame | src/memory/mod.rs:31 | dispatches to the wrapped object, with the effect `Allocator.AllocFrame` states |
| Allocators.FrameAllocator.DeallocFrame | src/memory/mod.rs:34 | dispatches to the wrapped object, with the effect or the fault `Allocator.DeallocFrame` states |
| Allocators.NewTinyAllocator | src/memory/paging/temp_page.rs:34-40 | three upstream `alloc_frame` calls fill a fresh slot array in order, as `NewPool` says |
| Entries.EntryFlags.Bits | src/memory/paging/entry.rs:4-17 | `bits()` sets only declared flag bits: nothing in bits 9-62 |
| Entries.Entry.MarkUnused | src/memory/paging/entry.rs:30-32 | the entry left behind is unused |
| Entries.Entry.IsUnused | src/memory/paging/entry.rs:25-27 | the raw word is zero; no contract of its own: `MarkUnused` states that it holds after `mark_unused`, and `UnusedEntryIsAbsent` that such an entry has no flags and no frame |
| Entries.FromBitsTruncate | src/memory/paging/entry.rs:35-37 | `from_bits_truncate`, one field per declared bit; no contract of its own: `FlagsIgnoreUndefinedBits` states that bits 9-62 do not matter, and `SetFlagsReadBack` that it reads back the flags `bits()` wrote |
| Entries.Entry.Flags | src/memory/paging/entry.rs:35-37 | `flags()`, `from_bits_truncate` of the raw word; no contract of its own: `SetFlagsReadBack` states that it gives back the flags `set_flags` wrote, and `UnusedEntryIsAbsent` that an unused entry has none |
| Entries.Entry.TargetFrame | src/memory/paging/entry.rs:40-46 | `frame()` is Some exactly when PRESENT is set, and then its start address is the masked address field |
| Entries.SetFlags | src/memory/paging/entry.rs:49-52 | halts (`FrameNotEncodable`) exactly when the frame's start address has bits outside `0x000f_ffff_ffff_f000` |
| Entries.SetFlagsAccepts | src/memory/paging/entry.rs:50 | for a frame below 2^52, the assertion passes exactly for frames below 2^40 |
| Entries.SetFlagsReadBack | src/memory/paging/entry.rs:35-52 | `flags()` after `set_flags` gives back exactly the flags written; `frame()` is the frame of the start address written when PRESENT was given, None otherwise |
| Entries.SetFlagsRoundTrip | src/memory/paging/entry.rs:40-52 | for a frame below 2^52, `frame()` after `set_flags` with PRESENT is that very frame |
| Entries.FlagsIgnoreUndefinedBits | src/memory/paging/entry.rs:35-37 | `from_bits_truncate` ignores bits 9-62: words that agree elsewhere have the same flags |
| Entries.UnusedEntryIsAbsent | src/memory/paging/entry.rs:25-46 | an unused entry has no flags and no frame |
| PageTables.ZeroTable | src/memory/paging/table.rs:104-108 | every entry of a zero-filled table is zero |
| PageTables.Level.NextLevel | src/memory/paging/table.rs:45-67 | levels 4, 3 and 2 have a next level one deeper; level 1 has none, so `Paging.PageTable.Walk` looks up no child there |
| PageTables.NextTableAddress | src/memory/paging/table.rs:132-140 | Some exactly when the entry is present and not huge; the address is page-aligned and its page number ends in the slot index |
| PageTables.ShiftedTableAddress | src/memory/paging/table.rs:136 | for a page-aligned table address, the wrapped shift has bits 0-20 clear and the shifted index lies below 2^21; their sum does not overflow, and the low nine bits of its page number are the index |
| PageTables.OrOfDisjointShifts | src/memory/paging/table.rs:136 | on 64-bit words, `(table_addr << 9) \| (index << 12)` equals `(table_addr << 9) + (index << 12)` when the address is page-aligned and the index is below 512 |
| PageTables.SelfMapFixedPoint | src/memory/paging/table.rs:132-140 | slot 511 of the table at `LEVEL4_TABLE` (0xffff_ffff_ffff_f000) leads back to `LEVEL4_TABLE` |
| PageTables.Memory.Write | src/memory/paging/table.rs:91-97 | writing one entry through `IndexMut` changes that entry and no other entry of any table |
| PageTables.Memory.Read | src/memory/paging/table.rs:81-88 | `Index` of the table a frame holds; no contract of its own: `Memory.Write` states what a read after a store gives, and `Memory.ZeroFill` that a zero-filled table reads as unused entries |
| PageTables.Memory.ZeroFill | src/memory/paging/table.rs:104-108 | afterwards every entry of the table is unused, and every other table is unchanged |
| PageTables.Memory.NextTable | src/memory/paging/table.rs:143-145 | a child table exists exactly when the entry is present and not huge, and it is the entry's frame |
| PageTables.Memory.CreateNextTable | src/memory/paging/table.rs:116-129 | an existing child is returned and nothing changes; a huge entry halts (`HugePageEntry`); an empty allocator halts (`NoneUnwrapped`); on success the entry leads to the returned child |
| PageTables.Memory.NewTable | src/memory/paging/table.rs:122-127 | a new child takes the frame `alloc_frame` returned; the entry is PRESENT \| WRITABLE; the child is zero-filled; every other entry and table is unchanged |
| PageTables.CreateKeepsFresh | src/memory/paging/table.rs:116-129 | with a fresh allocator the allocator stays fresh, the child is in use, the allocator is unchanged or has made exactly one allocation, and every link from a table in use stays as it was |
| PageTables.NewTableKeepsFresh | src/memory/paging/table.rs:119-127 | when a child is created, the allocator after the allocation is still fresh for the new memory |
| PageTables.NewTableKeepsLinks | src/memory/paging/table.rs:119-127 | when a child is created, every link from a table in use stays as it was |
| Paging.PageAtAddress | src/memory/paging/mod.rs:116-118 | the page returned holds `addr`, and its index is below 2^52 |
| Paging.Page.Address | src/memory/paging/mod.rs:121-123 | `index * PAGE_SIZE` wrapped to 64 bits; no contract of its own: `AddressInPage` states that below 2^52 it does not wrap and `get_page_at_address` of it plus an offset gives back the page |
| Paging.Page.P4Index | src/memory/paging/mod.rs:126-128 | `(index >> 27) & 0o777`; no contract of its own: `PageIndexDecomposition` and `PageIndicesDetermine` state that with the other three it is the low 36 bits of the index, and determines them |
| Paging.Page.P3Index | src/memory/paging/mod.rs:131-133 | `(index >> 18) & 0o777`; no contract of its own: `PageIndexDecomposition` and `PageIndicesDetermine` state it, as for `P4Index` |
| Paging.Page.P2Index | src/memory/paging/mod.rs:136-138 | `(index >> 9) & 0o777`; no contract of its own: `PageIndexDecomposition` and `PageIndicesDetermine` state it, as for `P4Index` |
| Paging.Page.P1Index | src/memory/paging/mod.rs:141-143 | `index & 0o777`; no contract of its own: `PageIndexDecomposition` and `PageIndicesDetermine` state it, as for `P4Index` |
| Paging.PageIndexDecomposition | src/memory/paging/mod.rs:126-143 | the low 36 bits of the page index are the four 9-bit table indices, level 4 highest |
| Paging.PageIndicesDetermine | src/memory/paging/mod.rs:126-143 | two pages below 2^36 with the same four indices are the same page |
| Paging.AddressInPage | src/memory/paging/mod.rs:116-123 | an address `off` bytes into a page does not wrap, lies in that page, and has offset `off` |
| Paging.IdentityPage | src/memory/paging/mod.rs:83 | the page at a frame's start address has that frame's index |
| Paging.SetLeaf | src/memory/paging/mod.rs:67-68 | the level-1 entry is set only when it was unused (otherwise `EntryInUse`) and `set_flags` accepts the frame |
| Paging.PageTable.P1Table | src/memory/paging/mod.rs:92-96 | no level-1 table is reached unless the level-4 entry links to a table |
| Paging.PageTable.TranslatePage | src/memory/paging/mod.rs:51-58 | nothing translates when the walk to the level-1 table is missing or the level-4 entry is huge; a translation comes only through a present level-1 entry |
| Paging.PageTable.Walk | src/memory/paging/table.rs:45-67 | the walk by levels stops at level 1, which has no next level, with the table it stands on; at a higher level, a missing `next_table` link ends it with None |
| Paging.WalkFromLevel4 | src/memory/paging/mod.rs:51-58 | the walk by levels from the level-4 table reaches the same level-1 table as the three `next_table` calls of `translate_page` |
| Paging.HugeEntriesStopTranslation | src/memory/paging/table.rs:132-140 | a huge entry at level 4, 3 or 2 on the walk makes `translate_page` return None, because `next_table` refuses HUGE_PAGE at every level |
| Paging.LeafHugeBitIgnored | src/memory/paging/mod.rs:57 | a present level-1 entry translates to its frame even with HUGE_PAGE set, since level 1 has no `next_table` |
| Paging.PageTable.Translate | src/memory/paging/mod.rs:44-48 | Some exactly when the address's page translates; the result keeps the offset within the page |
| Paging.PageTable.CreateWalk | src/memory/paging/mod.rs:64-66 | the three `create_next_table` calls keep the allocator valid and of the same kind; a huge level-4 entry halts with `HugePageEntry` |
| Paging.PageTable.MapTo | src/memory/paging/mod.rs:61-69 | the level-4 table stays; the allocator stays valid and of the same kind; a huge level-4 entry halts |
| Paging.PageTable.Map | src/memory/paging/mod.rs:72-77 | an empty allocator halts (`NoneUnwrapped`); otherwise it is `map_to` with the frame allocated |
| Paging.PageTable.IdentityMap | src/memory/paging/mod.rs:80-85 | for a frame below 2^52 it is `map_to` of the page with the frame's own index |
| Paging.PageTable.Unmap | src/memory/paging/mod.rs:88-104 | an address that does not translate halts (`PageNotMapped`); the bump allocator makes every unmap halt; on success the level-4 table stays and the allocator is the pool |
| Paging.MapToWalk | src/memory/paging/mod.rs:64-66 | with a fresh allocator the three table creations keep it fresh and reach a level-1 table; a walk that existed is unchanged; the allocator can hand out no frame it could not before |
| Paging.MapToRoundTrip | src/memory/paging/mapper.rs:48-56 | with a fresh allocator and a frame below 2^52, after `map_to` the page translates to the frame through an entry with `flags \| PRESENT` |
| Paging.MapToKeepsFresh | src/memory/paging/mod.rs:61-69 | `map_to` of a frame the allocator cannot hand out keeps the allocator fresh |
| Paging.LeafWrite | src/memory/paging/mod.rs:67-68 | setting the unused level-1 entry keeps the walk, makes the page translate to the frame with the given flags, and keeps freshness when the frame is not the allocator's |
| Paging.MapToMappedFails | src/memory/paging/mod.rs:67 | `map_to` of a page that already translates halts with `EntryInUse` |
| Paging.MapToDrawsAtMostThree | src/memory/paging/mod.rs:64-66 | `map_to` leaves the allocator as after between zero and three calls of `alloc_frame` |
| Paging.MapRoundTrip | src/memory/paging/mapper.rs:59-64 | with a fresh allocator, `map` maps the page to the frame `alloc_frame` returned, which no table used before, and the allocator stays fresh |
| Paging.TranslateInPage | src/memory/paging/mapper.rs:31-35 | an address `off` bytes into a mapped page translates to `off` bytes into its frame |
| Paging.IdentityMapRoundTrip | src/memory/paging/mapper.rs:67-72 | after `identitiy_map` the page at the frame's start address begins at that address and translates to the frame itself |
| Paging.UnmapClears | src/memory/paging/mapper.rs:75-91 | a successful `unmap` found the page mapped, cleared exactly its level-1 entry and gave the frame back to the allocator; afterwards the page does not translate |
| Paging.ClearLeaf | src/memory/paging/mod.rs:97-98 | clearing the level-1 entry unmaps the page, even when that entry is also a link of the walk |
| Paging.UnmapMapped | src/memory/paging/mod.rs:91-103 | for a mapped page, `unmap` succeeds exactly when the allocator takes the frame back, and otherwise halts with the allocator's fault |
| Paging.MapToThenUnmap | src/memory/paging/mod.rs:61-104 | `map_to` and then `unmap` succeeds exactly when the allocator takes the frame; it leaves the page unmapped and the pool holding the frame as well |
| Paging.RecursiveMappingFindsChild | src/memory/paging/table.rs:132-140 | with the self-map in slot 511, the address `next_table_addr` computes for slot `i` of the level-4 table is in the page with indices 511, 511, 511, `i`, and that page translates to the child table's frame |
| Paging.RecursivePage | src/memory/paging/table.rs:132-140 | the page holding `0xffff_ffff_ffe0_0000 + i * 4096` is page `0xf_ffff_ffff_fe00 + i`, whose level-4, level-3 and level-2 indices are 511 and whose level-1 index is `i` |
| Paging.ActivePageTable.constructor | src/memory/paging/mod.rs:29-31 | the active table over the given level-4 frame and physical memory |
| Paging.ActivePageTable.ZeroFill | src/memory/paging/table.rs:104-108 | the `mark_unused` loop over the entries does what `Memory.ZeroFill` says |
| Paging.ActivePageTable.CreateNextTable | src/memory/paging/table.rs:116-129 | changes the tables and the allocator objects as `Memory.CreateNextTable` says, with the same child or fault |
| Paging.ActivePageTable.CreateWalk | src/memory/paging/mod.rs:64-66 | as `PageTable.CreateWalk` |
| Paging.ActivePageTable.MapTo | src/memory/paging/mod.rs:61-69 | as `PageTable.MapTo`, with the same fault |
| Paging.ActivePageTable.Map | src/memory/paging/mod.rs:72-77 | as `PageTable.Map`, with the same fault |
| Paging.ActivePageTable.IdentityMap | src/memory/paging/mod.rs:80-85 | as `PageTable.IdentityMap`, with the same fault |
| Paging.ActivePageTable.Unmap | src/memory/paging/mod.rs:88-104 | as `PageTable.Unmap`, with the same fault |
| TemporaryPages.TempPage.Map | src/memory/paging/temp_page.rs:64-69 | a page that already translates halts (`AlreadyMapped`); otherwise it maps through the pool, returns the page's address, and the pool only shrinks |
| TemporaryPages.TempPage.Unmap | src/memory/paging/temp_page.rs:72-74 | `unmap` with the pool as allocator; the page and the level-4 table stay |
| TemporaryPages.NewTempPage | src/memory/paging/temp_page.rs:55-62 | the pool holds the results of three upstream calls, in order, and the upstream allocator ends as after three calls |
| TemporaryPages.TempMapRoundTrip | src/memory/paging/temp_page.rs:64-69 | with a fresh pool, after `map` the page translates to the frame through an entry with PRESENT \| WRITABLE |
| TemporaryPages.TempMapThenUnmap | src/memory/paging/temp_page.rs:64-74 | after `map`, `unmap` halts (`PoolFull`) exactly when the pool is full; otherwise the page is unmapped and the pool holds the frame as well |
| TemporaryPages.TempUnmapMapped | src/memory/paging/temp_page.rs:72-74 | `unmap` of a mapped page halts (`PoolFull`) exactly when the pool is full; otherwise the page is unmapped and the pool gains its frame |
| TemporaryPages.TemporaryPage.constructor | src/memory/paging/temp_page.rs:55-62 | the object over a fresh pool, with the state `NewTempPage` gives |
| TemporaryPages.TemporaryPage.Map | src/memory/paging/temp_page.rs:64-69 | as `TempPage.Map`: the same address, new state or fault |
| TemporaryPages.TemporaryPage.Unmap | src/memory/paging/temp_page.rs:72-74 | as `TempPage.Unmap`: the same new state or fault |
| Vga.HalfColor.Code | src/vga.rs:37-56 | every discriminant fits in four bits |
| Vga.NewColor | src/vga.rs:65-67 | the high nibble of the colour byte is the background, the low nibble the foreground |
| Vga.ColorDetermines | src/vga.rs:65-67 | a colour byte determines both half colours |
| Vga.Screen.Scroll | src/vga.rs:189-194 | every row but the last takes the old contents of the row below it; the last row keeps its contents |
| Vga.Screen.ClearRow | src/vga.rs:198-204 | the row becomes blanks in the current colour and no other row changes; a row past the buffer is an out-of-bounds index |
| Vga.RowOf | src/vga.rs:203 | `[blank; BUFFER_WIDTH]`: a row of `BUFFER_WIDTH` copies of the given cell |
| Vga.Screen.Put | src/vga.rs:135-147 | `chars[row][col] = ch`: that cell becomes `ch`, every other cell, the cursor and the colour stay, and the buffer keeps its shape |
| Vga.Screen.NewLine | src/vga.rs:177-185 | the column becomes 0; above the last row the cursor moves down and nothing else changes; on the last row the screen scrolls, the last row is blanked and the row stays |
| Vga.Screen.WriteByte | src/vga.rs:117-154 | the buffer keeps its shape and the colour stays |
| Vga.Screen.WriteAll | src/vga.rs:105-110 | the buffer keeps its shape and the colour stays |
| Vga.Screen.ClearScreen | src/vga.rs:160-173 | every cell is a blank in the current colour and the cursor is at (0, 0) |
| Vga.WriteByteKeepsCursor | src/vga.rs:117-154 | from a cursor with `row < BUFFER_HEIGHT` and `col <= BUFFER_WIDTH`, every byte that does not halt keeps the cursor there; the only halts are `'\t'`, which halts with `ConsoleDeadlock`, and a backspace at `col == BUFFER_WIDTH`, an `IndexOutOfBounds`; `'\n'` is exactly `new_line` |
| Vga.CarriageReturnOnlyMovesCursor | src/vga.rs:120 | `'\r'` sets the column to 0 and changes nothing else |
| Vga.PrintableWritesAtCursor | src/vga.rs:143-152 | a printable byte goes to the cursor, after a new line when the column is past the end; the column advances by one; no other cell changes beyond the new line's |
| Vga.BackspaceCases | src/vga.rs:126-142 | at (0, 0) nothing changes; at column 0 the cursor's cell is blanked and the cursor moves to the end of the row above; otherwise the cell is blanked and the column decreases by one |
| Vga.WriteRun | src/vga.rs:143-152 | a run of printable bytes that fits in the rest of the row lands in consecutive cells from the cursor; the cursor ends just after the run and no other cell changes |
| Vga.WriteAllStopsAtFault | src/vga.rs:105-110 | once a prefix of the string halts, the whole `write_str` halts with the same fault |
| Vga.FullRowThenBackspace | src/vga.rs:139 | a full row of printable bytes written from column 0, then a backspace, indexes out of bounds |
| Vga.Writer.constructor | src/vga.rs:18-23 | a writer at (0, 0) with the given colour, over the given buffer contents |
| Vga.Writer.ClearRow | src/vga.rs:198-204 | the whole-row assignment does what `Screen.ClearRow` says |
| Vga.Writer.Scroll | src/vga.rs:189-194 | the row-copy loop does what `Screen.Scroll` says |
| Vga.Writer.NewLine | src/vga.rs:177-185 | as `Screen.NewLine` |
| Vga.Writer.WriteByte | src/vga.rs:117-154 | as `Screen.WriteByte`, with the same new state or fault |
| Vga.Writer.WriteStr | src/vga.rs:105-110 | the loop over the bytes gives `Screen.WriteAll`'s new state or its fault |
| Vga.Writer.ClearScreen | src/vga.rs:160-173 | the nested loop over the cells does what `Screen.ClearScreen` says |

## Left out

- The `'\t'` case of `write_byte` calls `print!`, which locks the console's spin lock again while it is held. The kernel hangs there, so the model reports `ConsoleDeadlock`, and `TAB_WIDTH` is not used.
- The global `Console` (a `spin::Mutex`), the `print!`/`println!` macros, `core::fmt` formatting and the `Unique` pointer to 0xB8000 are not modelled. A `Vga.Writer` is built from a colour (the console's is `Vga.CONSOLE_COLOR`) and the buffer's contents.
- `write_str` is modelled over the string's bytes. Its `Ok(())` is reached only when no byte halts.
- The `invlpg` TLB flush in `unmap` is left out. In this model, translation reads the tables directly.
- Tables are reached by frame, in a map from frames to tables. The raw-pointer casts of `next_table`/`next_table_mut` through the recursive virtual address are not modelled. The address that `next_table_addr` computes is modelled separately (`PageTables.NextTableAddress`, `Paging.RecursiveMappingFindsChild`). `ActivePageTable::new` takes the level-4 frame and the memory as parameters instead of `LEVEL4_TABLE`.
- `TemporaryPage::map_table_frame` only casts the address returned by `map` to a table reference, so it is left out.
- The root-table register, `ActivePageTable::with` and inactive page tables are not part of this model.
- `src/serial.rs` (port I/O) and `src/lib.rs` (entry point and panic handler) are not part of this model.
- `mapper.rs`'s `Mapper` repeats `ActivePageTable`'s methods line for line, so it is modelled once. Rows cite both files.
- `MemoryAreaIter` is a sequence of areas. `clone()` of it is the same sequence.
- `Frame::get_start_address` is not part of this model's source files. It is modelled as `index * PAGE_SIZE`, wrapping modulo 2^64.
- Debug-build overflow panics are not modelled. `usize` arithmetic wraps, as in a release build. The VGA column is an unbounded natural; below `usize::MAX` the difference cannot show.
- When the kernel halts, the methods promise only the fault, not the state at the halt.
- Page-table index arguments are `EntryIndex` values below 512, which is what `p4_index` through `p1_index` produce.
- Paging.MapToRoundTrip: requires a fresh allocator (`PageTables.Fresh`), which the source relies on without checking.
- Paging.MapRoundTrip: requires a fresh allocator, as `Paging.MapToRoundTrip` does.
- Paging.MapToThenUnmap: requires a fresh allocator, as `Paging.MapToRoundTrip` does.
- Paging.IdentityMapRoundTrip: states that the page translates to the frame. Together with `Paging.TranslateInPage` this gives that every address in the frame translates to itself, but no single lemma states it.
- TemporaryPages.TempMapRoundTrip: requires the pool to be fresh for the active table.
- TemporaryPages.TempMapThenUnmap: requires the pool to be fresh for the active table.
