# Verified models of the unicorn engine's core data structures

The engine keeps guest memory, exits and hooks in a few hand-written data structures. This project
models them in Dafny and proves what the rest of the engine relies on.

- **Physical page dispatch** (`PhysPages`, `PhysPageCompact`, `PhysPageMap`, `Sections`,
  `SectionNumbers`, `Dispatch`, `AccessSize`, `AccessRounds`, `FlatView`). A radix tree of nine bits a
  level takes a page to a section number. It is filled by range, path-compressed in place, and searched; a table per subpage and a cache of one section sit
  on top. Compression sends addresses of empty slots to wrong leaves and leaves it to a range check
  to reject them. `Dispatch.Build` is the main result: for any disjoint list of sections the finished
  index agrees with the list at every byte of the 64-bit space, as long as the section numbers
  suffice, and how many it takes is computed exactly; `Dispatch.BuildThenLookup` states it in terms of
  the list alone. `FlatViews` proves the read and write loops on
  top of it for every request on which they end, up to write-then-read.
- **Glob patterns** (`Glob`, `GlobSpec`). `Glob.Matches` is the plain recursive meaning of `*` and
  `?`, and `Glob.MatchesIs` gives it without recursion; the backtracking matcher with its early cut and the compiler with its five match types and
  reversal are proved to agree with it (`GlobSpecs.CompileAndMatch`).
- **Hash table** (`Probing`, `HashNodes`, `HashTable`). Triangular probing visits every slot of a
  power of two; the load bounds at rest leave an empty slot, so every probe loop ends. Over any run
  the table is a finite map modulo key equality, stated by quantifiers over the run (`HashTables.Run`).
- **Threaded AVL tree** (`GTree*.dfy`, `Exits`). Nodes live in an explicit memory
  `map<Ptr, Node>`; a ghost tree says what the pointers, threads and balance factors must be, and a
  ghost context (the tree with a hole) describes the path array. Insertion, removal in all its cases,
  traversal and clearing are proved, with the 40-slot path in bounds below 433494436 nodes and that
  limit shown to be sharp for the height; `GTrees.RunThenLookup` is the whole run, again by quantifiers. `Exits` builds the exit set of the engine on it.
- **Memory map** (`Regions`, `MemoryRanges`, `RegionSplit`, `RegionWrite`, `MemoryMap`). Sorted regions
  with binary search; mapping, reading, writing, splitting, unmapping and protecting, with the mutual
  recursion of the last three. `View` is what a guest address sees (backing byte and permissions), and every operation is proved
  pointwise on it.
- **Hooks** (`HookLists`, `LinkedList`, `HookTable`). Hooks in linked lists of items; reference counts
  equal occurrences; over any run of additions, repeated or stale deletions and clearings every hook is freed exactly once.
- **Mersenne Twister** (`MersenneTwister`, `GRand`). The array that is regenerated, and seeded, in
  place refines array-free recurrences, which are pinned by numbers (`Dependence`, `TemperLinear` with
  its 32 values, `SeededExample`); tempering is a bijection; the zero state is never reached.
- **List sort** (`GListSpec`, `GListSort`, `GListOrder`). The merge sort that relinks a doubly linked
  list gives a stable sorted list of the same nodes; `GListOrder.SortList` says so of the pointers in
  memory.

## Findings

- A region that ends at 2^64 has its end stored as 0 (64-bit wrap). `split_region` then takes a range
  that starts with the region for one that covers it, and a range that starts further inside for one
  that misses it. So `uc_mem_unmap` and `uc_mem_protect` affect exactly the requested range if and
  only if such a region is left alone or covered (`MemoryMaps.MemoryMap.MemUnmap`,
  `MemoryMaps.MemoryMap.MemProtect`; `MemoryMaps.UnmapFirstOfLast` and `MemoryMaps.UnmapSecondOfLast`
  are concrete cases). Otherwise the request is refused with nothing changed, or applies to the whole
  region.
- `memory_access_size` takes its length as 32 bits, so a device round with a multiple of 2^32 bytes
  left does nothing. The loops of `flatview_write_continue` and `flatview_read_continue` end if and
  only if every byte of the range from which a multiple of 2^32 bytes is left is RAM
  (`AccessRounds.LoopEnds`); fewer than 2^32 bytes, or RAM only, always qualify. With no section
  mapped an access of 2^32 bytes at address 0 never moves (`FlatViews.NeverEnds`).
- `string_reverse` takes its length as a signed number, so it returns NULL for a text of 2^31
  characters or more. A pattern that is matched backwards then has no string to match, unless the
  caller supplied the reverse; in all other cases the answer is right (`GlobSpecs.PatternMatch`).
  The pattern `*a?` and 2^31 letters a are such a case (`GlobSpecs.LongText`).
- `g_pattern_spec_new` does not advance its position in the last loop over pending jokers, so the
  recorded position of the last joker is not exact. It only selects the direction of matching, and
  both directions are proved right.

## How to read the model

- State that the source changes in place is a class whose methods are proved against functions and
  predicates on values (`D()`, `Contents()`, `View`). Pointer structures use an explicit memory, so
  update in place, aliasing and freeing are part of the model: reading a freed node is an error.
- Machine integers are unbounded integers with every wrap or truncation that matters written out
  (`TWO64`, `U64`, `TWO32`, 16-bit section numbers, 32-bit words as bit-vectors). Shifts and masks by
  powers of two are divisions and remainders.
- Allocation always succeeds. Conditions that `g_return_if_fail` would test are preconditions, since
  the repository defines it as nothing.
- A comparison callback compares an integer rank; a hash callback and a key equality are any functions
  that are compatible. The bytes that a device returns are an arbitrary function of the round, and its
  result is an arbitrary set of flags, which for a write may depend on the bytes.

## Bounds that the proofs need

- The page size has 1 to 16 bits. A list of sections takes at most as many section numbers as a page
  has bytes, which is what `phys_section_add` asserts: one for the unassigned section, one for each
  piece, one for each page that is cut (`SectionNumbers.Numbers`).
- Fewer than 433494436 nodes in a tree, at most 2^29 - 1 entries in a hash table, so that no count
  leaves the range of an int; a pattern of at most a quarter of 2^32 characters.
- No device allows accesses of 2^31 bytes or more, so that an access size fits an int.

## Model

| member | source | states |
|---|---|---|
| PhysPages.SlotOfIs | qemu/exec.c:271 | a page number inside an aligned node goes through the slot whose page range holds it, and through no other |
| PhysPages.OneLoc | qemu/exec.c:255-279 | when nodes are added and one entry changes, a page that reaches the same section from that entry as before does so from every entry above it |
| PhysPages.LinkEmptyFramed | qemu/exec.c:124-155 | hanging a freshly allocated node below an empty entry changes the section of no page and keeps every node at its depth and first page |
| PhysPages.LeafFramed | qemu/exec.c:158-162 | turning an entry into a leaf changes the pages below that entry and no others |
| PhysPages.PageIn | qemu/exec.c:255-279 | a lookup ends at the unassigned section or at a section number stored in some leaf |
| PhysPages.LeadsBelow | qemu/exec.c:144-168 | the length of the way to a node is its depth, and its first page lies below the entry where the way starts |
| PhysPages.OneWay | qemu/exec.c:144-181 | the node graph of a table that is being filled is a tree: no node is reached along two different ways |
| PhysPageMaps.PhysPageMap.Reserve | qemu/exec.c:115-122 | there is room for the requested nodes; the capacity and the hint change exactly when there was not |
| PhysPageMaps.PhysPageMap.AllocBelow | qemu/exec.c:124-155 | the entry has a node afterwards, at most one node was allocated and no page changed its section |
| PhysPageMaps.PhysPageMap.SetSlot | qemu/exec.c:157-167 | the part of the range in one slot is set, as a leaf when the slot is covered whole; the index and count advance exactly past it; allocation stays within the bound for the slot |
| PhysPageMaps.PhysPageMap.SetLevel | qemu/exec.c:144-168 | all pages of the range below the entry find the leaf, all other pages find what they found, and no entry at that height or above changes but this one; node count within AllocBound |
| PhysPageMaps.PhysPageMap.Set | qemu/exec.c:170-181 | pointwise update of the page table on a free range; at most 2 * levels - 1 nodes are allocated, within the reserve of 3 * levels |
| PhysPageMaps.SpentStep | qemu/exec.c:144-168 | only the first and the last slot of a range can be entered in part, so the nodes allocated so far plus those of the next slot stay within the bound for the whole level |
| PhysPageMaps.ChildFilled | qemu/exec.c:157-167 | filling the next slot after the part already filled fills both and disturbs nothing else |
| PhysPageCompaction.OneLocKept | qemu/exec.c:186-235 | a change of one entry that loses no page of that entry loses no page of any entry |
| PhysPageCompaction.MergeRefines | qemu/exec.c:217-234 | skipping a node with a single child keeps the section of every page that had one, and every entry still points to a node of the level that its skip says |
| PhysPageCompaction.MergeDense | qemu/exec.c:217-234 | after skipping it the entry leads to no node that could be skipped, and entries that already had that property keep it |
| PhysPageCompaction.DenseNodes | qemu/exec.c:217-234 | what compact means in terms of nodes: a node that can be reached and has exactly one used slot does not exist |
| PhysPageCompaction.DenseElsewhere | qemu/exec.c:186-235 | skipping a node does not touch what was already compact |
| PhysPageMaps.PhysPageMap.Merge | qemu/exec.c:217-234 | the entry takes over the only child: no page is lost, only entries below change, and nothing below can be skipped any more |
| PhysPageMaps.PhysPageMap.CompactEntry | qemu/exec.c:186-235 | no page loses its section, entries at the same height or above are untouched, skips add up exactly to the levels between entry and node, and no node below has a single used slot |
| PhysPageMaps.PhysPageMap.Compact | qemu/exec.c:237-242 | no page loses its section, and no node that can be reached has exactly one used slot |
| PhysPageMaps.PhysPageMap.Descend | qemu/exec.c:266-272 | the loop of the search ends and reaches the section number that the walk reaches |
| Sections.CoversIsContains | qemu/exec.c:244-253 | for a section clipped to the 64-bit address space the wrapped range test is plain membership |
| Sections.TargetIs | qemu/exec.c:306-318 | the first byte of a section is at the offset of the section in its region, and two bytes are as far apart there as their addresses |
| Sections.FindAfterCompaction | qemu/exec.c:186-279 | compaction is invisible: on every table that refines the one that was built, the search with its range check returns the section stored before compaction, for every address |
| Sections.FreeBytePage | qemu/exec.c:882 | the assertion of register_subpage: a page with a free byte is unassigned or already a subpage that starts at this page |
| Sections.RegisterPages | qemu/exec.c:900-911 | giving whole free pages a new section keeps the index exact and places the section byte by byte |
| Sections.AddSubpage | qemu/exec.c:884-889 | a new empty subpage on a free page assigns no byte and moves none |
| Sections.FillSubpage | qemu/exec.c:893-896 | writing a section number into part of a subpage assigns exactly the bytes of the section |
| Sections.PageIsFree | qemu/exec.c:900-911 | a page none of whose bytes is assigned is unassigned in the page table |
| Sections.PlacingParts | qemu/exec.c:920-956 | placing the two parts of a cut section places the section |
| Sections.PlacingFaithful | qemu/exec.c:920-956 | if every byte of every registered section was found in that section, it still is after placing one more on free bytes |
| Dispatch.LevelsSuffice | qemu/exec.c:115-181 | the number of 9-bit levels computed from the page size covers all 64-bit addresses |
| Dispatch.LevelsNeeded | qemu/exec.c:60-65 | one level less would not cover them |
| Dispatch.AddressSpaceDispatch.PageFind | qemu/exec.c:255-279 | returns the section stored for the page of the address, before or after compaction |
| Dispatch.AddressSpaceDispatch.constructor | qemu/exec.c:1442-1458 | a new dispatch has the unassigned section only and assigns no byte |
| PhysPageMaps.PhysPageMap.constructor | qemu/exec.c:1442-1458 | a new table has one empty root entry, so no page has a section |
| Dispatch.AddressSpaceDispatch.LookupRegion | qemu/exec.c:282-302 | a hit of the one-entry cache gives what the search gives; with subpages resolved the section found contains the byte and gives its region and offset, or the byte is unassigned; the cache holds the section of the page afterwards |
| Dispatch.AddressSpaceDispatch.NewSubpage | qemu/exec.c:884-889 | the page gets a subpage and no byte moves |
| Dispatch.AddressSpaceDispatch.EnsureSubpage | qemu/exec.c:869-892 | the page ends up with a subpage, for one number when it had none; the assertion on the existing section holds |
| Dispatch.AddressSpaceDispatch.SubpageRegister | qemu/exec.c:1368-1386 | writes exactly the table slots from start to end, or returns -1 and writes nothing |
| Dispatch.AddressSpaceDispatch.AssignPart | qemu/exec.c:893-896 | the bytes of the section are found at their offsets in its region, all others stay |
| Dispatch.AddressSpaceDispatch.RegisterSubpage | qemu/exec.c:869-897 | a section inside one page is placed byte by byte; it takes one number, and one more exactly when the page had no subpage |
| Dispatch.AddressSpaceDispatch.RegisterMultipage | qemu/exec.c:900-911 | a page-aligned section is placed byte by byte, with one new section number |
| Dispatch.AddressSpaceDispatch.AddAligned | qemu/exec.c:941-956 | whole pages, then the last part page; takes exactly Cost section numbers |
| Dispatch.AddressSpaceDispatch.AddToDispatch | qemu/exec.c:920-956 | however a section is cut into head, pages and tail, each of its bytes is found at its own offset in its own region and no other byte moves; it takes exactly Cost section numbers |
| Dispatch.AddressSpaceDispatch.Compact | qemu/exec.c:237-242 | the index is the same before and after, and no reachable node could be skipped any more |
| Dispatch.AddressSpaceDispatch.Translate | qemu/exec.c:306-338 | the region of the byte, and an offset as far from the offset of the section as the address from its start; for RAM the length is cut so that the whole run lies in one region, and is cut only at the end of the section |
| Dispatch.Build | qemu/exec.c:869-956 | a fresh dispatch with all sections of any disjoint list added and then compacted agrees with the list for every byte address, for every list whose section numbers do not run out; it has exactly Numbers sections |
| Dispatch.BuildThenLookup | qemu/exec.c:255-302 | from list to answer: after any lookups a lookup gives the region of the section of the list that contains the byte, at an offset as far from that of the section as the byte from its start, or nothing when no section contains it |
| SectionNumbers.CutPagesAre | qemu/exec.c:920-956 | the pages at which a section is cut are those that it meets but does not cover |
| SectionNumbers.HeadCost | qemu/exec.c:925-939 | cost of an unaligned head and of the rest |
| SectionNumbers.AlignedCost | qemu/exec.c:941-955 | cost of whole pages and of the last part |
| SectionNumbers.NumbersMore | qemu/exec.c:830-846 | a list takes one number for the unassigned section, one for each piece, and one for each page that is cut, however many sections share it |
| SectionNumbers.RunsOut | qemu/exec.c:837 | a list that takes more numbers than the page size reaches one section at which the assertion fails |
| Sections.SubpageAt | qemu/exec.c:875-892 | a page has a subpage if and only if the search finds one for it |
| Sections.IndexesMore | qemu/exec.c:920-956 | placing the next section of a disjoint list extends the agreement between index and list |
| AccessSizes.Pow2Floor | qemu/exec.c:1562 | the largest power of two that is at most the argument |
| AccessSizes.LowBit | qemu/exec.c:1551 | a power of two that divides the number; LowBitLargest: no larger one does |
| AccessSizes.AccessSizeOk | qemu/exec.c:1536-1565 | unless the length is a multiple of 2^32 an access is a non-zero power of two, no longer than the truncated length or than the region allows, and naturally aligned unless the region takes unaligned accesses; the size fits an int |
| AccessSizes.LowBitLargest | qemu/exec.c:1551 | every power of two that divides the number is at most its lowest bit |
| AccessSizes.AccessLargest | qemu/exec.c:1536-1565 | every power of two that is no longer than the truncated length or than the region allows, and aligned where that is demanded, is at most the chosen size; a lowest bit above the 32nd is truncated away and sets no bound |
| AccessSizes.IsPow2Is | qemu/exec.c:1562 | the powers of two, by exponent |
| AccessSizes.DefaultAccess | qemu/exec.c:1538-1544 | a region that sets no maximum gets accesses of at most 4 bytes, and of exactly 4 where length and alignment allow |
| AccessSizes.MaximumAccess | qemu/exec.c:1536-1565 | a region with maximum m gets the largest power of two up to m where length and alignment allow, never more than m |
| AccessSizes.SmallAccess | qemu/exec.c:1546-1562 | otherwise the access is the largest power of two that length and alignment allow |
| AccessRounds.RoundStops | qemu/exec.c:1585-1614 | no round, RAM or device, gets past a byte of a device from which a multiple of 2^32 bytes is left |
| AccessRounds.RoundMoves | qemu/exec.c:1585-1614 | without such a byte every round takes at least one byte |
| AccessRounds.NeverPast | qemu/exec.c:1585-1614 | with such a byte no number of rounds gets past it |
| AccessRounds.LoopEnds | qemu/exec.c:1585-1614 | some number of rounds reaches the end if and only if every byte of the range from which a multiple of 2^32 bytes is left is RAM |
| FlatViews.NeverEnds | qemu/exec.c:1585-1614 | a concrete case: with no section at all, an access of 2^32 bytes at address 0 is still at address 0 after any number of rounds |
| FlatViews.StoreRun | qemu/exec.c:1595-1597 | copying into a run of RAM changes the guest bytes of the run and no others |
| FlatViews.ByteIs | qemu/exec.c:1206-1221 | a guest byte of RAM is the byte of its block at the offset that the dispatch gives |
| FlatViews.RunBacked | qemu/exec.c:1206-1221 | a run of guest RAM lies inside its block, byte for byte |
| FlatViews.FlatView.Translate | qemu/exec.c:1628-1629 | the region and offset of the first byte, and for RAM the size of the round, a non-empty run that is not longer than asked |
| FlatViews.FlatView.StoreRam | qemu/exec.c:1595-1597 | the whole run is stored; the bound taken from the block never cuts it short |
| FlatViews.FlatView.FetchRam | qemu/exec.c:1637-1679 | the RAM case of reading gives the guest bytes of the run |
| FlatViews.FlatView.WriteRounds | qemu/exec.c:1573-1618 | the loop of writing: block bytes, rounds and flags |
| FlatViews.FlatView.ReadRounds | qemu/exec.c:1637-1679 | the loop of reading |
| FlatViews.RoundsMore | qemu/exec.c:1585-1616 | one more round extends the tiling and the results |
| FlatViews.TilesAre | qemu/exec.c:1585-1616 | the rounds of a request follow one another from its start to its end without gap or overlap |
| FlatViews.RoundMeans | qemu/exec.c:1585-1614 | what one round is: its region and offset are those of its first byte; for a device its size is that of memory_access_size, for RAM it ends with the section or the request |
| FlatViews.OneAccess | qemu/exec.c:1538-1593 | an aligned request of 4 bytes to a device that sets no maximum is exactly one access of 4 bytes |
| FlatViews.BlocksStored | qemu/exec.c:1595-1597 | storing one round changes only block bytes that belong to an address of the request, to the byte for that address |
| FlatViews.ChunkStored | qemu/exec.c:1595-1597 | after a write the block of each RAM round holds its part of the buffer |
| FlatViews.ChunkFetched | qemu/exec.c:1656-1660 | a read has for each RAM round the bytes of its block |
| FlatViews.RoundsCount | qemu/exec.c:1585-1616 | the rounds done are those after which the loop has got to this address |
| FlatViews.TookAll | qemu/exec.c:1573-1634 | what storing round by round comes to: nothing outside the range changes, and on RAM all of it takes the new bytes |
| FlatViews.FetchedAll | qemu/exec.c:1637-1693 | what reading round by round comes to on RAM |
| FlatViews.FlatView.Write | qemu/exec.c:1573-1634 | whenever the loop ends by LoopEnds: the blocks of RAM rounds hold their parts of the buffer and no other byte changes, also where devices and RAM alternate; each round goes to the right region and offset with the right size, devices get their bytes of the buffer, device rounds are aligned powers of two, and the rounds tile the request; a flag is in the result if and only if some device round returned it; an aligned 4-byte request to a device without a maximum is one access |
| FlatViews.FlatView.Read | qemu/exec.c:1637-1693 | the same for reading: each byte is that of its round, from the block or from the device; flags and the 4-byte case as for writing |
| FlatViews.FlatView.WriteThenRead | qemu/exec.c:1695-1722 | reading back what was written to RAM gives what was written |
| Glob.StarAbsorbs | glib_compat/gpattern.c:99-137 | a star that matches from some point of the string on matches from every earlier point |
| Glob.MatchesIs | glib_compat/gpattern.c:77-152 | the recursive meaning without recursion: a string matches if and only if it can be cut into one piece for each character of the pattern, any piece for a star, one character otherwise, which is any for a question mark and the same for other characters |
| Glob.FreePrefix | glib_compat/gpattern.c:115-136 | if a star-free beginning of the pattern fits at an earlier place, what follows the next star need only be tried there |
| Glob.WildcardReached | glib_compat/gpattern.c:125-134 | the early return: once the recursive call has reached the next wildcard and failed, no later place can match |
| Glob.SkipWildcards | glib_compat/gpattern.c:101-114 | skipping a run of wildcards after a star keeps the meaning |
| Glob.FindNext | glib_compat/gpattern.c:118-123 | the next place where the literal after the star occurs, or that there is none |
| Glob.PhMatch | glib_compat/gpattern.c:77-152 | returns true exactly when the glob relation holds; a failure that reports the next wildcard reached means that no later start can match either |
| GlobSpecs.ReverseMatches | glib_compat/gpattern.c:154-172 | reversing pattern and string keeps the glob relation |
| GlobSpecs.StringReverse | glib_compat/gpattern.c:154-172 | the reversed string if the length, passed as a signed 32-bit number, is positive, that is for 1 to 2^31 - 1 characters; else NULL |
| GlobSpecs.FlushJokers | glib_compat/gpattern.c:303-308 | writes exactly the pending question marks, and keeps track of whether one was seen |
| GlobSpecs.Canonicalize | glib_compat/gpattern.c:275-326 | the canonical pattern matches the same strings, and the counters describe it: its length, first and last star, whether it has a joker, the least and the largest length |
| GlobSpecs.LongEnough | glib_compat/gpattern.c:210-212 | every string that matches has at least the minimal length |
| GlobSpecs.ExactLength | glib_compat/gpattern.c:210-212 | without a star every string that matches has exactly the pattern length |
| GlobSpecs.TailCompiled | glib_compat/gpattern.c:333-339 | a pattern whose only star is in front compiles to a comparison of the end |
| GlobSpecs.HeadCompiled | glib_compat/gpattern.c:340-346 | a pattern whose only star is at the end compiles to a comparison of the beginning |
| GlobSpecs.ExactCompiled | glib_compat/gpattern.c:347-351 | a pattern without wildcards compiles to equality |
| GlobSpecs.AllCompiled | glib_compat/gpattern.c:354-366 | otherwise the canonical pattern is matched, forwards or reversed |
| GlobSpecs.SpecNew | glib_compat/gpattern.c:262-367 | the compiled form means the pattern, for every NUL-free string and each of the five match types |
| GlobSpecs.PatternMatch | glib_compat/gpattern.c:202-252 | gives no answer exactly when a pattern matched backwards gets a text of 2^31 characters or more without its reverse; every answer is whether the text matches the pattern, for every NUL-free string and each of the five match types; the reversed mode never gets an empty string |
| GlobSpecs.CompileAndMatch | glib_compat/gpattern.c:394-400 | compiling and then matching is the plain recursive meaning of star and question mark, for all texts below 2^31 characters, and beyond for all patterns that are matched forwards |
| GlobSpecs.LongText | glib_compat/gpattern.c:154-160 | a concrete case: 2^31 letters a match the pattern *a?, and its backwards form gets no reversed string |
| Probing.ProbeIsTriangle | glib_compat/glib_compat.c:608-611 | the masked running sum of the steps is the start plus a triangular number modulo the size |
| Probing.ProbeIs | glib_compat/glib_compat.c:608-611 | the slot after t probes is (start + t(t+1)/2) modulo the size |
| Probing.ProbeInjective | glib_compat/glib_compat.c:608-611 | modulo a power of two the first 2^k probes are pairwise different slots |
| Probing.EverySlotVisited | glib_compat/glib_compat.c:608-611 | so every slot is visited within 2^k probes |
| HashNodes.PutLive | glib_compat/glib_compat.c:820-826 | writing a new key into a free slot of its probe path keeps every live key reachable and unique, and adds exactly that entry |
| HashNodes.ChangeLive | glib_compat/glib_compat.c:801-818 | overwriting a live node, or turning it into a tombstone, keeps every other key reachable |
| HashNodes.EndOfPath | glib_compat/glib_compat.c:583-617 | a probe path that reached an empty slot without meeting the key shows that the key is absent |
| HashNodes.StartIs | glib_compat/glib_compat.c:574-580 | probing starts at the hash value modulo the prime, with 0 and 1 replaced by 2, and equal keys start at the same slot |
| HashNodes.PathEnds | glib_compat/glib_compat.c:583-617 | with an empty slot left, every probe path meets one before it repeats |
| HashNodes.EntriesFunctional | glib_compat/glib_compat.c:424-436 | a key has one value |
| HashNodes.RebuiltPut | glib_compat/glib_compat.c:720-741 | moving one live node into the new array keeps the nodes moved so far reachable and distinct |
| HashTables.PrimeModOk | glib_compat/glib_compat.c:620-657 | each modulus of the table is positive and fits its power of two |
| HashTables.GHashTable.LookupNode | glib_compat/glib_compat.c:884-926 | the loop ends at the node of the key, or at an empty node and then the key is absent |
| HashTables.GHashTable.LookupNodeForInsertion | glib_compat/glib_compat.c:560-618 | the node of the key; when there is none, the first slot of its probe path that holds no entry, tombstone or empty |
| HashTables.GHashTable.SetShift | glib_compat/glib_compat.c:659-674 | size, mask and the prime of the table for a shift |
| HashTables.GHashTable.FindClosestShift | glib_compat/glib_compat.c:676-684 | the number of binary digits |
| HashTables.GHashTable.SetShiftFromSize | glib_compat/glib_compat.c:686-694 | a power of two above the requested size, at most twice it, at least 8 and at most 2^30 |
| HashTables.GHashTable.FreeSlot | glib_compat/glib_compat.c:733-738 | the probe loop inside resize ends at an empty slot |
| HashTables.GHashTable.Resize | glib_compat/glib_compat.c:709-746 | same contents, no tombstones, load back in bounds, in either direction |
| HashTables.GHashTable.MaybeResize | glib_compat/glib_compat.c:757-765 | afterwards size > noccupied + noccupied/16, and size is 8 or at most 4 * nnodes |
| HashTables.GHashTable.InsertInternal | glib_compat/glib_compat.c:783-835 | the entry of an equal key is replaced, keeping the old key unless asked otherwise; all other entries stay; no duplicate arises from a reused tombstone |
| HashTables.GHashTable.Lookup | glib_compat/glib_compat.c:943-955 | the value of an equal key, or none when there is no such key |
| HashTables.GHashTable.constructor | glib_compat/glib_compat.c:998-1018 | an empty table of eight slots, at rest |
| HashTables.GHashTable.Remove | glib_compat/glib_compat.c:1091-1143 | the entry of an equal key is gone, all others stay, and the result says whether there was one |
| HashTables.GHashTable.RemoveAll | glib_compat/glib_compat.c:1031-1077 | the table is empty and at rest |
| HashTables.Run | glib_compat/glib_compat.c:783-1143 | after any run of insert, replace, remove and remove_all in which the live entries stay below 2^29 - 1, a lookup finds v if and only if some insertion of an equal key with v is followed by no operation on such a key and no clearing; the size is the number of different keys that have a value |
| HashTables.ValueAfterPut | glib_compat/glib_compat.c:783-835 | replacing the entry of one key changes the value of that key only |
| HashTables.ValueAfterRemove | glib_compat/glib_compat.c:1123-1143 | removing the entry of one key leaves the value of every other |
| HashTables.Step | glib_compat/glib_compat.c:783-1143 | one operation keeps a table in agreement with the run that led to it, entries and their number |
| HashTables.HasKeyIs | glib_compat/glib_compat.c:884-926 | a key is in the table if and only if the run left it a value |
| HashTables.LastValueIs | glib_compat/glib_compat.c:783-1143 | the value that a run leaves for a key, by quantifiers over the run |
| HashTables.SizeIs | glib_compat/glib_compat.c:1209-1214 | the counted size is that of a set with one key for each class of equal keys that have a value |
| GTreeRotate.LeftBalancesExact | glib_compat/gtree.c:1196-1212 | the balance factors computed from the old ones are the true height differences, for subtrees of any heights |
| GTreeRotate.RightBalancesExact | glib_compat/gtree.c:1236-1252 | the same for the other rotation |
| GTreeRotate.RotateLeft | glib_compat/gtree.c:1177-1215 | links, threads and balance factors of the rotated tree; two nodes change and no other |
| GTreeRotate.RotateRight | glib_compat/gtree.c:1217-1255 | the same for the other rotation |
| GTreeRotate.RebalancedSame | glib_compat/gtree.c:1035-1051 | rebalancing keeps the nodes and their order |
| GTreeRotate.RebalancedOk | glib_compat/gtree.c:1035-1051 | rebalancing a node that leans by two gives a balanced tree, and its height shrinks exactly when the tall child was not level |
| GTreeRotate.BalanceNode | glib_compat/gtree.c:1035-1051 | the memory holds the rebalanced tree, and only nodes of the subtree changed |
| GTreeRotate.RaiseLeft | glib_compat/gtree.c:1037-1042 | the branch for a node that leans left |
| GTreeRotate.RaiseRight | glib_compat/gtree.c:1043-1048 | the branch for a node that leans right |
| GTreeInsert.Restore | glib_compat/gtree.c:509-522 | one rebalancing step of the upward loops: the new root of the subtree is linked to the node above it or to the tree |
| GTreeInsert.RestoreGrown | glib_compat/gtree.c:507-533 | the upward loop of insertion ends with a balanced tree of the same order |
| GTreeInsert.LinkedLeft | glib_compat/gtree.c:466-472 | a new left child gets the threads that its place calls for |
| GTreeInsert.LinkedRight | glib_compat/gtree.c:488-494 | a new right child likewise |
| GTreeInsert.InsertInternal | glib_compat/gtree.c:411-534 | the tree afterwards has the entries of the ordered map after Put; it is balanced and threaded; no write to the path array is out of bounds; displaced key and value are handed out |
| GTreeRemove.RestoreShrunk | glib_compat/gtree.c:754-781 | the upward loop of removal ends with a balanced tree of the same order |
| GTreeRemove.UnlinkNoLeft | glib_compat/gtree.c:642-679 | unlinking a node without left child: parent, threads and balance of the parent are right |
| GTreeRemove.UnlinkNoRight | glib_compat/gtree.c:682-699 | unlinking a node with a left child only |
| GTreeSplice.FindSuccessor | glib_compat/gtree.c:702-717 | the in-order successor and its parent are found; the recorded path stays within the array |
| GTreeSplice.Relink | glib_compat/gtree.c:719-749 | the successor takes the place of a node with two children, with all links and threads in order |
| GTreeSplice.SplicedInOrder | glib_compat/gtree.c:700-750 | the order is the old one without the removed node |
| GTrees.RemoveHere | glib_compat/gtree.c:638-781 | whatever children the node has, the entries afterwards are the old ones without its key |
| GTrees.RemoveThin | glib_compat/gtree.c:642-699 | a node with at most one child |
| GTrees.RemoveFull | glib_compat/gtree.c:700-750 | a node with both children |
| GTrees.RemoveInternal | glib_compat/gtree.c:595-796 | the tree afterwards has the entries after Del; reports whether the key was there; no write to the path array is out of bounds; the restoring loop does not read the freed node |
| GTreeEntries.PutKeepsOrder | glib_compat/gtree.c:411-534 | inserting keeps the strict order |
| GTreeEntries.PutIsUpdate | glib_compat/gtree.c:411-534 | inserting is an update of a finite map at one rank; the old key stays unless replaced |
| GTreeEntries.NoKeyLost | glib_compat/gtree.c:434-456 | each key is in the tree or was handed to its destroy function, counted with multiplicity |
| GTreeEntries.NoValueLost | glib_compat/gtree.c:434-456 | each value likewise |
| GTreeEntries.KeysAre | glib_compat/gtree.c:434-456 | the counted keys and values are those at the places of the sequence |
| GTreeEntries.DelIsErase | glib_compat/gtree.c:595-796 | removing erases one rank of the map and keeps the order |
| GTreeHeight.EnoughNodes | glib_compat/gtree.c:67 | a balanced tree of height h has at least F(h+2) - 1 nodes |
| GTreeHeight.NoLonger | glib_compat/gtree.c:996-1018 | no path from the root has more nodes than the height |
| GTreeHeight.Longest | glib_compat/gtree.c:996-1018 | some path has as many |
| GTreeHeight.HeightBound | glib_compat/gtree.c:67 | with fewer than F(43) - 1 = 433494436 nodes the height is at most 40 |
| GTreeHeight.TooManyNodes | glib_compat/gtree.c:67 | the node limit is F(43) - 1 |
| GTreeHeight.SparseIs | glib_compat/gtree.c:67 | for every height the sparsest balanced tree has exactly F(h+2) - 1 nodes, so the bound on nodes is exact |
| GTreeHeight.BoundIsTight | glib_compat/gtree.c:67 | with that many nodes a balanced tree of height 41 exists |
| GTreeHeight.PathFits | glib_compat/gtree.c:414-428 | the path array holds the nodes above a subtree and the leading NULL: it is no longer than the height of the tree less that of the subtree, plus one |
| GTreeSearch.FindNode | glib_compat/gtree.c:1053-1082 | the node of the key, or NULL exactly when the key is not in the map |
| GTreeThreads.SetPred | glib_compat/gtree.c:663-664 | the left thread of the leftmost node of a subtree is the predecessor of the subtree |
| GTreeWalk.Neighbours | glib_compat/gtree.c:237-261 | child pointers and threads of the i-th node lead to the nodes before and after it in order |
| GTreeThreads.NodeNext | glib_compat/gtree.c:250-261 | on a node being removed: the leftmost node of its right subtree, or its thread |
| GTreeThreads.NodePrevious | glib_compat/gtree.c:237-248 | the rightmost node of its left subtree, or its thread |
| GTreeWalk.Next | glib_compat/gtree.c:250-261 | the in-order successor, or NULL; only the node and nodes after it are read |
| GTreeWalk.Previous | glib_compat/gtree.c:237-248 | the in-order predecessor, or NULL |
| GTreeWalk.FirstNode | glib_compat/gtree.c:222-235 | the first node in order, or NULL |
| GTreeWalk.Foreach | glib_compat/gtree.c:874-892 | the callback sees the entries in ascending order, says go on at all but the last of them, and stop at the last unless all were seen |
| GTreeWalk.RemoveAll | glib_compat/gtree.c:263-287 | every node is freed, none is read after it was freed, and each entry is handed to the destroy functions once |
| GTreeWalk.TreeHeight | glib_compat/gtree.c:996-1018 | the true height |
| GTrees.GTree.constructor | glib_compat/gtree.c:201-220 | an empty tree |
| GTrees.GTree.Insert | glib_compat/gtree.c:372-409 | finite map update; strict order, exact balance factors in -1..1 and threads are kept; keys and values are conserved |
| GTrees.GTree.Remove | glib_compat/gtree.c:551-564 | finite map erasure with the same invariants |
| GTrees.GTree.Lookup | glib_compat/gtree.c:810-819 | the value of the key, or 0 |
| GTrees.GTree.Foreach | glib_compat/gtree.c:874-892 | the entries in strictly ascending order; the callback said go on at all but the last seen, and stop there unless all were seen |
| GTrees.GTree.RemoveAll | glib_compat/gtree.c:263-287 | the tree is empty and every entry was destroyed once, in order |
| GTrees.GTree.Height | glib_compat/gtree.c:996-1018 | the true height, at most 40 below the node limit |
| GTrees.Step | glib_compat/gtree.c:411-796 | one operation acts on the tree as on its finite map |
| GTrees.Run | glib_compat/gtree.c:411-796 | every run of insertions, replacements, removals and clearings keeps the invariant and acts as the same run on a finite map |
| GTrees.EffectsAre | glib_compat/gtree.c:411-796 | the value that a run leaves for a rank, by quantifiers over the run |
| GTrees.EffectKeys | glib_compat/gtree.c:372-409 | the key that a run leaves for a rank is that of the last replacement, or of the insertion that found none, with no removal since |
| GTrees.RunThenLookup | glib_compat/gtree.c:411-819 | a lookup after any run finds the value of the last insertion or replacement of the rank if no removal or clearing followed, and 0 otherwise |
| Exits.Engine.AddExit | include/uc_priv.h:450-455 | adds one address to the set |
| Exits.Engine.WriteExits | uc.c:2752-2761 | the set is exactly the distinct written addresses; refused and unchanged when exits are not in use |
| Exits.Engine.ReadExits | uc.c:2738-2751 | the addresses in ascending order and nothing else written; refused with nothing written when the buffer is too small |
| Exits.Engine.AddrIsExit | include/uc_priv.h:459-466 | membership in the set, or equality with the single exit of the nesting level |
| Exits.Engine.WriteThenRead | uc.c:2734-2767 | written and then read gives the written addresses, each once and in strictly ascending order, and the membership test agrees; only the distinct addresses are limited |
| Exits.AscendingUnique | uc.c:2738-2751 | an ascending sequence is determined by its elements, so the answer of the read is unique |
| MemoryRanges.PlaceUnique | uc.c:1274-1297 | there is one index where the address is inside the region or in free space before it |
| MemoryRanges.LastAddress | uc.c:1287 | the wrapped end minus one is the last address, also for a region that ends at 2^64 |
| MemoryRanges.RegionLenIs | uc.c:749-758 | the length to the end of the region, capped, also for a region that ends at 2^64 |
| MemoryRanges.RangeIs | uc.c:762-778 | counting from the first address modulo 2^64 stays in the range |
| MemoryRanges.RangeOnly | uc.c:762-778 | and reaches every address of it |
| MemoryRanges.MappedMeans | uc.c:1321-1351 | what a new region does to every address |
| MemoryRanges.RoundedStep | uc.c:1321-1335 | the capacity is a multiple of 32 that grows by 32 when the count reaches one |
| Regions.InsertedView | uc.c:1343-1348 | inserting a region at its place changes what the addresses of the region see and no others |
| Regions.RemovedView | qemu/softmmu/memory.c:229-244 | removing a region unmaps its addresses and no others |
| Regions.ViewIs | uc.c:926-940 | what an address sees, by the fields of the region that contains it: permissions, and its own byte or the byte of the host at the same distance |
| MemoryMaps.MemoryMap.Bsearch | uc.c:1274-1297 | returns that index |
| MemoryMaps.MemoryMap.MemoryOverlap | uc.c:1300-1318 | true exactly when some address of a range that does not wrap is mapped |
| MemoryMaps.MemoryMap.MapBlock | uc.c:1321-1351 | the regions stay sorted and disjoint, the capacity stays at least the count rounded up to 32, and every address outside the region sees what it saw |
| MemoryMaps.MemoryMap.MapCheck | uc.c:1353-1387 | which requests are refused and with which error, by arguments and mapped addresses |
| MemoryMaps.MemoryMap.MemMap | uc.c:1390-1406 | refused with nothing changed, or exactly the range is mapped with the permissions and bytes of zero |
| MemoryMaps.MemoryMap.MemMapPtr | uc.c:1409-1430 | the same for memory of the host: address a sees the byte at ptr + (a - address) |
| MemoryMaps.MemoryMap.FindMapping | uc.c:767 | the region that contains the address |
| MemoryMaps.MemoryMap.CheckMemArea | uc.c:762-778 | true exactly when every address of the range is mapped, including ranges that wrap around |
| MemoryMaps.MemoryMap.RemoveBlock | qemu/softmmu/memory.c:229-244 | exactly that region leaves the list |
| MemoryMaps.MemoryMap.Remap | uc.c:1651-1664 | the piece is mapped again as new memory and then written with its saved bytes, or mapped as memory of the host; neither step fails |
| MemoryMaps.MemoryMap.SplitRegion | uc.c:1566-1710 | which requests are kept, refused or cut; after a cut every address sees the byte and permissions it saw, the range is a region of its own or unmapped, and the recursion ends |
| RegionSplits.SplitInside | uc.c:1580-1592 | which branch is taken for a range inside a region, with the wrapped end of a region that reaches 2^64 |
| MemoryMaps.MemoryMap.UnmapOne | uc.c:1878-1901 | one turn of the unmapping loop removes the part of the range in one region, or the whole last region |
| MemoryMaps.MemoryMap.MemUnmap | uc.c:1836-1905 | error codes, and exactly which addresses are unmapped; all others see what they saw; a request for mapped memory removes exactly its range if and only if a region ending at 2^64 is left alone or covered; the mutual recursion with split_region ends |
| MemoryMaps.MemoryMap.ProtectOne | uc.c:1766-1796 | one turn of the protecting loop: mapped addresses stay mapped with the same bytes, and those of the turn get the permissions |
| MemoryMaps.MemoryMap.MemProtect | uc.c:1713-1810 | error codes; every address is mapped afterwards if and only if it was before, with the same byte; the permissions are the new ones on the affected addresses and the old ones elsewhere; exactly the range is changed if and only if a region ending at 2^64 is left alone, covered, or had the permissions; emulation is stopped exactly when some changed address loses execute permission and pc is in the range |
| MemoryMaps.MemoryMap.ProtectRange | uc.c:1762-1796 | the loop over a mapped range, refused only at its first region |
| RegionSplits.TakesExecStep | uc.c:1775-1781 | the permissions of the region found are those that its addresses had at first |
| MemoryMaps.LastPages | uc.c:1409-1430 | two pages at the end of the address space can be mapped |
| MemoryMaps.UnmapFirstOfLast | uc.c:1580-1582 | a concrete case: unmapping the first of them unmaps the last address too |
| MemoryMaps.UnmapSecondOfLast | uc.c:1589-1592 | unmapping the second is refused |
| MemoryMaps.MemoryMap.MemWrite | uc.c:952-1010 | refused unless all of the range is mapped; then the own bytes of the range are replaced across any number of regions, protected or not, and no other address changes |
| MemoryMaps.MemoryMap.MemRead | uc.c:913-949 | refused unless all of the range is mapped; then what each address sees |
| MemoryMaps.MemoryMap.WriteThenRead | uc.c:913-1010 | reading back gives the bytes written, for all own memory of the range |
| MemoryMaps.MemoryMap.WriteProtectRead | uc.c:913-1810 | bytes written, then anything protected with any permissions, then read: the bytes written |
| MemoryMaps.ResultMeans | uc.c:1836-1875 | which requests to unmap or protect are refused and with which error, by arguments, mapped addresses and the last region |
| RegionWrites.WrittenMeans | uc.c:966-997 | what a write does to every address: permissions stay, memory of the host stays, byte k goes to address + k modulo 2^64 |
| RegionWrites.ReadMeans | uc.c:913-949 | byte k that was read is what address + k modulo 2^64 sees |
| RegionWrites.WriteStep | uc.c:966-997 | one more region of the range |
| RegionWrites.MappedThenWritten | uc.c:1653-1658 | new memory written from end to end is memory with those bytes |
| RegionSplits.UnmapExact | uc.c:1836-1905 | unmapping a mapped range succeeds and removes exactly the range if and only if a region ending at 2^64 is left alone or covered by the range |
| RegionSplits.CutIs | uc.c:1580-1645 | a region that is cut ends below 2^64, and the cut lies inside it |
| RegionSplits.UnmapStep | uc.c:1878-1901 | one more region of the range gone, nothing else changed |
| RegionSplits.ProtectStep | uc.c:1766-1796 | one more region of the range protected, nothing else changed |
| RegionSplits.AffectedIsRange | uc.c:1878-1901 | the addresses that change are the range itself exactly when the last region is not reached or is covered |
| RegionSplits.AffectedIs | uc.c:1576-1592 | the addresses that change, by numbers: the range, and all of the last region when it ends at 2^64 and the range reaches its start |
| RegionSplits.ProtectedMeans | uc.c:1713-1810 | bytes stay and permissions change at those addresses only |
| RegionSplits.UnmappedMeans | uc.c:1836-1905 | those addresses are unmapped and all others see what they saw |
| RegionSplits.StepMeans | uc.c:1766-1796 | the same for one turn of the loop |
| RegionSplits.HasExecIs | uc.c:1775-1781 | execute permission is the bit of value 4 |
| RegionSplits.ProtectExact | uc.c:1713-1810 | protecting a mapped range succeeds and changes exactly the range if and only if that holds, or the region ending at 2^64 had the permissions already and the range does not start inside it |
| RegionSplits.TopSafeIs | uc.c:1576-1592 | that condition in terms of the bounds of the range |
| LinkedLists.Insert | list.c:30-47 | the contents with the new item in front; head and tail are right |
| LinkedLists.Append | list.c:51-66 | the contents with the new item at the end |
| LinkedLists.Remove | list.c:69-98 | the contents without the first occurrence; head and tail are right; reports whether there was one |
| LinkedLists.Exists | list.c:101-117 | membership |
| LinkedLists.Clear | list.c:13-26 | every item is freed, none is read afterwards, and the data are passed to the delete function in order; the list is empty |
| LinkedLists.TakeFirst | list.c:16-23 | one turn of clearing |
| LinkedLists.AtNext | uc.c:1062-1063 | a walk along a list meets its data in order and ends behind the last |
| HookLists.RemovedCounted | list.c:69-98 | one occurrence less and one reference less keep counts equal to occurrences |
| HookLists.DeletingDone | uc.c:2048-2057 | after a deletion the hook is queued at least as often as it occurs in the lists |
| HookLists.ClearingDrop | uc.c:1062-1070 | taking a queued hook out of a list leaves it alive, since the queue still holds it |
| HookLists.ClearingDone | uc.c:1062-1070 | after the loop no list has a hook marked for deletion, and the others are in their old order |
| HookLists.FreeingStep | uc.c:1072 | clearing the queue drops one reference per entry and never touches a freed hook |
| HookTables.HookTable.HookDelete | uc.c:102-112 | one reference less; freed exactly when it was the last |
| HookTables.HookTable.ListRemove | list.c:69-98 | removal from one list with its reference |
| HookTables.HookTable.Place | uc.c:76-92 | the hook at the front or the end of the linked list, and one occurrence and one reference more for this hook and for no other |
| HookTables.HookTable.HookAdd | uc.c:1908-2033 | refused exactly for an instruction or opcode that is not acceptable; else the new hook is at the front or the end of exactly the lists of the set bits of its type, or of list 1 or 16 alone, and of list k alone when the type is 2^k; it has as many references as lists; a refused or unused hook is freed and leaves no trace |
| HookTables.HookTable.PlaceOnly | uc.c:1949-1965 | an instruction or opcode hook goes into the one list of its kind |
| HookTables.HookTable.PlaceByType | uc.c:2002-2032 | the loop over the type ends, has placed the hook in the list of every set bit below the maximum, and frees it when there was none |
| HookTables.HookTable.PlaceHook | uc.c:1934-2032 | the three cases of the type |
| HookTables.SumOfBits | uc.c:2002-2003 | a type is the sum of the powers of two at its set bits |
| HookTables.PowerBit | uc.c:2002-2003 | bit i of 2^k is set if and only if i is k |
| HookTables.WantsPower | uc.c:1934-2003 | a hook of type 2^k wants list k and no other |
| HookLists.OccursIs | uc.c:76-92 | the references of a hook in the lists are the number of lists that hold it |
| HookTables.HookTable.Discard | uc.c:2027-2029 | a hook that is in no list is freed and leaves no trace |
| HookLists.AddingDone | uc.c:2002-2029 | the references of a new hook are its occurrences, and none means that nothing changed |
| HookTables.HookTable.HookDel | uc.c:2036-2061 | the hook is looked for in each linked list, marked, queued once and referenced once more for each list that has it; a handle in no list changes nothing |
| HookTables.HookTable.ClearDeletedHooks | uc.c:1056-1073 | the walk along the queue ends; exactly the marked hooks are freed; the lists hold exactly the others, in order |
| HookLists.LiveIs | uc.c:1056-1073 | which places of a list are kept: those of hooks that are not marked, in the same order |
| HookLists.DeletingStep | uc.c:2048-2057 | one more list looked at: the hook is queued once more when the list has it |
| HookTables.HookTable.DropFromLists | uc.c:1064-1069 | one occurrence of a queued hook leaves the first list that has one |
| HookTables.HookTable.ListClearQueue | uc.c:1072 | the queue is emptied, no hook in use is marked any more, and unmarked hooks are untouched |
| HookTables.HookTable.ListClear | uc.c:562-564 | a list is emptied and each of its hooks loses one reference |
| HookLists.FreeingDone | uc.c:1072 | after clearing the queue no hook in use is marked for deletion |
| HookTables.HookTable.Close | uc.c:559-564 | every hook ever added has been freed exactly once, and every list is empty |
| HookTables.Lifetime | uc.c:1908-2061 | the same for every run of additions, deletions, repeated or stale, and clearings; as many hooks were made as there were additions |
| GListSpec.SortingSorted | glib_compat/glib_compat.c:190-252 | the specified order is sorted |
| GListSpec.SortingStable | glib_compat/glib_compat.c:190-252 | nodes of equal rank keep their order, so it is a stable permutation |
| GListSpec.SortingNodes | glib_compat/glib_compat.c:190-252 | the same nodes, each once |
| GListSort.SortMerge | glib_compat/glib_compat.c:190-223 | relinks two lists into their stable merge; prev is the inverse of next and the first node has no prev |
| GListSpec.MergeStable | glib_compat/glib_compat.c:190-223 | within each rank the merge has first the nodes of the first list, then those of the second, each in order |
| GListSort.FindMiddle | glib_compat/glib_compat.c:236-246 | the slow pointer ends at the last node of the first half |
| GListSort.SortReal | glib_compat/glib_compat.c:225-252 | ends; the nodes are linked in the specified order and no other node is touched |
| GListSort.Sort | glib_compat/glib_compat.c:279-282 | a well-formed list of the same nodes in the specified order, sorted and stable |
| GListOrder.SortList | glib_compat/glib_compat.c:279-282 | for every list in memory: next leads through exactly the same nodes, each once, prev leads back, both ends are NULL; contents and all other nodes are unchanged; ranks ascend, and of two nodes of equal rank the one that came first comes first |
| GListOrder.SameItems | glib_compat/glib_compat.c:190-252 | the specified order keeps the items, and the order of those of equal rank |
| MersenneTwister.NeverStuck | glib_compat/grand.c:351-383 | a generator that does not start in the zero state never reaches it |
| MersenneTwister.StuckBefore | glib_compat/grand.c:351-383 | the zero state can only come from the zero state |
| MersenneTwister.SeededNotStuck | glib_compat/grand.c:106-140 | no seed gives the zero state |
| MersenneTwister.TemperBijective | glib_compat/grand.c:377-380 | tempering is a bijection of 32-bit words, with an explicit inverse |
| MersenneTwister.Dependence | glib_compat/grand.c:65-68 | for every state: exclusive or of d into word 397 goes into word 624 as it is, the lowest bit of word 1 flips it by 0x9908b0df, the top bit of word 0 by 0x40000000 |
| MersenneTwister.OnlyThree | glib_compat/grand.c:359-371 | only words 0, 1 and 397 enter word 624 |
| MersenneTwister.SameRecurrence | glib_compat/grand.c:359-371 | every later word is made in the same way from the 624 before it |
| MersenneTwister.TimesAForm | glib_compat/grand.c:355-365 | the matrix product, by the lowest bit |
| MersenneTwister.MixedIs | glib_compat/grand.c:362-369 | the top bit of one word and the other bits of the next |
| MersenneTwister.TemperLinear | glib_compat/grand.c:377-380 | tempering is linear over exclusive or |
| MersenneTwister.TemperLowBits | glib_compat/grand.c:70-76 | its values at the lower 16 bits, as numbers |
| MersenneTwister.TemperHighBits | glib_compat/grand.c:70-76 | its values at the upper 16 bits, as numbers; with linearity they determine it |
| MersenneTwister.SeedStepIs | glib_compat/grand.c:131-134 | one step of seeding, in numbers |
| MersenneTwister.SeededExample | glib_compat/grand.c:106-140 | the first words of the seed 5489, as numbers |
| GRands.MixingStep | glib_compat/grand.c:362-371 | each of the three regeneration formulas is the recurrence, although half of the array is already overwritten |
| GRands.GRand.SetSeed | glib_compat/grand.c:106-140 | the 624 words of the seed recurrence, and nothing drawn yet |
| GRands.GRand.Regenerate | glib_compat/grand.c:359-374 | the array moves on by 624 words of the recurrence; each place is the recurrence of the old array and of the part already written |
| GRands.GRand.Int | glib_compat/grand.c:351-383 | the tempered next word of the recurrence |
| GRands.GRand.SetSeedArray | glib_compat/grand.c:171-212 | the words of an array-free recurrence of lag 623 with the seed words taken in turn, then the 623 index rounds; each slot holds the last word of the recurrence written to it, the first slot the high bit; not the zero state |
| GRands.KeyingRead | glib_compat/grand.c:182-201 | what a round reads from the overwritten array is what the next word of the recurrence is made of |
| GRands.KeyingStep | glib_compat/grand.c:184-196 | writing that word moves the ring on, across the wrap with its copy into the first slot |
| GRands.KeyingDone | glib_compat/grand.c:171-212 | in the end each slot but the first holds the last word written to it |
| GRands.KeyTermIs | glib_compat/grand.c:171-212 | the recurrence of seeding by an array, in numbers |
| GRands.MixesAre | glib_compat/grand.c:182-201 | the two mixing formulas, with their constants |
| GRands.GRand.MixKeys | glib_compat/grand.c:180-196 | the first loop writes as many words as the longer of state and seed |
| GRands.GRand.MixIndices | glib_compat/grand.c:197-209 | the second loop writes 623 more, going on where the first stopped |
| GRands.GRand.constructor | glib_compat/grand.c:150-155 | a generator seeded with one word |
| GRands.Draw | glib_compat/grand.c:106-383 | for every seed and n the n-th number is the tempered n-th word after the first 624, and no state on the way is the zero state |

## Left out

- Snapshots, copy-on-write regions and context restore; the memory map is modelled at snapshot level 0.
- Allocation of RAM offsets (find_ram_offset, ram_block_add) and the construction of the flat view from the region tree.
- MMIO regions in the memory map (split_mmio_region) and their permissions.
- MemoryMaps.MemoryMap.MemProtect: what the stopped emulation does next, and the flushing of translated code, are not modelled.
- MemoryMaps.MemoryMap.MemWrite: bytes of the host are not part of the map, so what is stored there is not recorded.
- FlatViews.FlatView.Write: RAM is direct for reads and writes alike; read-only RAM, IOMMU translation, the host lock and the byte order in which a device value is stored (ldn_he_p, stn_he_p) are not modelled.
- Dispatch.AddressSpaceDispatch.Translate: does not model IOMMU regions.
- GlobSpecs.SpecNew: a pattern is a NUL-free string of at most a quarter of 2^32 characters, because the largest length is kept in 32 bits.
- HookTables.HookTable.HookAdd: the instruction and opcode validators are flags, addresses of freed hooks are not used again as handles, and the counter of references does not overflow.
- The counters of hooks per type: a repeated deletion before clearing decrements them again, so they are not occurrences.
- Hooked address ranges and the invalidation of translated blocks on deletion.
- HashTables.GHashTable.Remove: does not model the destroy callbacks of the hash table, nor its reference count.
- GTrees.RemoveInternal: the removed node leaves the memory before the balance is restored and not after; the restoring loop is proved not to read it.
- GListSort.Sort: the sort of singly linked lists, which is the same merge without prev, is not modelled.
- g_list_insert_sorted and the other list, array and memory wrappers, which would add easy members only.
- GRands.GRand.SetSeed: the seeding of generator version 20 and the functions that turn words into ranges or doubles are not modelled.
- Translation, TLB, code generation, registers, timers and the remaining uc_ctl requests.
