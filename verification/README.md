# Verified model of the Speedtables core

Speedtables is an in-memory table engine. A table keeps its rows in a hash table by key, in a list of all
rows, and in skip-list indexes whose nodes carry buckets of rows with equal values. A search plans which
index to walk, acts on the rows it finds and may sort or buffer them. One process can share a table with many
readers that take no locks. These modules model that core and prove that it does what it is for.

| module | what it models |
|---|---|
| Options | optional values |
| Preorders | three-way comparison functions and the laws a sort or index needs of them |
| Cells, EpochProtocol, EpochMaster | epoch reclamation of shared memory: 64-bit wrapping cycles, the interleaved steps of master and readers, and the master's functions |
| EpochReaders, EpochReclaims | what readers' steps and the master's bookkeeping amount to over whole runs, and that garbage is reclaimed |
| RowLists | intrusive row lists with a pointer to the pointer before, store by store |
| SkipLists, SkipIndexes | the skip list with buckets: locating, inserting, erasing, walking, and the index operations |
| FieldCompare | the generated field and sort comparisons |
| SearchRules, Searches | what a search must select, and how it is executed |
| IndexedFields, Tables | the generated setters, index upkeep, and the agreement of all of a table's structures |
| TableSearches | searches on a table, and deleting or updating what they find |
| HashTables | the key table with its sixteenfold rebuild |
| QuickSort | the Bentley-McIlroy quicksort |
| BoyerMoore | the substring search |
| Quoting, TabSeparated | URI quoting and tab-separated rows |

How to read it. A C function that updates memory is a method of a class with the fields it updates, or a
method on an array. Its contract ties the new state to a specification function or to a step of a state
machine, and lemmas prove what the source promises about those. Pointers into row lists and skip lists are
addresses, and the memory they lead to is a map from addresses, so a store through a pointer is a map update
and aliasing in the source is aliasing here. The address of a skip-list node is also the address of its
bucket's head, as in the source, where the row pointer is a member of the node. The key table's chains are
sequences of entries. Random node heights and addresses of new nodes are arbitrary values.

In the shared-memory protocol `tick` fields are history that the code does not have: the counter without its
wrap. The master program's duties (a freed block is unlinked by the end of that write, a block is freed once)
are conditions of the events, and `kill(pid, 0)` is a truthful answer to whether a process lives.

Results about the code that its own comments do not tell:

* A section that `read_lock` opens before the first write publishes cycle 0 and is not protected
  (`EpochProtocol.ZeroCycleIsUnprotected`); every section with another cycle is. The `int` that `read_lock` and
  `write_lock` answer does not tell: it is also 0 at every other multiple of 2^32 (`Cells.ZeroAnswers`,
  `Cells.ZeroAnswerInput`), where the section is protected.
* A process that dies inside a section holds the horizon back when its pid is reused before the next scan, until
  the new process reads (`EpochReclaims.ReusedPidHoldsBack`); otherwise a scan finds exactly the oldest cycle of
  a section (`EpochReclaims.UnlockReclaims`, `EpochReclaims.QuietRunReclaimsAll`).
* A buffered search with an offset and no limit acts on nothing (`Searches.BufferedIsSlice`,
  `Searches.OffsetAloneSearches`).
* Dropping a sort because an index walk is in order is wrong for a descending sort unless all values are
  equal (`Searches.WalkOrderSatisfiesSort`, `TableSearches.DescendingSearch`), and on varstring fields the walk
  order and the sort order differ for nulls and for strings that start at or above 0x80
  (`FieldCompare.VarstringWalkOrder`, `FieldCompare.VarstringOrdersDiffer`, `Searches.Search.DroppedTextSort`).
* A separator that contains '%' or a lower-case hex digit leaks into quoted text
  (`Quoting.QuotedTextHasNoSeparator`, `Quoting.LeakingSeparatorInput`).
* An `in` walk shows a row twice exactly when a value that is found is repeated (`SearchRules.ShownOnce`,
  `SearchRules.RepeatedValueInput`). Then a search can report an "infinite search loop" or need a larger buffer
  than it has (`Searches.Search.WalkSkipList`, `Searches.Search.RepeatedValueRunsOut`,
  `TableSearches.RepeatedValueSearch`); a walk without such a repetition never does
  (`Searches.Search.WalkIsRight`).
* An index of depth 0 links rows to nodes that no level has (`SkipIndexes.SkipIndex.InsertAtDepthZero`).

## Model

| member | source | states |
|---|---|---|
| EpochProtocol.RunIsSafe | ctables/shared/shared.c:325-525 | Safety over every interleaving: in no run of reader, master and process steps, the two stores of an attach apart, does a collection deallocate a block that a live reader's open section, published with a cycle other than 0, can still reach, as long as no live reader's slot is too far behind while it is scanned |
| EpochProtocol.EventKeepsInv | ctables/shared/shared.c:325-525 | Every one of the sixteen kinds of step keeps the protocol invariant (slots, the attach under way, sections, queue order, reach, the scan's running oldest reader, the collection cutoff); what each step must do besides is said by the rows of EpochReaders and EpochReclaims |
| EpochProtocol.AttachKeepsInv | ctables/shared/shared.c:408-426 | Both stores of shmattachpid, pid and then cycle, keep the invariant with any reader's step between them |
| EpochProtocol.RunKeepsInv | ctables/shared/shared.c:325-525 | The invariant holds in every state of every run whose earlier scans were in the window |
| EpochProtocol.StoreKeepsInv | ctables/shared/shared.c:431-444 | Publishing a cycle loaded earlier is safe although steps, whole scans included, may have come between load and store |
| EpochProtocol.ScanSlotKeepsInv | ctables/shared/shared.c:492-525 | Reading one slot, in any order with readers' stores, keeps the running oldest cycle at or before every protected section |
| EpochProtocol.FinishScanKeepsInv | ctables/shared/shared.c:366-388 | The horizon and cutoff chosen from the scan leave every block within reach of an open section uncollectable |
| EpochProtocol.CollectKeepsInv | ctables/shared/shared.c:460-488 | Each single pop of the queue keeps the invariant, readers moving in between |
| EpochProtocol.FreeKeepsInv | ctables/shared/shared.c:325-336 | A freed block enters the queue no earlier than the sections that reach it began, and the queue stays ordered |
| EpochProtocol.InvIsSafe | ctables/shared/shared.c:460-488 | The invariant implies that no open section reaches a deallocated block |
| EpochProtocol.RunConserves | ctables/shared/shared.c:325-336 | In every run the freed blocks are, in order, those deallocated followed by those queued: each exactly once |
| EpochProtocol.EventConserves | ctables/shared/shared.c:460-488 | No single step loses, duplicates or reorders garbage |
| EpochProtocol.CollectionIsMaximalPrefix | ctables/shared/shared.c:460-488 | In any queue near the cutoff the blocks freed before it are a prefix, and draining takes exactly those |
| EpochProtocol.RunCollectsMaximalPrefix | ctables/shared/shared.c:460-488 | In every state in which the master collects, of a run whose scans find no live reader's cutoff more than 2^31 - 2002 ticks behind (the window of RunIsSafe less two ticks for each write between scans), the rest of the collection takes exactly the blocks freed before the cutoff, and they are a prefix of the queue |
| EpochProtocol.RunKeepsLimit | ctables/shared/shared.c:366-388 | While a run collects, the cutoff in hand is the one that the horizon then stored stands for |
| EpochProtocol.DrainedIsUncollected | ctables/shared/shared.c:460-488 | Stepwise popping ends with exactly what the uninterrupted loop leaves |
| EpochProtocol.HorizonOnlyAdvances | ctables/shared/shared.c:375-388 | A finished scan moves the horizon exactly when it gains more than the twilight zone, and never back |
| EpochProtocol.RunHorizonAdvances | ctables/shared/shared.c:366-388 | Over such a run the horizon never moves back |
| EpochProtocol.RunStaysNear | ctables/shared/shared.c:366-388 | In such a run the horizon stays near the cycle, because a scan comes every LAZY_GC writes, and the queue near the horizon, because each collection leaves nothing in front of its cutoff |
| EpochProtocol.EventKeepsNear | ctables/shared/shared.c:366-388 | Every single step keeps that |
| EpochProtocol.NearHorizon | ctables/shared/shared.c:366-388 | Whatever such a scan has found, the new horizon is within half the range of `int` of the old one |
| EpochProtocol.RunTicks | ctables/shared/shared.c:349-358 | The counter after any run is a function of the number of write locks alone, 0 being skipped at each wrap |
| EpochProtocol.RunIsSafeWhenFewBehind | ctables/shared/shared.c:349-525 | A run is safe in all its states if, whenever the master scans, no live reader's slot is 2^31 - 64 or more writes behind |
| EpochProtocol.FewBehindIsInWindow | ctables/shared/shared.c:492-525 | A state is in the window when every live reader is fewer than 2^31 - 64 writes behind |
| EpochProtocol.ZeroCycleIsUnprotected | ctables/shared/shared.c:431-444 | A concrete run that meets every other condition and deallocates a block inside an open section, because the section was published with cycle 0, before the first write |
| EpochProtocol.FindSlot | ctables/shared/shared.c:394-402 | pid2reader answers the first slot with the pid, or none exactly when there is none |
| EpochReaders.RunKeepsReaders | ctables/shared/shared.c:394-457 | In every state of every run no two slots carry one pid, a process that has found its slot owns it, and the slot publishes the section's cycle inside a section and nothing outside |
| EpochReaders.RunOutsideIsSilent | ctables/shared/shared.c:448-456 | So read_unlock leaves nothing behind: in every state of a run a process outside a section, which has read before, has cycle 0 in its slot |
| EpochReaders.SectionOpens | ctables/shared/shared.c:431-444 | A reader that has a slot opens a section by load and store: the section has the tick of the load, the slot its cycle, and no other slot changes |
| EpochReaders.SectionCloses | ctables/shared/shared.c:448-456 | read_unlock ends it, leaves its slot silent and every other slot alone |
| EpochReaders.OthersKeepSection | ctables/shared/shared.c:325-525 | No event but the reader's own and its death opens or closes its section |
| EpochReaders.EventProcesses | ctables/shared/shared.c:492-525 | Processes come by starting and go by dying alone |
| EpochReaders.AttachGivesSlot | ctables/shared/shared.c:408-426 | shmattachpid gives a pid that has no slot the first free one, silent, if there is one; no other slot changes |
| EpochReaders.RunKeepsSlots | ctables/shared/shared.c:276-295 | There are 1024 slots in every state of a run, all free at first |
| EpochReaders.ReachesAllSince | ctables/shared/shared.c:325-336 | An open section reaches all that has been linked at any time since it began |
| EpochReaders.LinkedWhileOpenIsInUse | ctables/shared/shared.c:325-525 | Safety in terms of links alone: what was linked at any time of a section, opened with a cycle other than 0, is still in use in every later state of the section |
| EpochReaders.RunFrees | ctables/shared/shared.c:325-336 | In every run the history of frees is that of the calls, in order |
| EpochReaders.RunLinks | ctables/shared/shared.c:325-336 | In every run a block is linked exactly when it has been linked and not unlinked since |
| EpochReaders.RunAccounts | ctables/shared/shared.c:340-344 | In every run every allocation is in use or has been deallocated, each as often as it was made |
| EpochReaders.RunScansEveryThousand | ctables/shared/shared.c:366-373 | In every run every thousandth write_unlock scans, and no other |
| EpochReclaims.ScanFindsOldest | ctables/shared/shared.c:492-525 | A scan from start to end finds the oldest cycle that a live process publishes, exactly, or the map's when none does, and frees the slots of dead processes and no others |
| EpochReclaims.UnlockReclaims | ctables/shared/shared.c:366-388 | The thousandth write_unlock moves the horizon to that cycle if it gains more than 64, and then deallocates every block freed before the cutoff, and no other; otherwise it does neither |
| EpochReclaims.UnlockClears | ctables/shared/shared.c:492-525 | After it exactly the slots of dead processes have been freed |
| EpochReclaims.RunReclaims | ctables/shared/shared.c:366-488 | So it does in every state of every run whose scans are in the narrow window |
| EpochReclaims.QuietRunReclaimsAll | ctables/shared/shared.c:366-488 | With no reader inside a section or about to be, and every live process having read before or having no slot, all garbage of a run goes that was freed before the cutoff of the map's cycle |
| EpochReclaims.ReusedPidHoldsBack | ctables/shared/shared.c:492-525 | A concrete run in which a process dies inside a section and another gets its pid before the next scan: no process is in a section, and yet a scan would find the dead one's cycle |
| Cells.CollectibleIsOlder | ctables/shared/shared.c:460-480 | Within the window, garbage_collect's truncated and wrapped comparison is the true order of freeing times |
| Cells.CollectsInNumbers | ctables/shared/shared.c:460-488 | In numbers: collectible is what was freed more than 64 cycles before the horizon, or more than 65 when 64 before it is a multiple of 2^64 |
| Cells.ProtectionWindow | ctables/shared/shared.c:460-480 | Exactly how far a reader may lag for everything it can reach to be kept: an if-and-only-if bound on wrapped 64-bit cycles truncated to int |
| Cells.AgeTruncates | ctables/shared/shared.c:382-384 | A 64-bit cycle difference stored in an int is the true one up to a multiple of 2^32 |
| Cells.ZeroAnswers | ctables/shared/shared.c:349-358 | The `int` answer for a cycle is 0 exactly when the cycle is a multiple of 2^32 |
| Cells.ZeroAnswerInput | ctables/shared/shared.c:349-358 | After cycle 0xFFFF_FFFF comes 2^32, which is not 0 while the `int` answer for it is |
| Cells.NextTickOfLocks | ctables/shared/shared.c:349-358 | The increment loop's next value, across the wrap that skips 0, is the value after one more write |
| Cells.LocksBehind | ctables/shared/shared.c:349-358 | Fewer than 2^31 - 64 write locks behind is near enough, however often the counter wrapped between |
| EpochMaster.Share.WriteLock | ctables/shared/shared.c:349-358 | The loop on the shared cycle takes exactly the protocol's step and terminates; the cycle is never 0, and the `int` answer, congruent to it, is 0 exactly at multiples of 2^32 |
| EpochMaster.Share.Pid2Reader | ctables/shared/shared.c:394-402 | The slot scan finds the first slot with the pid |
| EpochMaster.Share.AttachReader | ctables/shared/shared.c:408-426 | Attaching is the protocol's two steps; it succeeds exactly when the pid is not 0 and has a slot afterwards |
| EpochMaster.Share.ShmFree | ctables/shared/shared.c:325-336 | The block enters the queue under the current cycle |
| EpochMaster.Share.OldestReaderCycle | ctables/shared/shared.c:492-525 | The loop over all slots is the protocol's scan, and clears the slots of dead processes |
| EpochMaster.Share.GarbageCollect | ctables/shared/shared.c:460-488 | The popping loop is the protocol's collection run to its end |
| EpochMaster.Share.WriteUnlock | ctables/shared/shared.c:366-388 | The whole of write_unlock, run without interruption, is the protocol's sequence of steps |
| EpochMaster.UnlockedByEvents | ctables/shared/shared.c:366-388 | What write_unlock computes is reached by a sequence of enabled protocol steps, each from a state in the window |
| EpochMaster.UnlockedIsSafe | ctables/shared/shared.c:366-388 | After it the invariant still holds, and no open section reaches a deallocated block |
| EpochMaster.Share.constructor | ctables/shared/shared.c:276-295 | The initial map is the protocol's initial state |
| EpochMaster.DrainedKeeps | ctables/shared/shared.c:460-488 | A collection touches nothing but the queue and conserves the blocks |
| BoyerMoore.Matcher.Search | ctables/boyer_moore.c:87-111 | For a needle that is not empty, answers the leftmost offset where the needle occurs byte by byte, up to ASCII case when that is ignored, none exactly when it occurs nowhere, and terminates |
| BoyerMoore.FoldedAlike | ctables/boyer_moore.c:55-62 | Folding makes two bytes equal exactly when they are the same byte or, ignoring case, the two cases of one ASCII letter |
| BoyerMoore.Matcher.MixedCaseInput | ctables/boyer_moore.c:87-111 | The needle "ab" stands at 1 in "xAB" when case is ignored and nowhere when it counts |
| BoyerMoore.Matcher.Mismatch | ctables/boyer_moore.c:95-104 | The backward comparison stops at the last place that differs |
| BoyerMoore.Matcher.constructor | ctables/boyer_moore.c:39-78 | Setup leaves correct bad-character and good-suffix tables of the folded needle |
| BoyerMoore.FoldNeedle | ctables/boyer_moore.c:46-67 | The first setup loop folds the needle and records where each byte stands last before the final position |
| BoyerMoore.LeastShift | ctables/boyer_moore.c:70-77 | The search over shifts finds the least one at which the matched suffix recurs behind a different byte |
| BoyerMoore.LeastShifts | ctables/boyer_moore.c:69-77 | The good-suffix table holds that least shift for every mismatch position |
| BoyerMoore.OccurrenceImpliesMatch | ctables/boyer_moore.c:20-34 | Strong good-suffix rule: a later occurrence forces the matched suffix to recur at that shift behind a different byte |
| BoyerMoore.ShiftIsSafe | ctables/boyer_moore.c:106-107 | Neither table lets the search jump over an occurrence |
| BoyerMoore.ShiftSkipsNothing | ctables/boyer_moore.c:93-107 | The shift max(skip, npos - occ) is forward and passes over no occurrence |
| BoyerMoore.LeastShiftIsPositive | ctables/boyer_moore.c:20-34 | Shifting by nothing never matches, so every shift makes progress |
| QuickSort.QSort | ctables/ctable_qsort.c:105-194 | For every total preorder the segment ends sorted and a permutation of what it was, nothing outside it touched; terminates |
| QuickSort.Round | ctables/ctable_qsort.c:117-192 | One pass of the outer loop: everything before what is left for the next pass is finished for good |
| QuickSort.Partition | ctables/ctable_qsort.c:117-182 | Either the segment is sorted outright, because no element moved, or it is less, equal, greater around the pivot |
| QuickSort.FatPartition | ctables/ctable_qsort.c:140-166 | The four-pointer loop leaves nothing unseen: equal, less, greater, equal; without a swap the segment is unchanged |
| QuickSort.ScanUp | ctables/ctable_qsort.c:144-151 | The left pointer passes everything not above the pivot and sets the equal elements aside |
| QuickSort.ScanDown | ctables/ctable_qsort.c:152-159 | The right pointer passes everything not below the pivot and sets the equal elements aside |
| QuickSort.VecSwap | ctables/ctable_qsort.c:67-85 | Exchanges two disjoint stretches element by element |
| QuickSort.GatherFromLeft | ctables/ctable_qsort.c:176-178 | The first vector swap brings the equal elements at the left end to the middle |
| QuickSort.GatherFromRight | ctables/ctable_qsort.c:179-180 | The second vector swap completes the three-way partition |
| QuickSort.InsertionSort | ctables/ctable_qsort.c:119-126 | The short-segment sort sorts and permutes, on short segments and as the fallback |
| QuickSort.Med3 | ctables/ctable_qsort.c:91-102 | The element chosen lies between the other two |
| QuickSort.FinishMiddle | ctables/ctable_qsort.c:181-192 | After recursing on the lesser part only the greater part is left to do |
| QuickSort.KeepAfterRecursion | ctables/ctable_qsort.c:181-186 | The recursive call leaves the partition and the finished part intact |
| Preorders.ChainLaws | ctables/ctable_qsort.c:105-194 | What the sort may assume of its comparison: strict and weak comparisons chain, equal elements compare alike |
| HashTables.HashTable.Store | ctables/hash/speedtableHash.c:131-201 | Storing answers the entry with that key or links the new one, through any rebuild: exactly a map update |
| HashTables.HashTable.Find | ctables/hash/speedtableHash.c:294-299 | Finding answers exactly what the map holds |
| HashTables.HashTable.Delete | ctables/hash/speedtableHash.c:319-343 | Deleting removes exactly that key |
| HashTables.HashTable.Rebuild | ctables/hash/speedtableHash.c:644-694 | Sixteen times the buckets, same contents, fields still within range |
| HashTables.HashTable.MoveAll | ctables/hash/speedtableHash.c:676-683 | Rehashing chain by chain loses and duplicates nothing |
| HashTables.HashTable.MoveHead | ctables/hash/speedtableHash.c:677-682 | Moving one entry keeps old and new buckets together equal to the map |
| HashTables.HashTable.Lookup | ctables/hash/speedtableHash.c:144-163 | The chain walk decides membership |
| HashTables.HashTable.constructor | ctables/hash/speedtableHash.c:68-93 | The sixteen static buckets represent the empty map |
| HashTables.HashOneMore | ctables/hash/speedtableHash.c:591-630 | The hash of a key and one more character is nine times the hash of the key, plus the character, in 32 bits |
| HashTables.BucketInput | ctables/hash/speedtableHash.c:32-33 | Of sixteen buckets the key "ab" is in number 14 |
| HashTables.PushRepresents | ctables/hash/speedtableHash.c:187-190 | Linking at the head of chain RANDOM_INDEX(hash) extends the represented map |
| HashTables.UnlinkRepresents | ctables/hash/speedtableHash.c:319-343 | Unlinking from the middle of a chain removes one key from the represented map |
| HashTables.LookupIsMap | ctables/hash/speedtableHash.c:151-163 | A key stands in its chain exactly when the map has it |
| HashTables.LevelFits | ctables/hash/speedtableHash.c:659-668 | The fields after n rebuilds fit an int with a usable shift exactly for n up to 6 |
| HashTables.RoomToGrow | ctables/hash/speedtableHash.c:197-199 | A table within the stated number of entries never rebuilds past the last usable level |
| HashTables.EnumerationIsComplete | ctables/hash/speedtableHash.c:399-451 | First/Next show every entry of the map, each once, and nothing else |
| HashTables.HashSearch.Next | ctables/hash/speedtableHash.c:431-451 | One step of the cursor is one step of that enumeration; it ends exactly when nothing remains |
| HashTables.HashSearch.constructor | ctables/hash/speedtableHash.c:400-409 | A new cursor has the whole enumeration before it |
| Quoting.DequoteUndoesQuote | ctables/ctable_io.c:11-175 | URI round trip: dequoting takes back what quoting did, for every NUL-free string, whatever separators and whatever follows |
| Quoting.QuotedOne | ctables/ctable_io.c:46-80 | Quoting leaves a byte alone exactly when it is at least 0x20, not '%', in no separator and, when strict, below 0x80; any other becomes '%' and two hex digits with its value |
| Quoting.QuotedJoin | ctables/ctable_io.c:46-80 | Quoting goes byte by byte |
| Quoting.PlainTextStays | ctables/ctable_io.c:22-45 | A text is its own quotation exactly when all its bytes are of that kind |
| Quoting.HexValues | ctables/ctable_io.c:96-163 | Digits, 'A' to 'F' and 'a' to 'f' are the hex digits, with their values |
| Quoting.EitherCaseInput | ctables/ctable_io.c:117-163 | "%4A" and "%4a" both dequote to the byte 0x4A |
| Quoting.RejectedExactly | ctables/ctable_io.c:117-163 | Strict dequoting rejects exactly the texts with a '%' that two hex digits do not follow |
| Quoting.LenientAccepts | ctables/ctable_io.c:117-163 | Lenient dequoting never rejects |
| Quoting.PlainTextDequotes | ctables/ctable_io.c:117-163 | A text without '%' dequotes to itself |
| Quoting.NoEscapeInput | ctables/ctable_io.c:117-163 | "%z" is kept by lenient dequoting and rejected by strict |
| Quoting.QuotedTextHasNoSeparator | ctables/ctable_io.c:46-80 | Quoted text avoids the separators exactly when they contain neither '%' nor a lower-case hex digit |
| Quoting.LeakingSeparatorInput | ctables/ctable_io.c:46-80 | A newline quoted for the separator `a` becomes "%0a", which contains it |
| Quoting.QuotedTextHasNoControl | ctables/ctable_io.c:46-80 | Quoted text has no control byte, and under strict quoting no byte above 0x7F |
| Quoting.QuoteString | ctables/ctable_io.c:11-89 | The byte loop writes the quoted string within its buffer, and makes no copy exactly when nothing needs quoting |
| Quoting.PutQuoted | ctables/ctable_io.c:57-79 | One character, quoted when needed, with every store in bounds |
| Quoting.CopyDequoted | ctables/ctable_io.c:96-166 | The dequoting loop gives the same text whether it copies or works in place, where writes never overtake reads, and rejects exactly what it should |
| Quoting.OneMoreByte | ctables/ctable_io.c:117-163 | One step of dequoting, over a plain byte or an escape, leaves the result of the whole as it was |
| Quoting.HexRoundTrip | ctables/ctable_io.c:59-60 | Two hex digits give back every byte |
| TabSeparated.RowReadsBack | ctables/gentable.tcl:1944-2032 | A row written and read again gives back its key and every field, with or without key column, for any number of columns |
| TabSeparated.AnyKeyColumnReadsBack | ctables/gentable.tcl:1944-2032 | So does a row whose key stands in any column, when it is read with that key column |
| TabSeparated.FieldsAloneReadBack | ctables/gentable.tcl:1984-2032 | And a row without its key |
| TabSeparated.MissingColumnIsEmpty | ctables/gentable.tcl:1950-2000 | A column that the line does not have reads as empty, as key and as field |
| TabSeparated.WantedAll | ctables/gentable.tcl:2003-2032 | With no field numbered -1 every field is assigned, in order |
| TabSeparated.WantedWithout | ctables/gentable.tcl:2003-2006 | A field numbered -1 might as well not be there |
| TabSeparated.WrittenRowInput | ctables/gentable.tcl:1725-1769 | The key "k" and the fields "a" and "b" are written "k", tab, "a", tab, "b", newline |
| TabSeparated.AppendRow | ctables/gentable.tcl:1725-1769 | The writer's loops produce the joined quoted columns and a newline |
| TabSeparated.ReadKey | ctables/gentable.tcl:1944-1974 | The key is the text of its column |
| TabSeparated.ReadFields | ctables/gentable.tcl:1984-2032 | The field loop assigns every column but the key's, in order, to its field |
| TabSeparated.JoinedColumn | ctables/gentable.tcl:1984-2000 | Splitting what was joined gives back each part |
| TabSeparated.StrstrSkipsText | ctables/gentable.tcl:1984-1995 | The separator is never found inside a quoted column |
| TabSeparated.FieldReadsBack | ctables/gentable.tcl:2010-2025 | Every field column reads back as the string that was written |
| TabSeparated.KeyReadsBack | ctables/gentable.tcl:1944-1974 | The key reads back although the rest of the line stands behind it |
| TabSeparated.FieldsReadBack | ctables/gentable.tcl:1984-2032 | For any place of the key column the whole field loop asks for exactly the assignments that were written |
| TabSeparated.RowIsOneLine | ctables/gentable.tcl:1725-1769 | A written row contains no newline before the one that ends it |
| FieldCompare.CompareIsPreorder | ctables/gentable.tcl:4912-4928 | The generated field compares are total preorders, nulls included; numbers are reals |
| FieldCompare.NumbersCompare | ctables/gentable.tcl:4912-4928 | Numbers compare as numbers |
| FieldCompare.NullsCompare | ctables/gentable.tcl:4912-4928 | Nulls are equal to each other and above everything else |
| FieldCompare.TextsCompare | ctables/gentable.tcl:4969-4980 | Strings that start at or above 0x80 come before all others, otherwise in the order of strcmp; only equal strings are equal |
| FieldCompare.FirstDifferenceDecides | ctables/gentable.tcl:4969-4980 | strcmp: the first byte that differs decides, unsigned |
| FieldCompare.PrefixComesFirst | ctables/gentable.tcl:4969-4980 | strcmp: a proper prefix comes first |
| FieldCompare.TextCompareLaws | ctables/gentable.tcl:4969-4980 | Comparing first characters as signed and the rest with strcmp is still antisymmetric, transitive, and 0 only for equal strings |
| FieldCompare.SortCompareIsPreorder | ctables/gentable.tcl:5169-5195 | Multi-field sort comparison with directions and nulls, null strings that keep their characters included, is a total preorder |
| FieldCompare.SortCompareLaws | ctables/gentable.tcl:5169-5195 | The multi-field sort comparison is antisymmetric and transitive, in both directions |
| FieldCompare.FirstFieldDecides | ctables/gentable.tcl:5169-5195 | Where the sort fields before one tell two rows apart by nothing and that one does, it alone decides |
| FieldCompare.NoFieldDecides | ctables/gentable.tcl:5169-5195 | Rows that no sort field tells apart are equal to the sort |
| FieldCompare.TwoFieldInput | ctables/gentable.tcl:5179-5192 | Sorted by two fields, the row (1, 2) comes before (2, 1) |
| FieldCompare.NumbersSort | ctables/gentable.tcl:948-964 | Number fields sort by number, nulls above, and a direction of -1 turns both |
| FieldCompare.VarstringsSort | ctables/gentable.tcl:973-999 | Varstring fields sort by strcmp of the characters held, null or not, above fields that hold none, and a direction of -1 turns both |
| FieldCompare.KeysSort | ctables/gentable.tcl:948-964 | Keys sort as an index compares them, and a direction of -1 turns that |
| FieldCompare.CompareRows | ctables/gentable.tcl:5169-5195 | The generated loop computes that comparison, of which FirstFieldDecides and NoFieldDecides say what it is |
| FieldCompare.WalkOrderIsSortOrder | ctables/gentable.tcl:948-964 | On number and key fields the ascending sort comparison has the sign of the index comparison |
| FieldCompare.VarstringWalkOrder | ctables/gentable.tcl:973-999 | On varstring fields the two agree exactly when both or neither hold characters and these have the walk's order: for two strings that are not null, when both or neither start at or above 0x80 |
| FieldCompare.VarstringOrdersDiffer | ctables/gentable.tcl:973-999 | Concrete values on which the two orders differ: a string that starts high, a null that holds characters, and no string at all |
| FieldCompare.TextsInWalkOrder | ctables/gentable.tcl:973-999 | Two strings that are not null and in walk order are in ascending sort order exactly when both or neither start at or above 0x80, and in descending order exactly when they are equal or only the first does |
| FieldCompare.WalkedRowsAreSorted | ctables/ctable_search.c:1615-1621 | Rows in walk order are sorted for the sort that the walk lets a search drop |
| RowLists.InsertIsAtomic | ctables/ctable_lists.c:99-131 | At every store of an insertion a reader from the head sees the old list until the last store, then the new one |
| RowLists.InsertKeepsReaders | ctables/ctable_lists.c:99-131 | A reader already inside the list sees the rest of it after every store |
| RowLists.InsertWays | ctables/ctable_lists.c:99-131 | A reader that follows one pointer at a time while the stores of an insertion are made, however its steps and the stores interleave, is shown the old list or the new one |
| RowLists.RemoveIsAtomic | ctables/ctable_lists.c:40-60 | At every store of a removal a reader sees the old list or the list without the row |
| RowLists.RemoveKeepsReaders | ctables/ctable_lists.c:40-60 | A reader standing on the removed row, or behind it, still continues into the rest of the list and ends |
| RowLists.RemoveWays | ctables/ctable_lists.c:40-60 | So is a reader during a removal, wherever it stands, in front of the removed row too |
| RowLists.InsertKeepsInv | ctables/ctable_lists.c:99-131 | An insertion updates one list of the memory and no other; each linked row stays in exactly the list its head names |
| RowLists.RemoveKeepsInv | ctables/ctable_lists.c:66-95 | A removal takes exactly one row from exactly one list of the memory |
| RowLists.InOneList | ctables/ctable_lists.c:99-131 | A linked row is in one list only, the one its head names |
| RowLists.LinkedIsListed | ctables/ctable_lists.c:66-95 | A row's prev is set exactly when it is in a list |
| RowLists.RowLinks.InsertHead | ctables/ctable_lists.c:99-131 | The stores, in order, and the resulting list |
| RowLists.RowLinks.Remove | ctables/ctable_lists.c:66-95 | The stores, in order, the resulting list, and "might be the last one" exactly when nothing followed |
| RowLists.RowLinks.RemoveStores | ctables/ctable_lists.c:66-95 | The raw stores through next, prev and the pointer to a pointer |
| RowLists.RowLinks.ListInit | ctables/ctable_lists.c:14-20 | A new head is an empty list; the others are untouched |
| SkipLists.CutHere | ctables/skiplists/jsw_slib.c:149-169 | In an ascending level two comparisons place a key among all nodes |
| SkipLists.LinkOne | ctables/skiplists/jsw_slib.c:459-463 | Building one skip link inserts the node into that level's chain behind its cut |
| SkipLists.RaiseOne | ctables/skiplists/jsw_slib.c:459-463 | Each pass of the link-building loop leaves all levels linked, the new node in those already built |
| SkipLists.RaisedLevel | ctables/skiplists/jsw_slib.c:452-463 | With its links built the node keeps every level ascending and a sublist of the one below, also when the height grows |
| SkipLists.UnlinkOne | ctables/skiplists/jsw_slib.c:488-493 | Redirecting one link takes the node out of that level |
| SkipLists.LowerOne | ctables/skiplists/jsw_slib.c:488-493 | Each pass of the erase loop leaves all levels linked |
| SkipLists.LoweredLevel | ctables/skiplists/jsw_slib.c:488-497 | Out of all its levels, the node has left a skip list behind |
| SkipLists.FoundAtCut | ctables/skiplists/jsw_slib.c:477-493 | An equal node stands directly behind the cut of every level it is in |
| SkipLists.CompareLaws | ctables/skiplists/jsw_slib.c:149-169 | The order laws the skip list needs of the field compares |
| SkipIndexes.SkipIndex.Locate | ctables/skiplists/jsw_slib.c:149-169 | Descending from curh, fix[] receives for every level the last node below the key; all accesses in bounds |
| SkipIndexes.SkipIndex.LocateEqual | ctables/skiplists/jsw_slib.c:421-425 | The node behind the cut is equal exactly when any node of the list is |
| SkipIndexes.SkipIndex.Find | ctables/skiplists/jsw_slib.c:319-329 | Answers an equal node exactly when there is one, and leaves the current link at the first node not below the key |
| SkipIndexes.SkipIndex.FindEqualOrGreater | ctables/skiplists/jsw_slib.c:337-355 | The current link is the first node not below the key, or NULL |
| SkipIndexes.SkipIndex.FindLast | ctables/skiplists/jsw_slib.c:360-375 | Ends at the node with the highest key, or the header of an empty list |
| SkipIndexes.SkipIndex.Reset | ctables/skiplists/jsw_slib.c:568-571 | The current link is the first node |
| SkipIndexes.SkipIndex.Next | ctables/skiplists/jsw_slib.c:595-601 | The current link moves one node on; answers whether there is one |
| SkipIndexes.SkipIndex.CurrentRow | ctables/skiplists/jsw_slib.c:585-589 | NULL exactly at the end of the list; otherwise a row whose value compares equal to the current node's key, the first of its bucket |
| SkipIndexes.SkipIndex.constructor | ctables/skiplists/jsw_slib.c:234-279 | A new list, of any depth, is empty and satisfies the invariant |
| SkipIndexes.SkipIndex.InsertLinked | ctables/skiplists/jsw_slib.c:421-468 | For any node height: the row joins the front of an equal node's bucket or a new node's, refused exactly when unique and present; the invariant is kept |
| SkipIndexes.SkipIndex.InsertAtDepthZero | ctables/skiplists/jsw_slib.c:421-468 | In a list of depth 0, whatever has been inserted before, a row is linked to a node that no level gets: nothing ever follows the header, so no walk finds a row |
| SkipIndexes.SkipIndex.ValidIsDepthZero | ctables/skiplists/jsw_slib.c:234-279 | A valid list of depth 0 is such a list |
| SkipIndexes.SkipIndex.LinkNode | ctables/skiplists/jsw_slib.c:440-463 | A node of any height from 1 to maxh-1 is linked at its place; the height grows by at most one |
| SkipIndexes.SkipIndex.BuildLinks | ctables/skiplists/jsw_slib.c:459-463 | The loop over fix[] puts the node into every level below its height |
| SkipIndexes.SkipIndex.Erase | ctables/skiplists/jsw_slib.c:477-512 | The node whose key the row has goes, exactly when there is one, with every link to it, and the invariant is kept |
| SkipIndexes.SkipIndex.EraseNode | ctables/skiplists/jsw_slib.c:480-503 | Unlinking, freeing and lowering the height leave the list without exactly that node |
| SkipIndexes.SkipIndex.Unlink | ctables/skiplists/jsw_slib.c:488-493 | The loop that stops at the first level the node is not in has removed it from all levels |
| SkipIndexes.SkipIndex.LowerCurh | ctables/skiplists/jsw_slib.c:499-505 | The height ends at that of the highest node |
| SkipIndexes.ShapeRaised | ctables/skiplists/jsw_slib.c:452-463 | The skip-list invariant survives an insertion |
| SkipIndexes.ShapeLowered | ctables/skiplists/jsw_slib.c:488-497 | The skip-list invariant survives an erasure |
| SkipIndexes.SkipIndex.RemoveRow | ctables/ctable_search.c:2820-2873 | Exactly one row leaves its bucket; the node goes exactly when the bucket is left empty, so no node has an empty bucket |
| SkipIndexes.SkipIndex.EraseEmptied | ctables/ctable_search.c:2846-2856 | Putting the row back into the emptied head makes locate find that very node |
| SkipIndexes.SkipIndex.InsertRow | ctables/ctable_search.c:2899-2955 | Exactly that row enters the index |
| SkipIndexes.SkipIndex.BucketsPartition | ctables/skiplists/jsw_slib.c:421-468 | The buckets partition the linked rows by compare-equality |
| SkipIndexes.LinkedAfterRemoval | ctables/ctable_search.c:2820-2873 | The linked rows after a removal are those before it but the one |
| SkipIndexes.LinkedAfterInsertion | ctables/ctable_search.c:2899-2955 | The linked rows after an insertion are those before it and the one |
| SkipIndexes.SkipIndex.StoreValues | ctables/gentable.tcl:638-640 | A stored value of a row outside the index disturbs no bucket |
| SearchRules.AcceptsValue | ctables/gentable.tcl:5339-5406 | One turn of the generated comparison decides the component, `in` lists included; what that selects is said by the next rows |
| SearchRules.NumberTests | ctables/gentable.tcl:5339-5406 | What each of the eight tests selects among numbers, in terms of the numbers |
| SearchRules.TextTests | ctables/gentable.tcl:5339-5406 | What each test selects among strings, in terms of the strings and their order |
| SearchRules.NullTests | ctables/gentable.tcl:5339-5406 | Against values, a null field is selected by `!=`, `>=` and `>` alone |
| SearchRules.NullAgainstNull | ctables/gentable.tcl:5339-5406 | Against null, by `=`, `<=` and `>=` alone |
| SearchRules.UnequalIsComplement | ctables/gentable.tcl:5375-5379 | `!=` selects exactly what `=` does not, whatever the values |
| SearchRules.SelectedMeans | ctables/gentable.tcl:5330-5407 | A row is selected exactly when what is no component lets it through and every component accepts its value |
| SearchRules.UnequalInput | ctables/gentable.tcl:5375-5379 | Of two rows with 5.0 and 6.0, `!= 5` selects the second alone, and not that when something else keeps it out |
| SearchRules.SearchCompare | ctables/gentable.tcl:5330-5407 | The loop accepts a row exactly when all components but the one already searched do |
| SearchRules.BetweenIsAccepted | ctables/ctable_search.c:1145-1167 | The scanning-rules table is right: between its start and its end lie exactly the values that the comparison accepts |
| SearchRules.RulesAreMonotone | ctables/ctable_search.c:1145-1167 | Along an ascending level start and end conditions switch on once |
| SearchRules.EqualValuesAcceptAlike | ctables/gentable.tcl:5339-5406 | A whole bucket is accepted or rejected together |
| SearchRules.RangeIsRight | ctables/ctable_search.c:1759-1805 | The nodes from the walk's start to its end are exactly the accepted ones |
| SearchRules.RangeIsAccepted | ctables/ctable_search.c:1759-1805 | From start to end the walk visits the accepted nodes of the level, all of them, in the level's order |
| SearchRules.InNodesAreRight | ctables/ctable_search.c:1808-1835 | The nodes found for the values of an `in` list are exactly the accepted ones, each once |
| SearchRules.InNodesRepeat | ctables/ctable_search.c:1808-1835 | They are found at most once exactly when no value that has a node is repeated later in the list |
| SearchRules.RowsOfRepeat | ctables/ctable_search.c:1895-1940 | Rows are shown at most once exactly when nodes are visited at most once |
| SearchRules.ShownOnce | ctables/ctable_search.c:1807-1944 | The walk of a complete index shows a row twice exactly when its component is an `in` list that repeats a value which is found |
| SearchRules.RepeatedValueInput | ctables/ctable_search.c:1808-1835 | Any complete index of one row with the value 5.0, and `in {5.0 5.0}`: the walk visits its node and shows its row twice |
| SearchRules.OneRowIndex | ctables/ctable_search.c:2899-2955 | A complete index of one row has one node, with that row alone in its bucket |
| SearchRules.SkipWalkAnswers | ctables/ctable_search.c:1807-1944 | A skip walk with its component skipped selects exactly the rows that testing all components on all rows selects, each once |
| SearchRules.RightNodesShow | ctables/ctable_search.c:1895-1940 | The buckets walked hold exactly the rows that the component accepts; there are no more nodes than rows |
| SearchRules.ScanAnswers | ctables/ctable_search.c:1650-1672 | The list scan selects the same rows |
| SearchRules.MatchingInOrder | ctables/ctable_search.c:1895-1940 | Selecting keeps the order of the walk |
| SearchRules.RowsOfInOrder | ctables/ctable_search.c:1895-1940 | A walk over ascending nodes shows its rows in ascending order |
| SearchRules.PlanAnswers | ctables/ctable_search.c:1555-1600 | The walk of any usable component that visits no node twice answers the query, and visits no more nodes than the table has rows |
| SearchRules.PlanRange | ctables/ctable_search.c:1759-1948 | The walk of a range visits one stretch of the level and shows its matches in the field's order |
| Searches.BufferedIsSlice | ctables/ctable_search.c:931-999 | Buffer-then-slice acts on matches[offset .. min(offset+limit, n)] exactly when there is a limit, no offset, or nothing behind the offset |
| Searches.Search.ModesAgree | ctables/ctable_search.c:931-999 | Two searches with the same query and matches in the same order, buffered in any two ways, act on, delete and count the same rows whenever there is a limit, no offset, or nothing behind the offset; for one that streams and one that defers, only then |
| Searches.Search.SearchBothWays | ctables/docs/manual/ch05.html:350-351 | Performing a search without a sort under two -buffer options: both find the same matches in the same order, so they act alike but for an offset without a limit |
| Searches.Search.FinishedIsSlice | ctables/ctable_search.c:931-999 | In those cases what a finished search of any mode acted on, deleted and counted is the slice |
| Searches.OffsetAloneIsDropped | ctables/ctable_search.c:955-957 | A query that lets exactly two rows through, with offset 1 and no limit: the slice of its matches is the second, what a buffered search acts on is nothing |
| Searches.OffsetAloneSearches | ctables/ctable_search.c:955-957 | That query performed twice on the list of the two rows: streaming acts on the second, deferring on none |
| Searches.FilledIsEnough | ctables/ctable_search.c:1106-1112 | Stopping at the limit changes neither slice |
| Searches.FilledExactly | ctables/ctable_search.c:1106-1112 | The limit has been reached exactly when no further matches would change the slice |
| Searches.SliceHas | ctables/ctable_search.c:965-999 | Place k of the slice is place offset + k of the matches, and it has as many as there are behind the offset, up to the limit |
| Searches.SliceExtends | ctables/ctable_search.c:1078-1112 | Acting on each match behind the offset as it comes builds up the slice |
| Searches.Search.CompareRow | ctables/ctable_search.c:1015-1123 | One row: matched, buffered or acted on as the mode says, a place in the buffer being needed only for a match; BREAK exactly when the limit is reached |
| Searches.Search.WalkList | ctables/ctable_search.c:1895-1940 | Following the row links shows each row of the list once, early exit included |
| Searches.Search.StartWalk | ctables/ctable_search.c:1759-1795 | Every start rule leaves the current link at the first accepted node |
| Searches.Search.NextNode | ctables/ctable_search.c:1808-1893 | The next node of the plan, or the end exactly when the plan is exhausted |
| Searches.Search.FindNextListed | ctables/ctable_search.c:1811-1835 | The inner loop finds the next listed value that has a node |
| Searches.Search.Turn | ctables/ctable_search.c:1807-1944 | One turn of the walk's loop: one node of the plan and all its rows; it ends the walk exactly when the limit is reached or the plan exhausted |
| Searches.Search.WalkSkipList | ctables/ctable_search.c:1807-1948 | The matches are those among the rows that the visited nodes show, in order; "infinite search loop" is reported exactly when the walk visits more nodes than the table has rows and the limit does not stop it before |
| Searches.Search.WalkIsRight | ctables/ctable_search.c:1804-1948 | A walk that visits no node twice never runs out, fits the buffer, and answers the query |
| Searches.Search.WalkIsInOrder | ctables/ctable_search.c:1807-1944 | The matches of a range walk are in the order of its field |
| Searches.Search.RepeatedValueRunsOut | ctables/ctable_search.c:1804-1948 | Any table of one row with the value 5.0 and a complete index, and `in {5.0 5.0}`, unlimited: in every mode the loop runs out, and a buffer would need more places than it has |
| Searches.Search.WalkTableList | ctables/ctable_search.c:1650-1672 | The matches are those among all rows in the list's order |
| Searches.Search.PrepareTransactions | ctables/ctable_search.c:1245-1278 | The mode is that, for every combination of counting, transaction, sort and -buffer, and a buffer has as many places as the table has rows |
| Searches.Search.Mode | ctables/ctable_search.c:1245-1278 | A search defers exactly when it has actions and a sort left or -buffer 1, and does without a buffer exactly when it has no transaction and is counting or has neither a sort left nor a -buffer option |
| Searches.Search.PostSearch | ctables/ctable_search.c:931-1008 | The actions taken, the rows of the transaction and the count reported, in each of the three modes; a deferred sort leaves a sorted permutation of the matches, anything else the matches in order |
| Searches.Search.SortTable | ctables/ctable_search.c:959-961 | The buffer ends sorted by the requested fields, the first of them first (SortedMeans), and a permutation of the matches |
| Searches.Search.PerformTransaction | ctables/ctable_search.c:828-890 | The transaction touches exactly the slice of the buffer (what it does to them: TableSearches.DeleteRows and UpdateRows) |
| Searches.Search.PerformSearch | ctables/ctable_search.c:1295-2005 | End to end, whatever index the plan picks: actions, transaction and count are those of the slice of a permutation of what is found. With actions and a sort that is not dropped, that permutation and the rows acted on are sorted; otherwise it is the walk's own order. It runs out exactly as WalkSkipList says, and when no node is visited twice it does not, and what is found answers the query |
| Searches.Search.SourceIsRight | ctables/ctable_search.c:1295-2005 | A list scan, and a walk that visits no node twice, answer the query, do not run out and fit the buffer |
| Searches.Search.DroppedSort | ctables/ctable_search.c:1615-1621 | What a search finds whose sort on a number or key field is dropped is sorted exactly when the sort is ascending or all values are equal |
| Searches.Search.DroppedTextSort | ctables/ctable_search.c:1615-1621 | What a search finds whose sort on a varstring field is dropped, none of it null: sorted ascending exactly when all or none start at or above 0x80, and descending exactly when those that do are equal and those that do not are equal |
| Searches.WalkOrderSatisfiesSort | ctables/ctable_search.c:1615-1621 | On a field whose walk and sort order agree on the rows, as they do on number and key fields, dropping a one-field sort on the walked field is right exactly when it is ascending or all values are equal |
| Searches.WalkOrderSatisfiesTextSort | ctables/ctable_search.c:1615-1621 | Dropping a one-field sort on a walked varstring field without nulls is right exactly as DroppedTextSort says |
| Searches.DescendingSortIsLost | ctables/ctable_search.c:1615-1621 | Concrete rows in the order of an ascending walk that a dropped descending sort leaves unsorted |
| Searches.RowCompareIsPreorder | ctables/ctable_search.c:959-961 | The comparison handed to the sort is a total preorder on rows |
| Searches.SortedMeans | ctables/ctable_search.c:959-961 | Of two sorted rows the earlier is not behind in the first sort field that tells them apart |
| Searches.TwoFieldSortInput | ctables/ctable_search.c:959-961 | Two rows sorted by two fields: one order is sorted, the other is not |
| IndexedFields.IndexedField.Set | ctables/gentable.tcl:627-643 | The setter of a nullable indexed field leaves the very value set, or null when that was set; it does nothing when it is unchanged, and the row is in a live index afterwards whenever it changed |
| IndexedFields.IndexedField.SetNull | ctables/gentable.tcl:3579-3597 | Setting to null moves the row to the null bucket |
| IndexedFields.IndexedField.Unindex | ctables/gentable.tcl:492-501 | The row is out of the index before the first store, and is not removed twice |
| IndexedFields.IndexedField.IndexDefault | ctables/gentable.tcl:2897-2906 | A field that was not set joins the index with its default; one that was is left alone |
| IndexedFields.IndexedField.RemoveFromIndex | ctables/ctable_search.c:2820-2873 | With or without a live index, linked or not |
| IndexedFields.IndexedField.InsertIntoIndex | ctables/ctable_search.c:2899-2955 | With or without a live index |
| IndexedFields.IndexedField.CreateIndex | ctables/ctable_search.c:2959-3014 | The new index holds every row of the table; an existing one is left as it is |
| IndexedFields.IndexedField.InsertAll | ctables/ctable_search.c:2998-3011 | The walk of the main list inserts each row once |
| IndexedFields.IndexedField.DropIndex | ctables/ctable_search.c:2707-2732 | No skip list, and every row's links cleared, whatever they pointed to |
| IndexedFields.IndexedField.ClearAll | ctables/ctable_search.c:2727-2731 | The clearing walk reaches every row |
| IndexedFields.IndexedField.DeleteRow | ctables/gentable.tcl:2969-2977 | The deleted row is in no index and its field is gone |
| Tables.Table.Store | ctables/gentable.tcl:1976-2051 | Creating or updating a row by key and a list of fields: the whole table agrees with itself afterwards, the row stands under the key and every other key where it did, live indexes stay live; each field of the row shows the last value set to it, a field that is not named keeps what it had or in a new row has its default, and no other row has changed |
| Tables.Table.FindOrCreate | ctables/gentable.tcl:1405-1482 | A new key gets a new row at the front of the list with default fields; an old key its row; all other keys keep theirs |
| Tables.Table.StoreRow | ctables/gentable.tcl:1450-1458 | Key table, list of all rows and count move together |
| Tables.Table.Set | ctables/gentable.tcl:694-742 | A set on one field keeps the agreement of all structures; the field shows what was set, and no other field or row has changed |
| Tables.Table.SetNull | ctables/gentable.tcl:3579-3597 | Setting one field to null keeps the agreement of all structures and changes one value |
| Tables.Table.SetFields | ctables/gentable.tcl:1984-2031 | Any sequence of sets, on old rows and on new ones not yet indexed, keeps the agreement and the live indexes; each field shows the last value set to it, fields not named keep theirs, and no other row has changed |
| Tables.AllSetShows | ctables/gentable.tcl:1984-2031 | Sets one after another come to the last one of each field |
| Tables.AddedDefaults | ctables/gentable.tcl:1405-1482 | A new row has every field's default, and the other rows keep theirs |
| Tables.Table.IndexDefaults | ctables/gentable.tcl:2871-2915 | Afterwards every index that was live still is, and holds the new row |
| Tables.Table.Delete | ctables/ctable_search.c:2877-2891 | The row leaves the list, every index, the key table and the count, and nothing else does: the others keep their order, values and keys, and live indexes stay live |
| Tables.WithoutIsExcept | ctables/ctable_search.c:2880-2881 | Taking out one place of a list is taking out the row that stands there |
| Tables.Table.Unlist | ctables/ctable_search.c:2880-2881 | The row leaves the list of all rows |
| Tables.Table.Unhash | ctables/gentable.tcl:2969-2977 | Its key leaves the key table, and the count follows |
| Tables.Table.CreateIndex | ctables/ctable_search.c:2959-3014 | Creating an index keeps the agreement, with the new index complete; an index that is there, the other indexes and all values stay |
| Tables.Table.DropIndex | ctables/ctable_search.c:2707-2732 | Dropping an index keeps the agreement, the other indexes and all values |
| Tables.Table.KeyTableAgrees | ctables/gentable.tcl:1450-1458 | The key table's rows are the list's rows, each once, and count, list length and number of keys are one number |
| Tables.Table.IndexAgrees | ctables/ctable_search.c:2820-2955 | Each live index's linked rows are the table's rows, and its buckets partition them by compare-equality |
| Tables.Table.IndexIsSearchable | ctables/ctable_search.c:1755-1948 | Each live index meets what a search walk asks of it |
| Tables.KeyCount | ctables/gentable.tcl:1450-1458 | There are as many keys as rows |
| TableSearches.TableIsSource | ctables/ctable_search.c:1755-1948 | A table that agrees with itself gives a search all it asks for, on its row list and on every live index |
| TableSearches.SearchTable | ctables/ctable_search.c:1295-2005 | A search of a table moves at most the cursor of the walked index, leaves the table otherwise as it was, and ends as PerformSearch says: its mode, the order or sort of what it found, and what it acted on |
| TableSearches.SearchAndDelete | ctables/ctable_search.c:837-847 | `-delete`: exactly the rows of the slice, of the sorted answer when a sort is asked for and else of the answer in walk order, leave the table; list order, keys, values and live indexes of the others stay and the table still agrees with itself; without limit and offset the rows left are exactly those not selected, and searching again would select none |
| TableSearches.DeleteRows | ctables/ctable_search.c:837-847 | Deleting rows one after another takes exactly those from list, indexes, key table and count; live indexes stay live |
| TableSearches.SearchAndUpdate | ctables/ctable_search.c:849-890 | `-update`: exactly the rows of the slice, of the sorted answer when a sort is asked for and else of the answer in walk order, are set: each of their fields shows the last value set to it, fields not named and all other rows keep theirs; keys and live indexes stay and the table still agrees with itself |
| TableSearches.UpdateRows | ctables/ctable_search.c:876-885 | Updating rows one after another, though each moves in the indexes: every one shows what was set, the others keep their values, and live indexes stay live |
| TableSearches.SetsAreLocal | ctables/ctable_search.c:876-885 | Setting fields of one row depends on its values alone and changes no other row |
| TableSearches.RepeatedValueSearch | ctables/ctable_search.c:1804-1948 | From an empty table: an index is created, a row stored, and a search for `in {5.0 5.0}` ends in "infinite search loop" |
| TableSearches.DescendingSearch | ctables/ctable_search.c:1615-1621 | From an empty table: an index is created, rows with 1.0 and 2.0 stored, and a search by that field that is to sort it descending acts on them in ascending order |
| TableSearches.OneRowTable | ctables/gentable.tcl:1976-2051 | An index created on an empty table and a row then stored: the index is live and the table holds that row with that value |

## Left out

- EpochProtocol.RunIsSafe: promises nothing for a section that published cycle 0, for which it is false, and nothing beyond the window in which int arithmetic on cycles is exact. A reader calls read_lock only after shmattachpid has answered for its pid: it learns what to map from that answer (ctables/command-body.c-subst:620-628).
- EpochProtocol.RunCollectsMaximalPrefix: scans that find a reader's cutoff more than 2^31 - 2002 ticks behind, though still in the window of RunIsSafe, where the new horizon can be out of the range of `int` from the old one. Safety does not need it.
- BoyerMoore.Matcher.Search: empty needles, for which the source compares the byte before the needle, and haystacks of 2^32 bytes and more, where the unsigned position would wrap; lengths from Tcl are ints.
- HashTables.HashTable.Store: more than 805306367 entries, beyond which a rebuild would overflow its fields.
- Searches.Search.PerformSearch: takes the planner's choice as given, since any usable choice answers the query; it does not say which choice is best. A buffered walk of an `in` list that repeats a value must fit the buffer, which the source does not see to.
- Searches.Search.WalkSkipList: buffered walks whose matches, counted with repetition, do not fit the buffer; the source then stores behind its end.
- Searches.BufferedIsSlice: offset plus limit is unbounded here and an int in the source.
- Tables.Table.Store: a field with a live index that is set twice while its row is being created, which makes the source panic on a double insertion, and key tables at the limit given for HashTables.HashTable.Store.
- Tables.Table.StoreRow: key tables at that limit.
- QuickSort.VecSwap: byte-wise swapping of elements that are not machine words, and the int conversion of lengths in swapfunc.
- SkipIndexes.SkipIndex.InsertLinked: shared readers that walk while a node is linked; links are built from the top level down, so such walks have no snapshot to speak of.
- IndexedFields.IndexedField.CreateIndex: a depth of 0, with which the new index would find no row (see SkipIndexes.SkipIndex.InsertAtDepthZero), and negative depths.
- Tables.Table.CreateIndex: the same depths.
- FieldCompare.CompareIsPreorder: NaN, which no order includes, and infinities in floating-point fields; numbers are reals here.
- TabSeparated.AppendRow: null strings and field types that are not quoted; every field is a quoted string here.
- TabSeparated.ReadFields: null strings and field types that are not quoted, as for AppendRow. When strict dequoting rejects a field the model stops; the source goes on with the length -1 (ctables/gentable.tcl:2010-2025).
- TabSeparated.ReadKey: key column -1, where the source numbers the rows itself. When strict dequoting rejects the key the model stops; the source ignores that and uses what has been copied so far (ctables/gentable.tcl:1963).
- TableSearches.SearchAndDelete: walks of `in` lists that repeat a found value, whose rows the source would delete twice.
- TableSearches.SearchAndUpdate: the same walks, and parsing the -update list and its failures.
- IndexedFields.IndexedField.Set: the flag that ends nullness is stored before the value in the source, with no comparison in between; here both are one store. Out-of-memory and conversion errors are not modelled.
- Tables.Table.FindOrCreate: the preallocated row kept from an earlier call; here a row is initialised when it is created.
- Tables.Table.Delete: the row's memory is given up field by field before its hash entry is unlinked, in the source after.
- The store to the bucket head after its node is erased (ctable_search.c:2856), which writes freed memory.
- Unique violations and failed index builds beyond the refusal itself: the row stays unindexed or half linked.
- Setting the key field of an existing row, `reset`, the `char` setter and the setters of the other field types.
- Hash walks for `=` and `in` on the key, match comparisons, and index walks for anchored patterns; rows they let through are a set in a query.
- Search actions that answer BREAK, RETURN or ERROR, polling, cursors and restarts of readers' searches.
- Reader detach and unmapping, the error path of a reader without a slot beyond its answer, and the atomicity of the master's own store to a dead reader's slot.
- Backslash quoting, octal escapes and separators that are empty.
- Index size as a row count: it grows with each row but shrinks with each node.
- Tcl objects, channels, sockets, the server, the client library, database import and the shared-memory allocator.
