# A verified model of xbsv's algorithms and protocols

xbsv joins software and Bluespec hardware: a code generator produces C proxies and wrappers
for hardware interfaces, a driver allocates memory that hardware reaches through a page
table, and example applications run algorithms and protocols across the two sides. This
project models seven of those parts in Dafny and proves what each of them promises, for
every input or every run.

- **Longest common subsequence** (`Hirschberg.dfy`). The full table, the two-row form and the
  divide-and-conquer reconstruction, against a definition of subsequence that knows nothing
  of tables. The reconstruction returns a longest common subsequence, in at most 3·|A|·|B|
  cells, and it returns at all exactly when A is non-empty or B is empty. The comment at
  `hirschberg.py:5` gives the recursion depth in terms of n; it is logarithmic in |A|.
- **Affine-gap alignment** (`Gotoh.dfy`). Three matrices, two linear-space forms and the
  midpoint scan, against the least cost over all edit scripts, where a script pays g + h·k
  for each maximal run of k insertions or k deletions. Costs are counted in half units
  (g = 4, h = 1, a substitution 2); every value the code computes is a multiple of one half.
- **Message packing** (`Bits.dfy`, `Packing.dfy`, `Demarshal.dfy`, `Members.dfy`,
  `Adapter.dfy`, `MessageLink.dfy`). The generator's layout of fields in 32-bit words, the C
  code it emits for both directions, and the hardware serialiser and deserialiser. A call's
  parameters leave the deserialiser as the packed Bluespec struct; an indication's fields
  are restored from the words of the serialiser.
- **Scatter-gather buffers** (`PortalMem.dfy`, `SgTable.dfy`). The greedy allocator over an
  oracle that may refuse any request, three walks of the list against one flat view, the
  compressed border table, and the hardware pipeline that reads it.
- **Morris-Pratt search** (`MorrisPratt.dfy`). Border and failure tables, and the counting
  search against the largest number of disjoint occurrences. The builders read the pattern
  one cell further than the search does; the model says what the search then counts, and
  gives exactly the needles for which it counts right on every text when one pointer serves
  both, as in `teststrstr.cpp`.
- **Command and status rings** (`RingPointers.dfy`, `Ring.dfy`). The driver and a
  nondeterministic hardware peer as one state machine, with every run of both, and a way to
  finish from every reachable state.
- **Simulator socket and AXI writes** (`BsimSocket.dfy`, `AxiWrite.dfy`). Two protocols as
  state machines over their steps, with every interleaving, and neither ever stuck.

Code that updates state in place is modelled by classes and array methods, each proved
against a function of the old state; the theorems are lemmas about those functions.
`Reversal.dfy` holds the reversal of sequences. Outside influences are parameters: the page
allocator is a function from request number and order to an answer, the pointer that the
hardware returns is an argument, and the order of steps is an arbitrary sequence of actions.

Things a reader of the code may not expect, each stated by a member of the model:

- `hirschbergalgc` recurses for ever on an empty A with a non-empty B (`ReturnsIff`).
- The debugger's walk in `custom_vma_access` ignores `vm_pgoff` and keeps its offset in an
  int, so it shows another page than the user's mapping unless the mapping starts at the
  beginning and the byte is below 4 GiB (`ThreeViews`, `DebugIgnoresOffset`, `DebugWraps`).
- A failure table built on the pointer that the search uses makes the search start again
  after every mismatch (`SharedFall`). It misses "aab" in "aaab" (`SharedPointerFails`), and
  counts right for exactly the needles of `SharedPointerSafeIff`.
- The driver's assertion that a completion is free fails exactly when a command is sent
  while 1023 are unfinished (`FreeCount`).
- The zero that ends a list of 256 entries falls on the next list's first slot (`SendBuffer`).
- `gotohb` leaves 0 in DD[0], `gotohb2` copies CC[0] there (`LinearSpace`, `LinearSpaceFrom`).
- The 8-bit list index of the page table wraps beyond 256 entries (`IndexRightIff`).

## Model

| member | source | states |
|---|---|---|
| Hirschberg.SubsequenceIffPositions | examples/maxcommonsubseq/hirschberg.py:7-10 | a subsequence is a choice of increasing positions, in both directions: the reference definition that the results below use |
| Hirschberg.NoneLonger | examples/maxcommonsubseq/hirschberg.py:20-26 | no common subsequence is longer than the recurrence value |
| Hirschberg.SomeAttains | examples/maxcommonsubseq/hirschberg.py:20-26 | some common subsequence is as long as the recurrence value |
| Hirschberg.AlgorithmA | examples/maxcommonsubseq/hirschberg.py:12-26 | every cell L[i][j] of the in-place table is the optimum for the two prefixes |
| Hirschberg.AlgorithmB | examples/maxcommonsubseq/hirschberg.py:36-49 | the two-row form returns the last row of the full table, in exactly len(A)·len(B) cell updates |
| Hirschberg.LengthReverse | examples/maxcommonsubseq/hirschberg.py:69-70 | reversing both strings keeps the optimum |
| Hirschberg.ReversedRow | examples/maxcommonsubseq/hirschberg.py:70-75 | entry n-j of the row for reversed suffixes is the optimum for A[i:] and B[j:] |
| Hirschberg.ScoreBounded | examples/maxcommonsubseq/hirschberg.py:72-78 | no pair of cuts beats the optimum of the whole |
| Hirschberg.SplitTheorem | examples/maxcommonsubseq/hirschberg.py:65-82 | wherever A is cut, some cut of B loses nothing |
| Hirschberg.CommonJoin | examples/maxcommonsubseq/hirschberg.py:79-82 | common subsequences of the two subproblems join into one of the whole |
| Hirschberg.Midpoint | examples/maxcommonsubseq/hirschberg.py:65-78 | the scan picks the first cut with the best score, and that score is the optimum |
| Hirschberg.AlgorithmC | examples/maxcommonsubseq/hirschberg.py:54-82 | the result is a common subsequence, none is longer, at most 3·len(A)·len(B) cells are computed in all, and the depth is at most Levels(len(A)) |
| Hirschberg.LevelsLogarithmic | examples/maxcommonsubseq/hirschberg.py:2-5 | a first string of at most 2^k characters needs at most k+1 levels |
| Hirschberg.ReturnsIff | examples/maxcommonsubseq/hirschberg.py:54-82 | the recursion ends if and only if A is non-empty or B is empty |
| Gotoh.CostConcat | examples/smithwaterman/sw.py:23-27 | joining two scripts saves exactly one g when runs of the same gap meet |
| Gotoh.CostReverse | examples/smithwaterman/sw.py:158-158 | a reversed script costs the same |
| Gotoh.CostCounts | examples/smithwaterman/sw.py:17-27 | in half units a script costs 2 for each changed character, 4 for each gap opened and 1 for each character in a gap |
| Gotoh.FreeIffEqual | examples/smithwaterman/sw.py:17-27 | the least cost is 0 if and only if the strings are equal, and never negative |
| Gotoh.LowerBound | examples/smithwaterman/sw.py:35-45 | no script is cheaper than the recurrences for C, D and I, with any opening cost t of a leading deletion run |
| Gotoh.BestAttained | examples/smithwaterman/sw.py:35-45 | some script costs no more than the recurrence for C |
| Gotoh.BestDeleteAttained | examples/smithwaterman/sw.py:44-44 | some script that ends in a deletion costs no more than the recurrence for D |
| Gotoh.BestInsertAttained | examples/smithwaterman/sw.py:43-43 | some script that ends in an insertion costs no more than the recurrence for I |
| Gotoh.BestIsCheapest | examples/smithwaterman/sw.py:35-53 | the recurrence value is the minimum over all edit scripts turning A into B |
| Gotoh.ThreeMatrices | examples/smithwaterman/sw.py:29-53 | the returned cost is the least over all scripts of 2 for each changed character, 4 for each gap and 1 for each character in a gap, and all three matrices hold their optima |
| Gotoh.LinearSpace | examples/smithwaterman/sw.py:65-89 | the two rows are the last rows of C and D, except that DD[0] stays 0 |
| Gotoh.LinearSpaceFrom | examples/smithwaterman/sw.py:95-119 | the same rows when a leading deletion run opens at t, with DD[0] = CC[0] |
| Gotoh.MidpointAttained | examples/smithwaterman/sw.py:163-165 | every value the scan looks at, of either type, is reached by a script for the whole |
| Gotoh.MidpointBelow | examples/smithwaterman/sw.py:163-165 | every script passes a midpoint, of one type or the other, that costs no more |
| Gotoh.MidpointTheorem | examples/smithwaterman/sw.py:155-174 | the least midpoint value is the optimum for any opening costs tb and te at the two ends, and C[m][n] when both are g |
| Gotoh.MidpointScan | examples/smithwaterman/sw.py:155-174 | the scan's value belongs to the type and cut it reports, is that optimum, and is not reached at any earlier cut |
| Bits.NumberOfDigits | bsv/Adapter.bsv:134-179 | reading back the base-2^n digits of a number that fits restores it |
| Adapter.TopWord | bsv/Adapter.bsv:134-136 | shifting the register left by whole words and taking its top word gives the next digit |
| Adapter.ToBit.Enq | bsv/Adapter.bsv:130-132 | a value enters an empty serialiser; words already emitted stay |
| Adapter.ToBit.First | bsv/Adapter.bsv:134-136 | the head word is the digit that is due, highest first |
| Adapter.ToBit.Deq | bsv/Adapter.bsv:138-148 | the words emitted so far are the digits of the values entered, and the value leaves after its last word |
| Adapter.ShiftIn | bsv/Adapter.bsv:167-169 | shifting a word in keeps the counted words, whatever else the buffer holds |
| Adapter.FromBit.Enq | bsv/Adapter.bsv:167-179 | the last word of a message completes it, any other word is added to the message in progress |
| Adapter.FromBit.Deq | bsv/Adapter.bsv:181-187 | values leave in the order completed, each the low bits of the number its words write |
| Adapter.DeliveredInOrder | bsv/Adapter.bsv:114-191 | for any width and any interleaving, the values that leave are a prefix of the values entered |
| Adapter.Transfer | bsv/Adapter.bsv:269-285 | one hop of the link keeps both ends and the prefix property |
| Packing.GenerateMarshall | scripts/cppgen.py:264-279 | the loop emits for each piece of a bin a shift down to its first bit and up to its place |
| Packing.OpenWord | scripts/cppgen.py:264-279 | the or of the emitted operands is the sum of the fields at their places: no two overlap |
| Packing.SplitWord | scripts/cppgen.py:241-244 | a field that crosses a word boundary leaves in the word exactly the bits that fit, although it is never masked |
| Packing.WordCount | scripts/cppgen.py:222-244 | the layout uses as many bins as the bits need, and no more |
| Packing.WrittenDigits | scripts/cppgen.py:222-279 | the words written are the base-2^32 digits of what was to be placed, from any intermediate bin |
| Packing.PackReversed | scripts/cppgen.py:256-257 | filling bins from the last field up is packing with the first field in the highest bits |
| Packing.PackBound | scripts/cppgen.py:217-221 | a packed message fits its width |
| Packing.ProxyReachesHardware | scripts/cppgen.py:222-310 | for every message, without fields too, the words a proxy writes are one at least and no more than the bits need, and the deserialiser reads from them exactly the Bluespec packing, zero-padded on top |
| Demarshal.GenerateDemarshall | scripts/cppgen.py:281-301 | the loop emits for each piece the shift, mask and assignment that place it |
| Demarshal.AddLowBits | scripts/cppgen.py:241-244 | or-ing the low bits of a field onto its high bits restores all of them |
| Demarshal.OpenRun | scripts/cppgen.py:281-301 | the assignments of a bin restore every field in it, whatever lies above it in the word |
| Demarshal.SplitRun | scripts/cppgen.py:281-301 | a bin that ends in the low part of a field completes the field whose high part is in place |
| Demarshal.RunRestores | scripts/cppgen.py:281-310 | running all words, highest first, restores every field from any intermediate bin |
| Demarshal.WrapperRestores | scripts/cppgen.py:281-310 | for every message the wrapper reads as many words as the serialiser emits, restores every field whatever the variables held, and changes no other variable; a message without fields is one word that changes nothing |
| Members.CollectAllPacks | scripts/cppgen.py:187-208 | flattening nested structs keeps the packing and the width |
| Members.CollectAllDistinct | scripts/cppgen.py:187-208 | distinct member names give distinct flattened names |
| Members.RequestArrives | scripts/cppgen.py:246-310 | the words for a call's parameters write the number of the packed struct |
| Members.IndicationArrives | scripts/cppgen.py:246-310 | the words of a packed struct restore every flattened field and change nothing else |
| MessageLink.SendRequest | scripts/cppgen.py:264-310 | a proxy's words put through an idle deserialiser with any stale buffer come out as the packed struct |
| MessageLink.ReadWords | bsv/Adapter.bsv:134-148 | reading as many words as the message has gives all its digits, highest first, and empties the serialiser |
| MessageLink.ReceiveIndication | scripts/cppgen.py:281-310 | a packed struct put through the serialiser and the wrapper's assignments restores every field |
| PortalMem.RequestBlock | drivers/portalmem/portalmem.c:290-314 | the block granted to the round's last request is the largest allowed one that fits and was not refused; nothing only if that request was refused a single page |
| PortalMem.AllocateBlocks | drivers/portalmem/portalmem.c:289-317 | the loop ends whatever is refused; each entry was granted to a request of its own, in order; on success sizes sum to the size asked, orders never increase, and without refusals each size is used as often as possible |
| PortalMem.CreateBuffer | drivers/portalmem/portalmem.c:254-332 | a buffer has as few pages of 4096 bytes as hold the length, distinct when the allocator's blocks never overlap; it fails only for length 0, beyond 2^63 - 4096, or when a single page was refused |
| PortalMem.GrantedIsDistinct | drivers/portalmem/portalmem.c:297-302 | blocks granted to different requests of an allocator that never overlaps them make a buffer without repeated pages |
| PortalMem.FlatAt | drivers/portalmem/portalmem.c:326-332 | where the pages of each entry lie in the flat view |
| PortalMem.PageArray | drivers/portalmem/portalmem.c:183-197 | the kernel's page array is the flat view |
| PortalMem.MapUser | drivers/portalmem/portalmem.c:119-147 | exactly the addresses inside mapping and buffer are mapped, each to its page of the flat view, for any starting page and length |
| PortalMem.DebugAccess | drivers/portalmem/portalmem.c:80-94 | the walk stops at the entry and position of the flat view that hold the byte, modulo 2^32 because the offset is an int |
| PortalMem.ThreeViews | drivers/portalmem/portalmem.c:80-197 | for any byte of any mapping the user and the kernel see the same page of the flat view; when no page occurs twice in the buffer, the debugger sees it if and only if vm_pgoff is 0 and the byte is below 2^32 |
| PortalMem.DebugIgnoresOffset | drivers/portalmem/portalmem.c:85-94 | a mapping of two pages from the second on, in which the debugger shows the other page |
| PortalMem.DebugWraps | drivers/portalmem/portalmem.c:80-94 | a buffer of 4097 MiB mapped from the beginning, in which the debugger shows page 0 at byte 2^32 |
| SgTable.SendEntries | cpp/dmaSendFd.h:102-125 | each entry's page number in units of its own size, and the number of entries of each size |
| SgTable.BorderWords | cpp/dmaSendFd.h:137-143 | the loop's 8-bit and 64-bit arithmetic yields where each size ends and the index correction |
| SgTable.WalkClosedForm | drivers/portalmem/portalmem.c:88-94 | the entry and order that a linear walk finds, in closed form |
| SgTable.LookupClosedForm | bsv/SGList.bsv:133-198 | the pipeline's truncating comparisons compute that closed form, modulo 256, for every 40-bit offset |
| SgTable.LookupIsWalk | bsv/SGList.bsv:133-198 | the hardware names the entry of the linear walk, modulo 256, and reports an error exactly beyond the end |
| SgTable.IndexRightIff | bsv/SGList.bsv:181-198 | the 8-bit index names the walk's entry for every byte of the buffer if and only if the list has at most 256 entries |
| SgTable.TranslateIsFlat | bsv/SGList.bsv:133-212 | for lists of up to 256 aligned entries every byte is translated to its place in the flat view, and an error is reported for every offset beyond the end |
| SgTable.Mmu.Sglist | bsv/SGList.bsv:250-253 | one slot of page memory is written, with slot and page number truncated |
| SgTable.Mmu.SetRegion | bsv/SGList.bsv:239-248 | one list's border words are written |
| SgTable.WriteList | cpp/dmaSendFd.h:124-135 | a list's slots hold its page numbers, the slot after them is zero, and no other slot changes |
| SgTable.SendBuffer | cpp/dmaSendFd.h:102-148 | what the software writes makes the hardware translate that way and leaves every other list alone, except that the zero ending a list of 256 entries falls on the first slot of the next list |
| SgTable.SimulatedTranslate | cpp/dmaSendFd.h:106-110 | with simulator addresses the translation is the offset itself, below the buffer's id |
| MorrisPratt.CandidateStep | lib/cpp/mp.h:68-69 | following a failure link misses no border |
| MorrisPratt.CandidateStop | lib/cpp/mp.h:68-70 | where the walk stops, one more is the longest border of the next prefix |
| MorrisPratt.ComputeBorders | lib/cpp/mp.h:63-72 | border[i] is the longest proper border of the first i of cells 1..m |
| MorrisPratt.ComputeNext | lib/cpp/mp.h:74-84 | MP_next[i] = border[i-1] + 1 for every i from 1 to m+1 |
| MorrisPratt.GreedyIsMaximum | lib/cpp/mp.h:100-104 | the leftmost-greedy count is the largest number of disjoint occurrences |
| MorrisPratt.ResumeStep | lib/cpp/mp.h:93-96 | a failure link never skips an occurrence |
| MorrisPratt.MatchesAreGreedy | lib/cpp/mp.h:92-105 | from any state that holds the longest matched prefix, the rest of a pass with the pattern's own links counts the rest of the greedy occurrences |
| MorrisPratt.Pass | lib/cpp/mp.h:89-105 | one pass with any descending links counts what those links give, in at most n failure-link steps and using only the cells up to m; with the pattern's own links it finds the greedy count |
| MorrisPratt.Search | lib/cpp/mp.h:86-108 | the counter grows by iter_cnt times the count of one pass, which for a right table is the greedy count |
| MorrisPratt.SharedFall | lib/cpp/mp.h:93-96 | links of the shifted pattern never keep any part of a match: after a mismatch the search starts again at the same character |
| MorrisPratt.MissedBy | examples/strstr/teststrstr.cpp:121-135 | for any needle whose first repetition breaks, a text that holds the needle and in which nothing is found |
| MorrisPratt.SharedPointerSafeIff | examples/strstr/teststrstr.cpp:121-135 | building and searching on one pointer counts right on every text if and only if the needle's first character does not come again before the last position, or the needle repeats from where it first does |
| MorrisPratt.SharedPointerFails | examples/strstr/teststrstr.cpp:121-135 | "aab" is once in "aaab", and on one pointer it is not found |
| MorrisPratt.BenchmarkNeedle | examples/strstr/teststrstr.cpp:165-165 | the benchmark's needle is one that counts right |
| MorrisPratt.BuildAndSearch | examples/strstr/teststrstr.cpp:121-135 | what the test's two calls on one pointer count for every needle, and that for the needles above it is the greedy count |
| Ring.ActionsAreSafe | examples/ring/testring.cpp:123-146 | in every reachable state the driver's assertions hold: a send with fewer than 1023 commands unfinished has space and a free completion, and the tag in a status slot is in use and the answered command's own |
| Ring.FreeCount | examples/ring/testring.cpp:313-314 | in every reachable state the free list is 1023 less the unfinished commands, so a completion is found if and only if fewer than 1023 are unfinished |
| Ring.RefreshKeeps | examples/ring/testring.cpp:306-312 | the space computed from the pointer read back is exact for that pointer, however stale |
| Ring.SendKeepsCommands | examples/ring/testring.cpp:313-325 | a send keeps every command not acknowledged, and adds its own |
| Ring.PollKeepsStatus | examples/ring/testring.cpp:211-236 | taking a status keeps the unread ones and marks the slot free; the reported pointer lags by less than a quarter |
| Ring.AnswerKeepsStatus | lib/bsv/RingBuffer.bsv:111-120 | the hardware's full test on pointers keeps it from overwriting unread answers |
| Ring.SendKeepsCompletions | examples/ring/testring.cpp:313-317 | taking a tag keeps free list and tags in use a partition and gives the command its own tag |
| Ring.PollKeepsCompletions | examples/ring/testring.cpp:134-146 | a completion runs its own command's callback argument and returns its own tag |
| Ring.StepKeeps | examples/ring/testring.cpp:211-325 | every action of driver or hardware keeps all of this |
| Ring.InitialInv | examples/ring/testring.cpp:109-121 | it holds after initialisation, whatever the command memory holds |
| Ring.SpaceIsConservative | examples/ring/testring.cpp:306-325 | cached_space is a multiple of 64 and never more than the true free space |
| Ring.SendOverwritesOnlyAcknowledged | examples/ring/testring.cpp:321-325 | any command in the slot that a send writes has been acknowledged |
| Ring.CallbacksComplete | examples/ring/testring.cpp:134-146 | when all is answered and read, every command's callback has run |
| Ring.Finishes | examples/ring/testring.cpp:211-347 | from every reachable state, once the ring is started, a run without new commands ends with every command fetched as sent, acknowledged, answered and called back with its own argument |
| Ring.CanSend | examples/ring/testring.cpp:300-325 | when all is acknowledged and a completion is free, the wait for space ends after at most one inquiry and any command can be sent |
| Ring.EveryRun | examples/ring/testring.cpp:211-325 | in every run the commands are those the driver was asked to send, in order, and the hardware fetches exactly those; free list and tags in use partition 1..1023 with one used tag for each command without its callback, space is conservative, the lag is below a quarter, callbacks are right and never repeated |
| Ring.Driver.constructor | examples/ring/testring.cpp:109-121 | the globals after initialisation are the state machine's initial state |
| Ring.Driver.GetFreeCompletion | examples/ring/testring.cpp:123-132 | the head of the free list is taken and marked; an empty list gives nothing and changes nothing |
| Ring.Driver.RefreshSpace | examples/ring/testring.cpp:306-312 | one round of the inquiry is the state machine's refresh |
| Ring.Driver.SendCommand | examples/ring/testring.cpp:313-325 | the in-place send is the state machine's send, and changes nothing else |
| Ring.Driver.RingNext | examples/ring/testring.cpp:211-216 | the marker word at the status pointer |
| Ring.Driver.HandleCompletion | examples/ring/testring.cpp:134-146 | the in-place completion is the state machine's |
| Ring.Driver.RingPop | examples/ring/testring.cpp:218-236 | the in-place pop is the state machine's, with its report at each quarter |
| Ring.Driver.PollOnce | examples/ring/testring.cpp:259-265 | in every reachable state one poll is the state machine's poll, or nothing when no answer waits |
| BsimSocket.FlowKept | cpp/BsimCtrl.cxx:89-129 | every step keeps requests in order: the design has taken those received, except the head in flight |
| BsimSocket.ReadsKeptByClient | cpp/sock_utils.c:180-229 | client steps keep the place of the read in progress and lose no answer |
| BsimSocket.ReadsKeptByReply | cpp/BsimCtrl.cxx:63-139 | an answer is the only one in the channel, however interrupts surround it |
| BsimSocket.LevelsKept | cpp/BsimCtrl.cxx:63-79 | the level after all interrupts in the channel is the simulator's last level |
| BsimSocket.ViewAddress | cpp/BsimCtrl.cxx:103-103 | an offset below 64 KiB and the portal can both be read back from the address the design sees |
| BsimSocket.GivenIsMeant | cpp/BsimCtrl.cxx:114-129 | what is given for the kind asked for is the request's own kind, address and data |
| BsimSocket.StepKeeps | cpp/sock_utils.c:179-229 | every step keeps order, reads and levels |
| BsimSocket.Finishes | cpp/BsimCtrl.cxx:89-139 | from every reachable state a run without new requests empties both channels, with every request taken as it was meant and every read returned, and then any request or interrupt is possible |
| BsimSocket.EveryRun | cpp/sock_utils.c:179-229 | in every run the design takes the requests in send order, asking for each by its own kind and getting its portal, offset and data; each read returns the answer to its own request, no poll discards an answer, and a drained channel leaves the level the design set last |
| BsimSocket.Simulator.ProcessReq32 | cpp/BsimCtrl.cxx:89-115 | receives only without a head, hands file descriptors over at once, and reports a head of the right kind |
| BsimSocket.Simulator.TakeRequest | cpp/BsimCtrl.cxx:117-129 | for a write the head leaves with its data, for a read it stays and is no longer in flight |
| BsimSocket.Simulator.ReadData32 | cpp/BsimCtrl.cxx:131-139 | the answer carries the portal of its request and frees the head |
| BsimSocket.Simulator.InterruptLevel | cpp/BsimCtrl.cxx:63-79 | only a changed level is sent, and the portal kept for the answer survives |
| BsimSocket.Client.PollInterrupt | cpp/sock_utils.c:180-193 | at most one message is taken and no level is lost |
| BsimSocket.Client.ReceiveAnswer | cpp/sock_utils.c:205-216 | however many levels come first, the one answer is returned and no level is lost |
| AxiWrite.LengthsAgreeIff | bsv/AxiDma.bsv:78-80 | master and slave count the same beats if and only if a burst has 1 to 16 |
| AxiWrite.BeatAdvances | bsv/BsimTop.bsv:236-267 | a beat leaves both ends with one count of beats to come, the slave at the next beat's address, and a response queued exactly at the last |
| AxiWrite.SendAddressKeeps | bsv/AxiDma.bsv:76-81 | an address may run ahead at any time |
| AxiWrite.SendDataKeepsStep | bsv/AxiDma.bsv:83-94 | a beat keeps master and slave in step over the same queue of bursts |
| AxiWrite.SendDataKeepsSchedule | bsv/BsimTop.bsv:235-267 | a beat adds the scheduled address, last flag and id, and at the end of a burst its response |
| AxiWrite.StepKeeps | bsv/BsimTop.bsv:228-274 | every step keeps all of this |
| AxiWrite.Finishes | bsv/BsimTop.bsv:228-274 | from every reachable state the bursts requested can be finished, with all beats and responses, and then any other requested |
| AxiWrite.EveryRun | bsv/BsimTop.bsv:228-274 | in every run, for any bursts of 1 to 16 beats and any run-ahead, beats are those of the bursts requested in order, exactly the final one marked last and beat k written at address + k·busBytes with its own data, with one response per finished burst, with its id |
| AxiWrite.AxiMaster.GetAddress | bsv/AxiDma.bsv:75-81 | queues the length and forwards the address with the 4-bit length |
| AxiWrite.AxiMaster.GetData | bsv/AxiDma.bsv:83-94 | the master's step of a beat, and its last flag |
| AxiWrite.AxiSlave.PutAddress | bsv/BsimTop.bsv:228-233 | queues the address |
| AxiWrite.AxiSlave.PutData | bsv/BsimTop.bsv:234-267 | the slave's step of a beat, and the one write it makes |

## Left out

- `gotohc`'s recursion and printed script: the one-row case charges an empty gap and the crossing case prints shifted indices, so the script is not optimal; the midpoint value is.
- `hirschbergalgc2`: the same algorithm with printed offsets.
- Packing of Float, signed Int, Enum and Vector fields and of fields wider than 64 bits, and the typedef-of-typedef branch of `collectMembers`.
- Packing.ProxyReachesHardware: takes field values inside their widths, because the emitted C shifts and never masks.
- Members.IndicationArrives: a struct's members have distinct names, as C requires.
- SgTable.TranslateIsFlat: takes blocks aligned to their size below 2^40 bytes, which the kernel's page allocator gives and the oracle does not express; the undefined address that follows a reported error is not modelled.
- SgTable.SendBuffer: takes at most 256 entries; a longer list writes into the slots of the next.
- PortalMem.PageArray: page counts that overflow an int, in buffers of 8 TiB and more, are not modelled.
- PortalMem.CreateBuffer: failures of `kmalloc` and `sg_alloc_table`, which free everything, are not modelled.
- PortalMem.MapUser: addresses are counted in pages.
- PortalMem.DebugAccess: accesses beyond the buffer, or crossing the end of an entry, are not modelled.
- Ring.Driver.SendCommand: the loop that waits for space ends only when the hardware acknowledges, so each of its rounds is a step; with 1023 commands unfinished the program stops, and FreeCount states that condition.
- Ring.Driver.HandleCompletion: a missing callback is one that does nothing; a status slot is represented by its marker word and a command slot by its tag and the rest.
- Ring.EveryRun: takes hardware that answers each command once, in slot order and within the reported space.
- BsimSocket.EveryRun: takes whole messages and portals that do not use the number reserved for interrupts; the client is connected.
- BsimSocket.Simulator.TakeRequest: joins `processAddr32` and `writeData32`, which the design calls in one rule for a write.
- AxiWrite.EveryRun: latencies and jitter of the slave only restrict which interleavings occur, so all are allowed.
- The kernel variant of the socket code, the hand-off of `dma_fd`, the read side of the AXI slave, and multi-beat reads through the address generator.
- `preprocess` and the grammar of the generator, driver plumbing for PCI, interrupts and `gralloc`, and floating-point examples.
