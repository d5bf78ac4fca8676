# Connectal, modelled and proved

Connectal connects software to FPGA hardware through portals: a compiler turns the methods of an interface into C
proxies and handlers, and several transports carry their messages. This project models its machinery and states what
every input, every run or every interleaving of it satisfies.

- **The shared-memory ring** (`cpp/portalShared.c`). `SharedRing` is a machine of two processes in which every load and
  store of a shared word is one step, and a run is any interleaving of them. `SharedPortal` is the C code on the
  mapped array, proved to do what those steps do. The ring refines a FIFO although the producer acts on a stale READ.
- **The message compiler** (`scripts/cppgen.py`). `Packing` splits arguments into 32-bit bins, `Marshalling` is the
  emitted C as a syntax tree with an evaluator that fails on an undefined shift, `MessageCodec` is a whole method,
  `RoundTrip` shows that the handler undoes the proxy, `Structs` that the words are Bluespec's nested packing, and
  `GeneratedCode` that the model emits the code of one generated file.
- **Remote calls**. `RemoteCalls` puts the two together: calls made through proxies arrive at the handler in order and
  intact along every interleaving.
- **DMA buffers**. `PortalMem` is the allocator of `drivers/portalmem/portalmem.c`, `ScatterList` and `BufferMap` its
  debugger access, mapping and page array, `DmaSend` the messages of `cpp/dmaSendFd.h` and the address translation of
  `bsv/MMU.bsv`, `MmuServer` the server of `cpp/MMUServer.h` and the path from allocation to translation.
- **Sequence alignment**. `Hirschberg` is the longest-common-subsequence family of `examples/maxcommonsubseq`, `Gotoh`
  the affine-gap alignment of `examples/smithwaterman`, over `real` and for all costs with a gap opening of at least zero.
- **The simulator protocol** (`cpp/BsimCtrl.cxx`, `cpp/portalSocket.c`). `Bsim` is any number of clients, one server slot
  and interrupts on the same sockets, `BsimOrder` the order in which requests and levels cross and that reads complete;
  `BsimCode` is the code, proved to do what that model says.
- **The command ring** (`examples/ring/testring.cpp`). `CommandRing` has the cached credit, `Completions` the tags.

`Sequences`, `Bits`, `Integers` and `Options` hold shared definitions. `dafny verify dfyconfig.toml` checks everything.

## Where the code and its promises part

Each of these is a lemma below, with the exact condition under which the promise holds.

- The MMU's page table has 256 slots, and the end mark takes one too: with 256 chunks it lands in slot 0. Physical
  addresses are cut to the system's width. Translation is right exactly under the condition of
  `DmaSend.TranslationExact`; for lists that fit the table `DmaSend.TranslationWithinTable` says what that means.
- `hirschbergalgc` does not terminate for an empty A and a B that is not empty (`Hirschberg.EmptyFirstStringLoops`).
- Its header gives the recursion depth as logarithmic in n, the length of B. It is between the two roundings of the
  base-two logarithm of the length of A for every B that is not empty (`Hirschberg.DepthAtLeast`,
  `Hirschberg.LogarithmicDepth`), so it has no bound in the length of B (`Hirschberg.DepthIgnoresB`).
- `custom_vma_access` leaves the page offset of a mapping out of account and counts in 32 bits
  (`BufferMap.DebuggerSeesMapping`), and copies across the end of a chunk (`BufferMap.CopySeesMapping`).
- The MMU server and the simulated addresses add lengths up in an int, which holds them up to 2 GB
  (`MmuServer.MMUServer.Reference`, `DmaSend.SimAddrExact`).
- The simulator sends an interrupt level only when it changes, so a client that is accepted while one is set does not
  hold it until the next change (`BsimOrder.HoldsLevelIff`).
- The ring's rounding to 16 bits is safe if and only if the largest request stays below 2^16 words
  (`SharedRing.RoundingSafeIff`), and its wait can succeed on an empty ring if and only if LIMIT exceeds 2R + 4
  (`SharedRing.Drain`).

## Model

| member | source | states |
|---|---|---|
| `SharedRing.RoundingSafeIff` | cpp/portalShared.c:69-70 | every message that fits the request size keeps its length under 16-bit rounding and in its header, if and only if the largest request plus two words stays below 2^16 words |
| `SharedRing.MaxSpanIs` | cpp/portalShared.c:69-70 | the reserved maximum is even and one or two words more than the request size |
| `SharedRing.SpanBounds` | cpp/portalShared.c:99-113 | a fitting message takes its length rounded up to even, at most the reserved maximum; the header gives back length and channel; the stored words lie inside that span |
| `SharedRing.RoomAhead` | cpp/portalShared.c:67-98 | when more than twice the maximum is free, a whole message fits at WRITE without straddling the end, WRITE may move past it without meeting READ, and it wraps to START only if READ is beyond START |
| `SharedRing.AvailCounts` | cpp/portalShared.c:67-82 | the free words the code computes from WRITE and READ are exactly as many as there are words of the area that belong to no unread message, whichever cursor is ahead |
| `SharedRing.WaitCountsFreeWords` | cpp/portalShared.c:67-90 | in every reachable state a waiting producer goes on to write if and only if more than twice the maximum is free by the WRITE and READ it has read, and these never show more than is free now |
| `SharedRing.LaidFrame` | cpp/portalShared.c:99-113 | the layout of the unread messages depends on the unread words only |
| `SharedRing.LaidAppend` | cpp/portalShared.c:99-113 | a message written at WRITE extends the layout once WRITE moves past it, wrapping or not |
| `SharedRing.LaidPop` | cpp/portalShared.c:114-126 | moving READ over a message keeps the others laid out and never takes free words away from a producer that has read the old READ |
| `SharedRing.StepKeepsInv` | cpp/portalShared.c:67-126 | every single load or store of either process keeps the ring invariant: even cursors, each at START or a maximum message away from the end, unread messages laid end to end, a stale READ only underestimating the room |
| `SharedRing.Reachable` | cpp/portalShared.c:44-126 | the invariant holds after every interleaving of the two processes from initialisation |
| `SharedRing.UnreadWordsUntouched` | cpp/portalShared.c:99-113 | in every reachable state no header, payload, pad, cursor or terminator store of the producer changes a word of an unread message |
| `SharedRing.LoadsInside` | cpp/portalShared.c:114-126 | in every reachable state the word that event_shared or a handler loads next lies inside the area |
| `SharedRing.NothingOverflows` | cpp/portalShared.c:69-97 | in every reachable state of an area below 2^31 words the cursors, the count of free words, its bounds and the tested sums fit the code's int and unsigned |
| `SharedRing.PublishNeverEmpties` | cpp/portalShared.c:110-112 | publishing never makes WRITE equal READ, and WRITE wraps to START only when READ is beyond START |
| `SharedRing.StepRefinesFifo` | cpp/portalShared.c:67-126 | every step of either process is a step of an abstract queue or leaves it unchanged |
| `SharedRing.RingRefinesFifo` | cpp/portalShared.c:67-126 | along every interleaving the messages handed to the handler are a prefix of those sent, in order and word for word, those on the skipped channel 0xffff left out, and no access leaves the area, the word that the handler of a method without arguments reads included |
| `SharedRing.EventIsSteps` | cpp/portalShared.c:114-126 | the atomic steps of one uninterrupted event_shared call amount to taking one message |
| `SharedRing.Drain` | cpp/portalShared.c:67-126 | from every reachable state, once the event_shared call in progress is over, READ meets WRITE after exactly as many further calls as there are unread messages, everything has then been delivered, and the producer's wait succeeds wherever the cursors are if and only if LIMIT exceeds 2R + 4 |
| `SharedPortal.SendSteps` | cpp/portalShared.c:99-113 | the atomic steps of send_shared, uninterrupted, store the header, the pad, the cursor and the terminator and publish one message |
| `SharedPortal.MessageSteps` | cpp/portalShared.c:63-113 | from every state in which the wait has succeeded a whole send stays inside the area, stores what the code stores and publishes the message |
| `SharedPortal.SendCompletes` | cpp/portalShared.c:63-113 | from every reachable state between sends in which more than twice the maximum is free, a send that is not interrupted publishes its message |
| `SharedPortal.Portal.InitShared` | cpp/portalShared.c:44-58 | the control block and the empty ring of the machine's initial state; every word of the area is free |
| `SharedPortal.Portal.BusywaitShared` | cpp/portalShared.c:67-90 | the spin loop ends at the first READ value that leaves more than twice the maximum of the area's words free, counted word by word with WRITE before or behind READ, and at no earlier one |
| `SharedPortal.Portal.IncrementShared` | cpp/portalShared.c:91-98 | an even cursor stays even; a largest message fits between the new cursor and LIMIT unless it is START, and it is moved to START only if none fits behind it |
| `SharedPortal.Portal.SendShared` | cpp/portalShared.c:99-113 | the array afterwards is what the machine's send steps leave |
| `SharedPortal.Portal.WriteWords` | scripts/cppgen.py:87-95 | the payload words, one after the other from the given address, and nothing else |
| `SharedPortal.Portal.SendMessage` | scripts/cppgen.py:87-95 | a proxy's writes and its send, as one update of the array |
| `SharedPortal.Portal.EventShared` | cpp/portalShared.c:114-126 | the array afterwards is the machine's; the handler gets exactly the oldest unread message, or none if there is none or it is on the skipped channel |
| `SharedPortal.Portal.TakeMessage` | cpp/portalShared.c:114-126 | the loads, the store and the message handed on, with every word that the code and the handler read inside the array |
| `Packing.AccumKeepsBits` | scripts/cppgen.py:260-283 | accumWords terminates, loses no bit, repeats none, keeps their order and fills every bin but the last |
| `Marshalling.GenerateMarshall` | scripts/cppgen.py:285-305 | the loop builds the or-expression of the bin's pieces at their offsets |
| `Marshalling.GenerateDemarshall` | scripts/cppgen.py:307-329 | the loop builds one read and the assignments of the bin's pieces at their offsets |
| `Marshalling.MarshallValue` | scripts/cppgen.py:285-305 | the emitted expression never shifts by an undefined amount and its low 32 bits are the bin's bits, zero-extended, although pieces are not masked |
| `Marshalling.AssignValue` | scripts/cppgen.py:317-327 | the emitted right-hand side is defined and puts the piece back in its place, although its mask covers all bits above |
| `MessageCodec.ArgWordsHoldArgs` | scripts/cppgen.py:340-342 | the bins of a method hold its arguments, all of their bits and no others, last argument lowest |
| `MessageCodec.BinCount` | scripts/cppgen.py:255-283 | the number of words is the total width over 32 rounded up, and every bin but the last is exactly 32 bits |
| `MessageCodec.MarshallIsConcatenation` | scripts/cppgen.py:337-380 | the words written, read most significant bit first, are the arguments in declaration order, first argument on top, under fewer than 32 zero bits |
| `MessageCodec.MarshallNothing` | scripts/cppgen.py:348-350 | a method without arguments has no bins and still writes one zero word |
| `MessageCodec.GatherMethodInfo` | scripts/cppgen.py:337-380 | the write calls and the read code are in the order of the reversed bins, and the word count is the width rounded up |
| `MessageCodec.RequestSize` | scripts/cppgen.py:409-419 | the request size is the header plus the words of the largest method: no method exceeds it and one attains it |
| `RoundTrip.AccumRestores` | scripts/cppgen.py:260-329 | whatever the handler's variables hold, assigning the top piece first and or-ing the lower pieces in restores every argument, split over any number of words |
| `RoundTrip.ArgumentsRoundTrip` | scripts/cppgen.py:337-380 | for all widths from 1 to 64 and all values in range: the proxy's code is defined, and the handler's code, run on its words, is defined, reads exactly those words and restores every argument |
| `Structs.FlattenPackAll` | scripts/cppgen.py:118-139 | flattening nested structs to leaves keeps the nested packing |
| `Structs.MessageIsBluespecPacking` | scripts/cppgen.py:255-259 | the words written are Bluespec's nested packing of the parameters under fewer than 32 zero bits |
| `GeneratedCode.SglistProxy` | generated/cpp/MMURequest.c:3-14 | for the widths of sglist the model emits exactly the five writes of the generated file |
| `GeneratedCode.SglistHandler` | generated/cpp/MMURequest.c:69-88 | for the widths of sglist the model emits exactly the reads, masks, shifts and assignments of the generated file |
| `RemoteCalls.DecodeEncode` | scripts/cppgen.py:85-95 | the handler restores every call from its message, whatever its variables held and whatever lies behind the message |
| `RemoteCalls.ProxyWritesEmitted` | scripts/cppgen.py:345-355 | what the proxy of a method writes is what the ring's producer stores behind the header, the one zero word of a method without arguments included |
| `RemoteCalls.EncodeFits` | scripts/cppgen.py:409-419 | every call of an interface fits the ring that is sized for the interface |
| `RemoteCalls.CallsArriveInOrder` | cpp/portalShared.c:67-126 | along every interleaving of producer and consumer the handler gets the calls the proxies made: in order, none lost or repeated, every argument intact |
| `RemoteCalls.HandlerFindsItsCall` | scripts/cppgen.py:348-355 | whenever the handler runs, the words in the shared memory behind READ are there and give the call that was made, also for a method without arguments, whose handler reads a word that is not part of its message |
| `Hirschberg.LcsLenIsMaximum` | examples/maxcommonsubseq/hirschberg.py:27-46 | the table's recurrence gives the greatest length of a common subsequence: one has it and none exceeds it |
| `Hirschberg.LcsLenReversed` | examples/maxcommonsubseq/hirschberg.py:89-90 | reversing both strings keeps that length |
| `Hirschberg.SplitTheorem` | examples/maxcommonsubseq/hirschberg.py:85-98 | for every split of A no L1[j] + L2[n-j] exceeds the length for the whole strings, and some j attains it |
| `Hirschberg.AlgA` | examples/maxcommonsubseq/hirschberg.py:32-46 | every entry of the table is the length for its two prefixes |
| `Hirschberg.AlgB` | examples/maxcommonsubseq/hirschberg.py:56-69 | the two-row form returns the last row of that table |
| `Hirschberg.ScanFindsFirstMaximum` | examples/maxcommonsubseq/hirschberg.py:92-98 | the loop finds the greatest sum and the first index that has it |
| `Hirschberg.BreakPointOptimal` | examples/maxcommonsubseq/hirschberg.py:92-98 | the break point splits the problem without loss |
| `Hirschberg.FindBreak` | examples/maxcommonsubseq/hirschberg.py:85-98 | the two row computations and the loop find that break point |
| `Hirschberg.AlgCIsLongest` | examples/maxcommonsubseq/hirschberg.py:74-102 | the result is a common subsequence that no common subsequence exceeds in length |
| `Hirschberg.HirschbergC` | examples/maxcommonsubseq/hirschberg.py:74-102 | the recursive code terminates and returns such a subsequence, for every A that is not empty or B that is |
| `Hirschberg.EmptyFirstStringLoops` | examples/maxcommonsubseq/hirschberg.py:74-102 | for an empty A and any other B the second recursive call has the arguments of the call itself, so those are exactly the inputs on which it does not terminate |
| `Hirschberg.QuadraticCells` | examples/maxcommonsubseq/hirschberg.py:24-25 | all the recursion together fills at most 3 len(A) len(B) table entries |
| `Hirschberg.LogarithmicDepth` | examples/maxcommonsubseq/hirschberg.py:24-25 | the recursion is no deeper than the base-two logarithm of len(A) rounded up |
| `Hirschberg.DepthAtLeast` | examples/maxcommonsubseq/hirschberg.py:74-102 | for every B that is not empty the depth is at least that logarithm rounded down |
| `Hirschberg.DepthIgnoresB` | examples/maxcommonsubseq/hirschberg.py:24-25 | the header's bound in the length of B does not hold: the depth is d for every A of length 2^d, even for a B of one symbol |
| `Hirschberg.OffsetsLocateSlices` | examples/maxcommonsubseq/hirschberg.py:104-133 | in the list of all calls that a call leads to, every sa and sb locates its slices in the original strings |
| `Hirschberg.HirschbergC2` | examples/maxcommonsubseq/hirschberg.py:104-133 | the tracing variant returns what the plain one returns, and each recursive call meets the offsets' requirement |
| `Gotoh.CIsMinimum` | examples/smithwaterman/sw.py:29-53 | matrix C is the least cost over all alignments, with g for each maximal run and h for each gap symbol: one has it and none is cheaper, for every price of opening a leading deletion |
| `Gotoh.BaseCounts` | examples/smithwaterman/sw.py:17-53 | the cost of an alignment, counted column by column: the differing pairs, g for each column that starts a run of insertions or of deletions and h for each gap column |
| `Gotoh.CIsLeastCounted` | examples/smithwaterman/sw.py:29-53 | C[m][n] is the least of these counted costs |
| `Gotoh.MismatchBound` | examples/smithwaterman/sw.py:17-27 | for strings of the same length the alignment without gaps costs the number of positions at which they differ, and C[m][n] is no more than that |
| `Gotoh.ZeroIffEqual` | examples/smithwaterman/sw.py:17-53 | with a positive h the least cost is zero if and only if the two strings are equal |
| `Gotoh.BaseConcat` | examples/smithwaterman/sw.py:154-175 | putting two alignments together costs their sum, less one opening when a run goes across |
| `Gotoh.BaseRev` | examples/smithwaterman/sw.py:157-158 | the cost of an alignment does not depend on the direction in which it is read |
| `Gotoh.RowFollows` | examples/smithwaterman/sw.py:39-45 | each row follows from the row above by the three recurrences |
| `Gotoh.GotohTables` | examples/smithwaterman/sw.py:29-53 | the nested loops fill every row of C and D with what the recurrences give |
| `Gotoh.GotohCost` | examples/smithwaterman/sw.py:29-53 | the result is the least cost over all alignments, counted by differing pairs, runs and gap symbols; with a positive h it is zero if and only if the strings are equal |
| `Gotoh.SweepRow` | examples/smithwaterman/sw.py:78-88 | the inner loop turns one row into the next in place with the scalars s, c and e |
| `Gotoh.GotohB` | examples/smithwaterman/sw.py:65-89 | the two vectors end as the last rows of C and D, for all inputs |
| `Gotoh.GotohB2` | examples/smithwaterman/sw.py:95-119 | the same with leading deletions opened at price t, and DD[0] set to CC[0] |
| `Gotoh.MidpointTheorem` | examples/smithwaterman/sw.py:154-175 | for all tb and te and every split of A the least midpoint value is the least cost of an alignment of the whole, no more and no less |
| `Gotoh.MidpointIsC` | examples/smithwaterman/sw.py:186-187 | with tb = te = g, as gotohc is first called, it is C[m][n] of the whole problem |
| `Gotoh.Type1Recursion` | examples/smithwaterman/sw.py:176-179 | best alignments of the two sub-problems of a type 1 midpoint, priced (tb, g) and (g, te), make a best alignment of the whole |
| `Gotoh.Type2Recursion` | examples/smithwaterman/sw.py:180-184 | best alignments of the two sub-problems of a type 2 midpoint, priced (tb, 0) and (0, te), with the two deletions between them make a best alignment of the whole |
| `Gotoh.FindMidpoint` | examples/smithwaterman/sw.py:154-175 | the search loop returns the first column whose value is that least cost, and type 2 there only if type 1 costs more |
| `ScatterList.WalkFinds` | drivers/portalmem/portalmem.c:105-114 | the linear walk finds the chunk and the offset in it of every offset inside the buffer |
| `ScatterList.AtUnique` | drivers/portalmem/portalmem.c:105-114 | an offset lies in one chunk only |
| `ScatterList.CustomVmaAccess` | drivers/portalmem/portalmem.c:93-120 | the byte reached is the walk's for the distance modulo 2^32; if that lies past the end of the buffer the access goes on from the last chunk by a signed 32-bit distance |
| `ScatterList.PastEndRepeats` | drivers/portalmem/portalmem.c:105-118 | for an offset less than the last chunk's length past the end the access reaches the last chunk a second time, from its beginning |
| `ScatterList.StartsAligned` | drivers/portalmem/portalmem.c:367-421 | in a non-increasing list every chunk starts at a multiple of its own length |
| `PortalMem.DmabufferCreate` | drivers/portalmem/portalmem.c:343-464 | the allocation loop terminates for every request and every pattern of failures; the chunks it returns are answers of alloc_pages, each to a call of its own for the order of its length, each as large as the answers allowed, adding up to the page-rounded length, and disjoint if alloc_pages gives no byte out twice |
| `PortalMem.AllocateGrants` | drivers/portalmem/portalmem.c:378-406 | every chunk is what alloc_pages answered to one call, of the order that has the chunk's length, no call is used twice and they are in the order of the calls; each is the largest order, no larger than the one before and than the rest of the request, that was not refused |
| `PortalMem.AllocateSound` | drivers/portalmem/portalmem.c:378-406 | on success the chunks have the three sizes, never grow, and add up exactly to the size |
| `PortalMem.AllocateFails` | drivers/portalmem/portalmem.c:378-406 | allocation of whole pages fails only after alloc_pages has refused a single page, whatever it answered for the larger orders |
| `PortalMem.CreatedBuffer` | drivers/portalmem/portalmem.c:343-464 | a buffer is created only with such chunks adding up to the page-rounded length; a request of 1 to 2^63 - 4096 bytes is refused only if the table or a single page is, whatever happens to the larger orders, and every other request is refused |
| `PortalMem.CreatedDisjoint` | drivers/portalmem/portalmem.c:343-464 | if alloc_pages gives no page out twice, the chunks of every created buffer are disjoint in physical memory |
| `PortalMem.NoFailureGreedy` | drivers/portalmem/portalmem.c:378-406 | without failures the counts are the greedy ones, fewer than 16 of each smaller size |
| `BufferMap.PaDmaBufMmap` | drivers/portalmem/portalmem.c:177-234 | the loop makes the remap calls of the recursive description; nothing outside the range is mapped, and the bytes mapped are the shorter of the range and what the buffer holds from the page offset on |
| `BufferMap.MmapFollowsWalk` | drivers/portalmem/portalmem.c:195-228 | for every range and page offset the mappings lie end to end, and each address goes where the walk takes the same buffer offset, or nowhere past the end |
| `BufferMap.MmapStaysInside` | drivers/portalmem/portalmem.c:195-228 | for every range and page offset nothing before or behind the range is mapped, and the lengths of the calls add up to the shorter of the range and what the buffer holds from the page offset on |
| `BufferMap.PhysAddrInjective` | drivers/portalmem/portalmem.c:105-114 | with disjoint chunks no two offsets share a physical address |
| `BufferMap.DebuggerSeesMapping` | drivers/portalmem/portalmem.c:93-120 | the debugger access reaches the mapped byte at every address of a mapping if and only if the page offset of the mapping is zero, the mapping is no longer than 2^32 bytes and the buffer does not end before it |
| `BufferMap.CreatedMappingSeen` | drivers/portalmem/portalmem.c:93-120 | for every buffer the driver creates, if alloc_pages gives no byte out twice, the debugger access is right under exactly that condition |
| `BufferMap.CopySeesMapping` | drivers/portalmem/portalmem.c:115-118 | where single bytes agree, the copy of several bytes is what the mapping shows if and only if the chunks it touches adjoin in memory; inside one chunk it always is |
| `BufferMap.PageList` | drivers/portalmem/portalmem.c:262-279 | the array for vmap has one entry for each page of the buffer, in the walk's order, and BUG_ON never fires; the int that counts the pages holds their number if and only if that is below 2^31 |
| `DmaSend.RegionTurn` | cpp/dmaSendFd.h:134-141 | one turn in unsigned chars gives the index offset and count modulo 256 of the unbounded values |
| `DmaSend.ComputeRegion` | cpp/dmaSendFd.h:134-141 | the three borders and index offsets for all 32-bit counts |
| `DmaSend.SendFdToPortal` | cpp/dmaSendFd.h:99-146 | the messages are the list in units of each chunk's length and an end mark, and the region has the borders and index offsets of the class counts |
| `DmaSend.LookupAgreesIff` | bsv/MMU.bsv:154-227 | choosing the class by borders and the entry by 8-bit addition gives the entry and offset of the linear walk for every offset, if and only if the list has at most 256 entries |
| `DmaSend.LookupOutside` | bsv/MMU.bsv:217-220 | every offset past the end is refused |
| `DmaSend.TableHolds` | bsv/MMU.bsv:302-317 | each slot of the page table ends up with the page number of the last chunk sent to it, 256 apart, or zero if the end mark came last |
| `DmaSend.TranslationExact` | bsv/MMU.bsv:154-242 | for every list and every width of physical addresses the MMU takes every offset to the byte of the linear walk if and only if every chunk ends inside the address space and its slot gives its address |
| `DmaSend.TranslationWithinTable` | bsv/MMU.bsv:154-242 | for lists of at most 256 chunks that is the case if and only if every chunk is aligned to its length and inside the address space, and there are at most 255 chunks or the first one lies at address 0 |
| `DmaSend.SimAddrs` | cpp/dmaSendFd.h:103-106 | the loop gives each chunk the address made of the wrapped sum of the lengths before it |
| `DmaSend.SimAddrAligned` | cpp/dmaSendFd.h:103-116 | every simulated address is a multiple of its chunk's length, so the warning never shows, even where the int sum has overflowed |
| `DmaSend.SimAddrExact` | cpp/dmaSendFd.h:103-106 | a simulated address is the chunk's place in the buffer below the id if and only if the chunk starts in the first 2 GB |
| `MmuServer.MessagesLength` | cpp/MMUServer.h:39-43 | the lengths in the messages for a list add up to the length of the buffer |
| `MmuServer.MMUServer.constructor` | cpp/MMUServer.h:77-78 | areas are handed out from 1 |
| `MmuServer.MMUServer.IdRequest` | cpp/MMUServer.h:50-61 | a good descriptor gets the next area, emptied; a bogus one ends the server; with all areas taken there is none |
| `MmuServer.MMUServer.SglistRequest` | cpp/MMUServer.h:39-43 | one area's length grows, in a 32-bit int, and no other changes |
| `MmuServer.MMUServer.Receive` | cpp/MMUServer.h:39-43 | a stream of requests for one area adds up their lengths |
| `MmuServer.MMUServer.Reference` | cpp/dmaManager.c:67-98 | a buffer of any size gets an area whose length ends as the last border in pages, in an int; that is the buffer's length if and only if it is below 2 GB |
| `MmuServer.CreatedBufferTranslates` | bsv/MMU.bsv:154-242 | for every request below 2^44 bytes, every pattern of refusals and every address width: the created buffer is translated byte for byte as the linear walk says exactly under the conditions above, and offsets past its end are refused |
| `Bsim.StepInv` | cpp/BsimCtrl.cxx:74-161 | every call of the server, of a client and of the hardware keeps the invariant that says where each read is: on its way, in the slot, on its way back or received |
| `Bsim.Reachable` | cpp/BsimCtrl.cxx:74-161 | the invariant holds after every interleaving of any number of clients |
| `Bsim.CheckTakesFirst` | cpp/BsimCtrl.cxx:99-141 | checkForRequest takes the oldest request of the first accepted socket that has one, nothing if none has or the slot is full |
| `Bsim.ReadsGetTheirOwnAnswers` | cpp/portalSocket.c:282-322 | each result of a read is the hardware's answer to that same read of that same client, and an interrupt is never taken for a response |
| `Bsim.OneReadAtATime` | cpp/BsimCtrl.cxx:99-161 | while a fetched read is unanswered nothing is dequeued and nothing is found to fetch, and the answer goes to the socket and portal the read came from |
| `Bsim.ReadsReturnOnceInOrder` | cpp/portalSocket.c:306-322 | every read a client has issued is the one it waits for or has returned, once, in order |
| `BsimOrder.ArrayInOrder` | cpp/BsimCtrl.cxx:51-66 | in every run the server's array holds the clients that were accepted, each once, in that order |
| `BsimOrder.RequestsArriveInOrder` | cpp/portalSocket.c:306-329 | in every run the requests the hardware has got from a client, the one in the slot and those under way are its writes and reads in the order of its calls, each once, with its own portal, address and data, and for a read its number as the tag |
| `BsimOrder.LevelsArriveInOrder` | cpp/BsimCtrl.cxx:74-86 | in every run each change of the interrupt level after a client was accepted reaches it, once and in order, and the client holds the last that it has seen |
| `BsimOrder.HoldsLevelIff` | cpp/portalSocket.c:282-304 | a client with no level under way holds the level last set if and only if that is 0 or it changed since the client was accepted |
| `BsimOrder.ReadsComplete` | cpp/portalSocket.c:306-322 | in no run is a read stuck: from every reachable state the hardware's steps and the reader's polling lead to its return with the hardware's answer to it, and change no other client |
| `BsimCode.BsimCtrl.CheckRequest` | cpp/BsimCtrl.cxx:99-141 | a full slot is left alone; otherwise the oldest request of the first accepted socket that has one moves to the slot, its queue alone gets shorter, and the answer is yes for that request's kind only; with none waiting nothing changes but the socket an empty slot names |
| `BsimCode.BsimCtrl.GetRequest` | cpp/BsimCtrl.cxx:143-151 | the hardware gets the request's data or tag and address; a fetched write frees the slot, a fetched read keeps it shut to both kinds, with nothing taken from any socket |
| `BsimCode.BsimCtrl.ReadResponse` | cpp/BsimCtrl.cxx:153-161 | the slot is free, the queue of the request's socket grows by one response with the request's portal, and no other queue changes |
| `BsimCode.BsimCtrl.SetInterruptLevel` | cpp/BsimCtrl.cxx:74-86 | a changed level goes to every accepted socket, one message behind what was under way for each time the socket is in the array; an unchanged one goes to none |
| `BsimCode.BsimClient.PollResponse` | cpp/portalSocket.c:282-294 | the held response and those that have arrived are conserved in order, a held response is never replaced, and an interrupt is never held |
| `BsimCode.BsimClient.AwaitResponse` | cpp/portalSocket.c:306-322 | the polling loop skips interrupts and returns the data of the first response if that is for its portal, leaving the others queued |
| `CommandRing.StepInv` | examples/ring/testring.cpp:298-323 | every step of ring_send and of the hardware keeps the invariant that ties credit, pointers and contents |
| `CommandRing.Reachable` | examples/ring/testring.cpp:178-323 | the invariant holds after every interleaving, for every ring of one slot or more |
| `CommandRing.RingIsSafe` | examples/ring/testring.cpp:298-323 | in every reachable state the cached space never exceeds the free space, it is at least one slot at each copy, no copy overwrites a command that is not acknowledged, and a full ring never looks empty |
| `CommandRing.HardwareSeesOldest` | examples/ring/testring.cpp:298-323 | what lies at the hardware's pointer is the oldest command that it has not acknowledged, intact |
| `CommandRing.NothingWraps` | examples/ring/testring.cpp:84-93 | in every reachable state of a ring of up to 2^32 bytes the pointers, the step of first and the credit fit an unsigned |
| `CommandRing.AsksAtQuarters` | examples/ring/testring.cpp:304-310 | in every reachable state ring_send asks the hardware exactly when its credit is none, a quarter, a half or three quarters of the ring, and goes on with the answer exactly when a slot was free as it was given |
| `CommandRing.SendCompletes` | examples/ring/testring.cpp:298-323 | from every reachable state between calls in which a slot is free, the command is copied after at most one inquiry |
| `CommandRing.SWRing.constructor` | examples/ring/testring.cpp:178-187 | an empty ring with all but one slot free |
| `CommandRing.SWRing.AwaitCredit` | examples/ring/testring.cpp:304-310 | the loop asks only when the credit is a multiple of a quarter, and ends at the first answer that leaves credit |
| `CommandRing.SWRing.RingSend` | examples/ring/testring.cpp:298-323 | the command is copied and the pointer and credit move as the model's steps say, or the call is still waiting and the ring is untouched |
| `Completions.CallbacksRunOnce` | examples/ring/testring.cpp:107-144 | in every run the free list and the tags in use share out 1 to 1023, and each registered callback is outstanding under exactly one tag or has been completed exactly once |
| `Completions.OldestTagFirst` | examples/ring/testring.cpp:107-144 | in every run the tag that a registration takes is the one that has been free for longest |
| `Completions.AllCalledWhenIdle` | examples/ring/testring.cpp:107-144 | once every tag is back, each callback with a function has been called as often as it was registered, with its own argument, nothing else has been called, and 1023 tags are free |
| `Completions.CompletionTable.constructor` | examples/ring/testring.cpp:107-119 | the table of the model's initial state |
| `Completions.CompletionTable.Take` | examples/ring/testring.cpp:121-130 | the tag that has been free for longest, now bound to this callback, or none if and only if all are in use |
| `Completions.CompletionTable.HandleCompletion` | examples/ring/testring.cpp:132-144 | the function registered with the tag is called, if there is one, and the tag is free again |

## Left out

- Hardware memory ordering and cache flushing: the ring's loads and stores are sequentially consistent and word-atomic.
- Socket, ioctl, mmap, PCIe and Zynq plumbing, and the socket and mux transports: state around descriptors only.
- The kernel variant of the simulator client, its file-descriptor messages and `fd_array`'s limit of ten sockets.
- In the message compiler: Float, fields over 64 bits, signed Int, file descriptors, Vector, and the resolution of typedefs and of Enum widths; every field's width is given.
- `gotohc`'s printed script and its case of a single symbol: the script's indices are not tied to the cost, and an empty gap is charged there.
- `ring_next` and `ring_pop` of the status ring, and a `finish` callback that itself sends a command before its tag is free again.
- `region`, `setInterface` and the mapped pointers of the MMU server: foreign calls; `lib/cpp/userReference.h` repeats the border arithmetic.
- Allocation failures of the small kernel structures other than the table, which one flag stands for.
- Shared areas of 2^31 words and more, and command rings of more than 2^32 bytes: the model's numbers are unbounded, and `SharedRing.NothingOverflows` and `CommandRing.NothingWraps` show that below those sizes the code's `int` and `unsigned` hold them.
- SharedPortal.Portal.BusywaitShared: the values that READ takes while the loop spins are a parameter, since another process stores them; termination is `SharedRing.Drain`.
- CommandRing.SWRing.RingSend: the hardware's answers are a parameter, and the call is still waiting when they run out.
- BsimCode.BsimClient.AwaitResponse: runs over the messages that have arrived; waiting for more is another call.
- The instance number that the MMU ors into its answers, and checks in its messages, under simulation; a mapping without a buffer, which the debugger access refuses.
- MmuServer.MMUServer.IdRequest: with all areas taken the code goes on past its array; the model only says that there is no area.
- MmuServer.MMUServer.SglistRequest: for an id beyond the array the code goes on past it; the model only says so.
- BufferMap.PageList: from 8 TB on, where the int count of pages overflows, the model says only that it does.
