# Verified model of the fuzz monitor

The monitor receives the inputs of a fuzzer, runs the system under test on each of them, reads the
trace of `(from, to)` branches that the run took, and reports how much of that trace is new. This
project models the parts of it that hold state or compute something:

* **The branch graph** (`c_monitor/graph.c`): the adjacency structure `graph_add` builds, and the
  breadth-first search whose result is logged as the depth. `walks.dfy` says on the set of edges alone
  what that depth is; `adjacency.dfy` and `search.dfy` hold the representation and the invariants of
  the search; `graph.dfy` holds the class whose methods are proved against them.
* **Trace processing** (`process_branches` and `free_hashtable` in `c_monitor/main.c`): filtering,
  the map to basic blocks (`blocks.dfy`), the string keys (`decimal.dfy`, `text.dfy`, `keys.dfy`), the
  hit table (`counting.dfy`, `table.dfy`), what a call and a whole session compute (`hits.dfy`,
  `sessions.dfy`), the methods that compute it (`process.dfy`), and the release of the table with the
  graph rebuilt from its keys (`teardown.dfy`).
* **Seen-input accounting** (`monitor_loop`): the state machine over counts, maximum and resetting
  total (`seen.dfy`), its table (`seen_table.dfy`), the loop (`monitor.dfy`), and a whole run of the
  process (`program.dfy`).
* **The checksum of an input** (`c_monitor/util.c`): `crc_table.dfy` and `crc.dfy`.
* **The Rust side** (`src/myperf.rs`) and the text it reads from `perf` (`perf/main.c`):
  `perf_text.dfy` and `branch_store.dfy`.

Cells that the C code allocates with `malloc` live in `Memory.Heap`. Loading, storing and freeing
demand a live cell, so a use after release or a second release does not verify, and what the methods
state about the set of live cells is the conservation of ownership. Values that a method computes are
tied to functions on plain values (`View`, `EdgesIn`, `Process`, `After`, `Remainder`), and the
properties are lemmas about those.

## Main results

1. `graph_depth` from a source returns one more than the largest distance to a source it reaches, where
   distances are lengths of shortest walks with at least one edge, so that a start on a cycle is at the
   distance of its shortest cycle. It depends on the set of edges only, polls at most one item more than
   there are sources, is at most one more than the number of sources (reached by a simple cycle), and is
   the true eccentricity or one more, with the exact condition for each.
2. `process_branches` computes a function of the table and the multiset of trace records. Over any
   session an edge is in the table exactly when a kept branch was mapped to it, and its counter is the
   number of such branches modulo 2^64; the reported totals add up to the table's size and, exactly when
   no counter wrapped, to the sum of its counts.
3. Over a whole run every allocated cell is released exactly once, except the hash cells that
   `monitor_loop` forgets when the 32-bit counter of a known hash comes to 0 or to 1. None is lost exactly
   when no hash is seen 2^32 times; a hash seen n > 0 times costs n / 2^32 + (n - 1) / 2^32 cells, each
   quotient rounded down, and the losses of a run are those of its hashes added up. One input sent 2^32
   times loses a cell, and no shorter run does.
4. After any run the graph file has one line for each edge kept, with its count and its addresses as
   `atol` reads them back. The graph rebuilt from the file's edges is sure to be the set of edges kept,
   whatever `atol` does on overflow, exactly when all addresses kept fit a signed long, and then `graph_add`
   never meets an edge it knows. The monitor can keep addresses that do not fit: its kernel bound is far
   above 2^63 (`Teardown.UnreadableIsKept`).
5. After every accounting step the total lies between the number of hashes and twice that number, a reset
   fires exactly when the repeats since the last one exceed the number of hashes, and there are at most
   half as many resets as repeats: each reset uses up one repeat for every hash in the table and one more,
   and the repeats since the last reset are the rest. The recorded maximum is the largest value any counter
   has shown, and the recorded key is the first hash whose counter showed it. The maximum is the largest
   count exactly when no hash was seen 2^32 times or some counter stands at 2^32 - 1; maximum and key are
   both right exactly when no hash was seen 2^32 times or the first hash to be seen 2^32 - 1 times has its
   counter at 2^32 - 1. `SeenMachine.MaxRightKeyWrong` gives a run that tells the two conditions apart.
6. `util_CRC64` is the bit-at-a-time division for every buffer, and two buffers of one length that differ
   within 64 consecutive bits, at any alignment, get the same checksum exactly when they are equal. Nine
   bytes are too many: a colliding pair is given.
7. Text printed by `perf`, with arbitrary other lines in between, is read back as the filtered branches,
   and `BranchStore` then counts and reports as `process_branches` does without blocks and bounds.

## Where comments and code differ

* `n_nodes` is commented as the number of vertices. The code adds two for a new source and one for a
  further edge of a known source, so it is the number of sources plus the number of edges. That is the
  number of addresses exactly when no target is a source and no two edges share a target; a branch that
  jumps to itself counts as two (`Adjacency.SelfLoopCountsTwice`).
* The assertion at `c_monitor/graph.c:164` admits a start index equal to the number of sources; the list
  look-up that follows needs it to be smaller, which every caller guarantees.
* Section bounds are inclusive at both ends, although the end is computed as start plus size, so the first
  address after the section passes (`HitCounting.SectionEndPasses`).
* A basic block that starts at address 0 looks like no block at all, and can undo an earlier match: when
  (`BlockMap.ZeroUndoes`), and on what input (`BlockMap.ZeroUndoesOne`).
* Where blocks overlap, the start found for an address can depend on the other address of its branch: when
  (`BlockMap.PartnerIsMootExactly`), and on what input (`BlockMap.PartnerMatters`). For lists with a block
  at 0 the condition (`BlockMap.PartnerIsMootInGeneral`) is of a weaker kind: it looks at pairs of addresses
  at the point where the scan for them stops.

## Model

| member | source | states |
|---|---|---|
| Crc64.TableIsEightShifts | c_monitor/util.c:4-70 | each of the 256 constants is its own index put through eight steps of the reflected division |
| Crc64.TableStepIs | c_monitor/util.c:77-77 | the loop body: the table at the low byte of the state exclusive-or the input byte, exclusive-or the state shifted by 8 |
| Crc64.TableStepFeedsByte | c_monitor/util.c:76-78 | the table look-up in the loop feeds the eight bits of its byte, least significant first |
| Crc64.Crc64 | c_monitor/util.c:72-81 | the table-driven loop returns the remainder of the bit-at-a-time division |
| Crc64.Crc64Rev | c_monitor/util.c:83-92 | the backward loop returns the remainder of the reversed buffer |
| Crc64.ReverseAt | c_monitor/util.c:87-87 | the reversed buffer has the same length, and byte i is the one that far from the end |
| Crc64.RemainderOfConcat | c_monitor/util.c:72-81 | the checksum of a concatenation continues from the state after the first part |
| Crc64.RemainderLinear | c_monitor/util.c:72-81 | for equal lengths the checksum of a bytewise exclusive-or is the exclusive-or of the checksums |
| Crc64.LeadingZerosInvisible | c_monitor/util.c:72-81 | leading zero bytes never change the checksum |
| Crc64.CommonSuffix | c_monitor/util.c:72-81 | a common suffix keeps checksums equal, or different |
| Crc64.FeedBitsInjective | c_monitor/util.c:76-78 | different states never meet on the same message |
| Crc64.BurstOfBits | c_monitor/util.c:72-81 | bit strings that agree outside 64 consecutive bits and lead from one state to one state are equal |
| Crc64.BurstDistinct | c_monitor/util.c:72-81 | buffers of one length differing within 64 consecutive bits have equal checksums exactly when they are equal |
| Crc64.ByteBurstDistinct | c_monitor/util.c:72-81 | the same for a window of 8 consecutive bytes |
| Crc64.WiderBurstCollides | c_monitor/util.c:72-81 | two nine-byte buffers that differ and share a checksum |
| Base.CounterWidths | c_monitor/main.c:439-441 | 64-bit and 32-bit counters wrap at 18446744073709551616 and 4294967296 |
| Walks.WalkIsPath | c_monitor/graph.c:188-200 | a walk of k edges is a sequence of k + 1 addresses with an edge from each to the next |
| Walks.Dist | c_monitor/graph.c:188-200 | the length of a shortest walk with at least one edge, 0 when there is no walk |
| Walks.SettledDepth | c_monitor/graph.c:179-207 | distances that no edge improves on are the shortest ones, and one more than the largest is the depth |
| Walks.DepthAgainstEccentricity | c_monitor/graph.c:188-200 | the depth is the eccentricity or one more, and the eccentricity exactly when no source lies that far |
| Walks.DepthBound | c_monitor/graph.c:173-207 | the depth is at least 1 and at most one more than the number of sources |
| Walks.ConnDepthBound | c_monitor/graph.c:211-222 | the depth of the graph is 0 exactly for no edges, and otherwise bounded likewise |
| Walks.CycleDepth | c_monitor/graph.c:168-200 | on a simple cycle the bound is reached |
| Adjacency.EdgeSetHas | c_monitor/graph.c:8-13 | a pair is an edge exactly when some source slot holds it |
| Adjacency.CountIsSize | c_monitor/graph.c:122-135 | the row lengths add up to the number of distinct edges |
| Adjacency.AddressesWithinCounter | c_monitor/graph.c:12-12 | sources plus edges is never below the number of distinct addresses, and equal to it exactly when no target is a source and no two edges share a target |
| Adjacency.SelfLoopCountsTwice | c_monitor/graph.c:74-83 | the graph of one self-loop has one address and a counter of two |
| Search.PollNext | c_monitor/graph.c:180-183 | polling the head keeps the queue ordered within two depths and every depth a walk length |
| Search.Discover | c_monitor/graph.c:190-197 | marking and queueing an unmarked source one level deeper keeps the invariant |
| BranchGraph.RowCloses | c_monitor/graph.c:189-200 | a source whose row was followed to its end leads only to marked sources, one level on at most |
| Search.Finish | c_monitor/graph.c:180-203 | once the polled source leads only to marked sources, it is finished and the search invariant holds again |
| Search.PollCount | c_monitor/graph.c:180-203 | a polled source was not finished before, so there are no more polls after the first than sources |
| Search.Exhausted | c_monitor/graph.c:180-207 | when the queue is empty the result is the depth |
| BranchGraph.EmptyGraph | c_monitor/graph.c:16-26 | a new graph meets the representation invariant, holds no cell and has no edge |
| BranchGraph.Graph.Add | c_monitor/graph.c:43-85 | adds exactly the pair to the edges; which of the three answers is given and which cells are kept in each case; keeps the representation invariant |
| BranchGraph.Graph.FindNodeIndex | c_monitor/graph.c:145-156 | the index of a source with the address, or -1 when there is none |
| BranchGraph.Graph.FollowEdges | c_monitor/graph.c:182-200 | the inner loop closes the polled source and raises the result to one level deeper |
| BranchGraph.Graph.Depth | c_monitor/graph.c:159-208 | the depth from the start, 0 for an empty graph, within one poll more than sources |
| BranchGraph.Graph.DepthConn | c_monitor/graph.c:211-222 | the largest depth over all starts, a function of the edge set, never above the node counter |
| BranchGraph.Graph.EdgeTotal | c_monitor/graph.c:122-135 | the number of distinct edges |
| BranchGraph.Graph.NodeTotal | c_monitor/graph.c:116-119 | sources plus edges; the number of distinct addresses exactly when no target is a source and no two edges share a target, and more otherwise |
| BranchGraph.Graph.PrintAndFreeAll | c_monitor/graph.c:88-113 | delivers every edge exactly once and releases exactly the graph's cells |
| BranchGraph.PrintAndFree | c_monitor/main.c:59-78 | one line an edge when there is a file, and every cell of the source released |
| Decimal.PrintDigits | c_monitor/main.c:203-203 | the characters 0 to 9 stand for the digits, and the last digit comes last |
| Decimal.PrintOfExample | c_monitor/main.c:203-203 | three numbers and their text |
| Decimal.ValueDigits | c_monitor/main.c:115-117 | one more digit makes a number ten times as large, plus the digit |
| Decimal.ParseAccepts | src/myperf.rs:74-75 | digits of a number below 2^64 are read, after a plus sign or not; no digits, or another character, are an error |
| Decimal.ValueOfPrint | c_monitor/main.c:203-203 | printing and reading a number in decimal gives it back |
| Decimal.PrintFits | c_monitor/main.c:201-203 | a 64-bit number prints in at most 20 characters |
| Decimal.ParseOfPrint | src/myperf.rs:74-75 | Rust's parser accepts what PRIu64 prints, over all of uint64 |
| KeyCodec.KeyFits | c_monitor/main.c:201-203 | every key fits its 64-byte buffer untruncated |
| KeyCodec.KeyIs | c_monitor/main.c:203-203 | a key is the two numbers in decimal with a slash between them |
| KeyCodec.KeySplits | c_monitor/main.c:110-113 | the first separator splits a key into its two numbers |
| KeyCodec.KeyInjective | c_monitor/main.c:201-203 | keys are equal exactly when the pairs are, over all of uint64 |
| KeyCodec.DecodeOfKey | c_monitor/main.c:110-117 | a key reads back as its pair, an address of 2^63 or more as whatever atol gives for its text |
| KeyCodec.RoundTrip | c_monitor/main.c:110-117 | reading a key back is sure to give its pair exactly when both addresses are below 2^63 |
| BlockMap.OneBlock | c_monitor/main.c:187-199 | one block, not at 0, maps exactly the addresses from its start to just before its end |
| BlockMap.DisjointBlocks | c_monitor/main.c:187-199 | with blocks that do not overlap, an address in from <= a < to goes to from, and an address in none stays |
| BlockMap.MapInFull | c_monitor/main.c:187-199 | for any blocks: the last from with from <= a < to among those looked at, up to the first after which both addresses have one other than 0 |
| BlockMap.LastStartIs | c_monitor/main.c:187-192 | the last block that holds an address decides its start |
| BlockMap.LastStartNone | c_monitor/main.c:185-192 | without such a block the start stays 0 |
| BlockMap.Scanned | c_monitor/main.c:187-195 | scanning stops at the first block that leaves both starts non-zero, or at the end |
| BlockMap.MapToBlocks | c_monitor/main.c:183-199 | the loop maps both addresses to the last start found up to there, or to themselves |
| BlockMap.MapIsHome | c_monitor/main.c:183-199 | for blocks that start together where they overlap the map acts on each address alone |
| BlockMap.MapIsIdempotent | c_monitor/main.c:183-199 | for such blocks mapping twice is mapping once |
| BlockMap.NoBlocks | c_monitor/main.c:187-199 | without blocks a branch stays itself |
| BlockMap.PartnerIsMootExactly | c_monitor/main.c:183-199 | for lists without a block at 0, the map acts on each address alone exactly when, wherever an address is first found, all found so far have their final starts |
| BlockMap.PartnerIsMootInGeneral | c_monitor/main.c:183-199 | for any list, partners never matter exactly when any two addresses, where the scan for both stops, have the starts that the whole list gives |
| BlockMap.MootIsOnEach | c_monitor/main.c:183-199 | partners never matter exactly when every address goes to its own block start |
| BlockMap.PartnerMatters | c_monitor/main.c:193-194 | two overlapping blocks and an address whose result depends on its partner |
| BlockMap.SteadyButNotCompatible | c_monitor/main.c:187-195 | overlapping blocks with different starts for which partners never matter |
| BlockMap.ZeroUndoes | c_monitor/main.c:187-199 | a found start is lost again exactly when the last block that holds the address starts at 0, an earlier one does not, and the two addresses never had starts at once |
| BlockMap.ZeroUndoesOne | c_monitor/main.c:187-199 | a list and a branch for which a block at 0 undoes an earlier match, and a partner for which it does not |
| Counting.TallyAt | c_monitor/main.c:218-231 | after counting, a counter has advanced by the occurrences of its key, modulo its width |
| Counting.SumOfTally | c_monitor/main.c:218-231 | the counts add up to the number of keys counted exactly when no counter wrapped |
| HitCounting.PairsOfOne | c_monitor/main.c:171-179 | a record gives an edge if and only if neither address is above 0xFFFFFFFF00000000 and, with bounds, both lie between start and end, ends included |
| HitCounting.PairsCount | c_monitor/main.c:169-181 | there are as many edges, with repetitions, as records that pass these tests |
| HitCounting.ProcessCounts | c_monitor/main.c:169-232 | one call advances each counter by the kept branches mapped to its pair |
| HitCounting.ProcessReports | c_monitor/main.c:169-255 | new branches are the graph's edges the table lacked, at most its edges, at most the kept branches; the depth is 0 exactly when none was kept |
| HitCounting.SectionEndPasses | c_monitor/main.c:175-179 | what passes the section filter with an address outside the section has an address at its end, and such a branch does pass |
| HitCounting.GraphIsMapped | c_monitor/main.c:183-205 | with compatible blocks every address in the graph is a fixed point of the map |
| HitCounting.OrderIndependent | c_monitor/main.c:169-255 | permuting a trace changes neither the table nor any reported number |
| Sessions.SessionCounts | c_monitor/main.c:218-231 | after any calls a pair is in the table exactly when it was kept, counted modulo 2^64 |
| Sessions.SessionKeys | c_monitor/main.c:203-226 | the keys of the table are those of the kept pairs |
| Sessions.SessionFits | c_monitor/main.c:218-231 | the table of a session meets what the per-call results ask of one |
| Sessions.SessionTotals | c_monitor/main.c:230-255 | the reported totals are the table's size and the kept branches, and its counts add up to them exactly when none wrapped |
| HitTables.HitTable.Get | c_monitor/main.c:219-219 | the counter cell of a key, looked up by text |
| HitTables.HitTable.Add | c_monitor/main.c:226-226 | the table keeps a new key and its counter, and nothing else changes |
| HitTables.HitTable.CountKey | c_monitor/main.c:218-231 | counts the key; its cell is kept if new and released otherwise |
| TraceProcessing.AddAndRelease | c_monitor/main.c:205-216 | after adding, exactly the cells the graph did not keep are released |
| TraceProcessing.NewCells | c_monitor/main.c:183-203 | three fresh cells hold the mapped addresses and their key |
| TraceProcessing.RecordBranch | c_monitor/main.c:183-231 | one kept branch adds its mapped edge and counts its key; who holds which cell stays accounted for |
| TraceProcessing.RecordAll | c_monitor/main.c:169-232 | the loop builds the graph, table and counters of the kept branches |
| TraceProcessing.PrintGraph | c_monitor/main.c:235-252 | the graph's edges are printed or not and its cells released either way |
| TraceProcessing.ProcessBranches | c_monitor/main.c:153-258 | reports and leaves what the value-level function says, the filtered count being the number of records that no filter drops; of the cells it allocated only those in the table stay live |
| Teardown.RebuildEdge | c_monitor/main.c:110-136 | a key is copied, split, read and added; the copy and rejected cells are released |
| Teardown.FreeEntry | c_monitor/main.c:108-138 | one entry's key and counter are released, after its line is written |
| Teardown.CloseGraph | c_monitor/main.c:142-149 | logs sources plus edges and edges, and releases the graph's cells |
| Teardown.FreeHashtable | c_monitor/main.c:81-150 | releases exactly the table's cells; writes one line a key, visiting every key once; graph_add answers BOTH_EXIST exactly for an edge of an earlier line; the graph is the decoded keys |
| Teardown.RebuildExact | c_monitor/main.c:110-124 | the keys of an edge set read back as that set, whatever atol does on overflow, exactly when all addresses are below 2^63 |
| Teardown.SessionRebuilds | c_monitor/main.c:105-149 | after any session the table has a key for each kept edge, and its keys read back as exactly the kept edges, whatever atol does on overflow, if and only if all their addresses are below 2^63 |
| Teardown.UnreadableIsKept | c_monitor/main.c:171-173 | a branch from 2^63 is kept and its edge does not read back |
| Teardown.SessionFile | c_monitor/main.c:105-123 | after any session the file has one line for each kept edge, with its addresses as read back and its count modulo 2^64 |
| Teardown.LinesAreRead | c_monitor/main.c:113-121 | an address below 0x8000000000000000 is written as it is, another as atol gives it |
| Teardown.FileIsExact | c_monitor/main.c:105-123 | the edges of such a file are sure to be those kept if and only if all their addresses are below 2^63 |
| Teardown.SessionLines | c_monitor/main.c:105-136 | after such a session the file has one line for each kept edge with its count modulo 2^64, and graph_add never answers BOTH_EXIST |
| SeenMachine.SeenCounts | c_monitor/main.c:436-447 | a hash is in the table exactly when seen, counted modulo 2^32, and the counts add up to the inputs exactly when none wrapped |
| SeenMachine.DistinctHashes | c_monitor/main.c:440-447 | the table's keys are the distinct hashes seen |
| SeenMachine.MaxTracked | c_monitor/main.c:449-458 | while no hash is seen 2^32 times counts are at least 1 and the recorded maximum and key are right |
| SeenMachine.MaxIsPeak | c_monitor/main.c:449-458 | wraps or not, the recorded maximum is the largest value a counter has shown, and the recorded key's counter has shown it |
| SeenMachine.MaxKeyIsFirst | c_monitor/main.c:449-458 | the recorded key is the hash of the first input by which a hash had been seen as often as the recorded maximum |
| SeenMachine.MaxRightExactly | c_monitor/main.c:449-458 | the recorded maximum is the largest count exactly when no hash was seen 2^32 times or some counter stands at 2^32 - 1 |
| SeenMachine.RecordRightExactly | c_monitor/main.c:449-458 | the recorded key has the recorded maximum as the largest count exactly when no hash was seen 2^32 times or the first hash seen 2^32 - 1 times has its counter there |
| SeenMachine.MaxRightKeyWrong | c_monitor/main.c:449-458 | one hash 2^32 times and another one time less: the maximum is right and the recorded key's counter is at 0 |
| SeenMachine.LosesExactly | c_monitor/main.c:440-458 | a hash cell is neither stored nor released exactly when a known hash's occurrences come to 0 or 1 modulo 2^32 |
| SeenMachine.LostExactly | c_monitor/main.c:434-458 | no cell is lost exactly when no hash is seen 2^32 times |
| SeenMachine.LostIsSum | c_monitor/main.c:434-458 | the number of cells lost is the sum over the hashes of n / 2^32 + (n - 1) / 2^32 |
| SeenMachine.FirstLoss | c_monitor/main.c:434-458 | one hash seen 2^32 times loses one cell, and none before |
| SeenMachine.ShortRunsLoseNothing | c_monitor/main.c:434-458 | fewer than 2^32 inputs lose no cell, whatever they are |
| SeenMachine.TotalBounds | c_monitor/main.c:434-463 | the total is between the number of hashes and twice that |
| SeenMachine.ResetRule | c_monitor/main.c:459-463 | the total exceeds the number of hashes by the repeats since the last reset, which fires exactly when they exceed it |
| SeenMachine.ResetsPaid | c_monitor/main.c:459-463 | the repeats are those since the last reset and, for each reset, one more than there were hashes at it |
| SeenMachine.ResetBound | c_monitor/main.c:459-463 | there are at most half as many resets as repeats |
| SeenTables.HashIsChecksum | c_monitor/main.c:438-438 | the hash of an input is its checksum |
| SeenTables.HashCell | c_monitor/main.c:436-438 | a fresh cell holds the checksum of the input |
| SeenTables.SeenTable.CountHash | c_monitor/main.c:439-447 | the hash is counted and its cell kept exactly when it is new |
| SeenTables.SeenTable.RecordMax | c_monitor/main.c:449-458 | keeps the larger count with its hash; releases the hash cell exactly when the count exceeds 1 |
| SeenTables.SeenTable.SettleHash | c_monitor/main.c:439-458 | the hash is counted, the maximum and its key kept, and the hash cell stored, released or lost |
| SeenTables.SeenTable.ResetTotal | c_monitor/main.c:459-463 | the total is reset exactly when it exceeds twice the number of hashes |
| SeenTables.SeenTable.Account | c_monitor/main.c:434-463 | one step of the state machine on the checksum of the input; the hash cell is stored or released, and lost exactly when the hash is known and its counter was 2^32 - 1 or 0 |
| SeenTables.SeenTable.FreeAll | c_monitor/main.c:503-515 | releases exactly the table's keys and counters |
| SeenTables.BurstsCountedApart | c_monitor/main.c:438-440 | inputs differing within 64 consecutive bits share an entry exactly when they are equal |
| SeenTables.PaddingCountedTogether | c_monitor/main.c:438-440 | an input and the same input after zero bytes share an entry |
| MonitorLoop.HashesAre | c_monitor/main.c:438-438 | the hashes of a run are the checksums of its inputs |
| MonitorLoop.SeeInput | c_monitor/main.c:434-463 | accounting an input leaves the hit table alone; as many cells are lost so far as the machine says, none exactly when no hash was seen 2^32 times |
| MonitorLoop.SameInputLosesACell | c_monitor/main.c:374-518 | the loop over one traced input that arrives 2^32 times gets through all of them and loses exactly one cell |
| MonitorLoop.ShortRunLosesNothing | c_monitor/main.c:374-518 | the loop over fewer inputs loses none |
| MonitorLoop.SeeTrace | c_monitor/main.c:475-485 | processing a trace leaves the accounting alone and keeps the maximum depth over all traces |
| MonitorLoop.Turn | c_monitor/main.c:411-499 | one turn either completes an input or stops at a failed run with the input already accounted for |
| MonitorLoop.FailedInputCounts | c_monitor/main.c:434-472 | the input of a failed run has been counted once more than it came before |
| MonitorLoop.Run | c_monitor/main.c:374-518 | the whole loop: table, depth and accounting are those of the session, and of the cells allocated only the hit table's and the lost ones stay live |
| Program.ShutDown | c_monitor/main.c:81-150 | after any run the table is released; the file has one line for each edge kept, as read back, with its count; the size logged is that of the edges written; graph_add answers BOTH_EXIST exactly for an edge of an earlier line |
| Program.ReportsOfReadable | c_monitor/main.c:105-149 | when the addresses kept are below 2^63, the lines and the logged size are those of the kept edges and no edge is met twice |
| Program.RunRebuilds | c_monitor/main.c:105-149 | for any inputs processed, the edges written are sure to be those kept if and only if all addresses kept are below 2^63 |
| Program.RunAndShutDown | c_monitor/main.c:635-642 | a whole run releases every cell exactly once but for the lost ones, none exactly when no hash was seen 2^32 times; its file, logged size and answers are as ShutDown and ReportsOfReadable say |
| PerfText.BranchLineIs | perf/main.c:50-50 | the line of a branch is the word branch and its addresses in decimal, with commas between |
| PerfText.PrintableNext | perf/main.c:45-47 | a branch is printed if and only if neither address is above 0xFFFFFFFF00000000 |
| PerfText.PrintTrace | perf/main.c:44-51 | prints one line for each branch outside the kernel, in order |
| PerfText.ReadTrace | src/myperf.rs:65-81 | the loop reads every tagged line, in order, or fails on the first that cannot be read |
| PerfText.LinesAre | src/myperf.rs:68-68 | a line ends at a newline or with the text and loses one carriage return |
| PerfText.ParseLinesNext | src/myperf.rs:68-79 | lines that start with the word branch are read, the others skipped |
| PerfText.ParseRecordIs | src/myperf.rs:70-77 | the addresses are the second and third comma-separated fields; without them, or if one is no number, reading fails |
| PerfText.ParseRecordOf | src/myperf.rs:70-77 | the printed text of two addresses is read as them, with third word 0 |
| PerfText.RecordRoundTrip | src/myperf.rs:70-77 | a printed line is read back as its addresses with the third word 0 |
| PerfText.LinesOfRender | src/myperf.rs:66-68 | splitting a text into lines undoes joining them |
| PerfText.RenderIs | perf/main.c:50-50 | each line is followed by a newline |
| PerfText.ReadAllRecords | src/myperf.rs:65-81 | from a text of printed lines the reader returns every branch, in order |
| PerfText.ReadBack | src/myperf.rs:65-81 | the text of printed branches, with any other lines in between, is read back as exactly those branches |
| PerfText.PrintedInterleaves | perf/main.c:44-51 | what perf prints is such a text |
| BranchStores.BranchStore.Add | src/myperf.rs:94-105 | counts every branch and returns how many entries are new |
| BranchStores.ReadPairs | src/myperf.rs:65-81 | without blocks and bounds the reader gets the pairs that process_branches keeps |
| BranchStores.SameCounts | src/myperf.rs:94-105 | after any session store and hit table have the same entries and counts |
| BranchStores.SameNewBranches | src/myperf.rs:94-105 | call by call both report as many new branches |
| BranchStores.ReadAndAdd | src/myperf.rs:54-105 | printing, reading and adding a trace does to the store what process_branches does to the table |

## Left out

- Crc64.TableIsEightShifts: the table is written as sixteen rows of sixteen rather than one array; same constants, same order.
- BranchGraph.Graph.Depth: the queue is a sequence, and the release of its items is not tracked; the search is split into two methods.
- Teardown.RebuildEdge: `atol` is taken on digits only, since keys hold nothing else; its undefined result on overflow is an arbitrary function that the caller passes in.
- Teardown.FreeHashtable: an empty graph object is made even when no graph is wanted, with no effect; the order of the table is arbitrary, as in the source.
- TraceProcessing.ProcessBranches: the counters of a single call are unbounded, as they cannot exceed the 64-bit length of the trace; the early return for null result pointers and the failures of allocation and `fopen` are not modelled.
- SeenTables.SeenTable.FreeAll: a run without any input is taken to end well; the source guards `free_hashtable` against a crash on iterating an empty table, but not this loop (`c_monitor/main.c:94`, `c_monitor/main.c:503-506`).
- SeenTables.SeenTable.ResetTotal: the average is an exact real quotient, not a double; the total and the maximum are unbounded counters.
- BranchStores.BranchStore.Add: counters wrap at 2^64 as in a release build; a debug build stops instead.
- PerfText.ReadTrace: a failed `expect` is a result value, not a panic, and the bytes are taken to be valid text.
- Memory.Heap gives every allocation a new identity; memory of the containers themselves (arrays, lists, tables, the array handed to the printer) is not tracked.
- perf event set-up, ptrace, fork, signals and the wait loop of perf/perf.c: the branch array and its length are inputs.
- ZeroMQ, inotify, files, timing, logging and DOT headers: each input is a byte sequence, and an input whose run fails ends the loop.
- Hashing and resizing inside the Collections-C containers: they are arrays, lists, queues and maps whose operations succeed.
- c_monitor/sections.c and c_monitor/bb.c: section bounds and the block list are inputs.
- preloads/preload.c, src/main.rs, src/perf.rs, src/qemu.rs and the scripts: interposition, command lines and process launching.
