# resql: a model of the log, the replication steps and the libraries under them

resql keeps a replicated log, in the manner of "In Search of an Understandable Consensus Algorithm
(Extended Version)", in front of a state machine that executes SQL. This project models the parts of
it whose correctness is hard to see by reading, in Dafny, and proves what they promise. Code that
updates fields and buffers in place is modelled by classes and loops, each tied to a mathematical
value; code that only computes is modelled by functions.

| file | what it models |
|---|---|
| `HashMap.dfy` | the open-addressing map, `lib/sc/sc_map.c` |
| `Crc32c.dfy`, `Remainder.dfy` | both fast CRC-32C paths, `lib/sc/sc_crc32.c`, against the bitwise division, and that against the remainder by the generator 0x11EDC6F41 (section 12.1 of RFC 3720) |
| `Bits.dfy` | words as naturals, and rounding up to a power of two by smearing bits |
| `Entry.dfy`, `Image.dfy`, `Page.dfy`, `Store.dfy`, `Reopen.dfy` | log entries, page bytes, one page, the two-page store, and the store a restart makes of its files |
| `Merge.dfy`, `Replica.dfy` | merging a leader's batch (section 5.3 of the paper), the commit index and the apply loop on one node |
| `Quorum.dfy`, `ReadGate.dfy` | the majority rule, and the rounds that guard readonly requests (section 8) |
| `Snapshot.dfy` | sending a snapshot in chunks (section 7) |
| `Sessions.dfy`, `Client.dfy`, `Dialogue.dfy` | exactly-once execution: the state machine's sessions, the C client's numbering, and the two joined by the log |
| `Timer.dfy` | the timing wheel |
| `Histogram.dfy` | the bucket arithmetic of HdrHistogram |
| `Buf.dfy`, `Message.dfy`, `Conn.dfy`, `Meta.dfy` | byte buffers, message framing over a stream, and the membership codec |
| `Counterexamples.dfy` | runs at which a promise fails, beside the theorems that say when it holds |
| `Basics.dfy` | small shared definitions |

## How things are modelled

- Bytes are integers from 0 to 255; only the checksum code uses bit vectors. Machine words are natural
  numbers, and 32-bit wrap-around is written out where the code depends on it (page quota, capacities
  of the map, string positions in a buffer).
- What comes from outside is a parameter: the hash function of the map, the outcome of SQL execution
  and of the snapshot thread, the bytes a socket yields, the operations a timer callback performs.
- Fields that exist only to state a property are `ghost`: the mathematical map, the sequence of
  entries behind the bytes, the history of sends and acknowledgements, the fate of every timer.
- A protocol with several parties (the read gate, the snapshot transfer, the client and its session) is
  a class whose methods are its steps. The invariant each step keeps is what holds in every run.

## What does not hold, and exactly when it does

- A capacity above 2^31 rounds up to 2^32, which is zero in 32 bits: `sc_map_init` then succeeds with no
  slot at all. The map is valid if and only if the capacity is at most 2^31 (`HashMap.Map.Init`); from
  the hollow state only a put is safe, and the first one makes the map valid (`HashMap.Map.Put`).
- An entry whose checksum happens to be zero is taken for the end of the page. Such entries exist:
  whatever the fields and the data, four more bytes of data make the checksum zero
  (`Entry.ZeroChecksum`). A scan returns the kept entries if and only if no checksum is zero
  (`Image.ScanExact`); otherwise the entry and all behind it are lost
  (`Counterexamples.ScanLosesFrom`), and a page that has to grow is reported corrupt
  (`Page.Page.Reserve`, `Counterexamples.GrowthFails`).
- A page recovered with a torn last entry does not end with the end mark. All operations work on it
  (`Page.Page.Valid` does not ask for the mark), and the first append or cut restores the mark. Until
  then growing it may fail, because the scan may take leftover bytes for entries (`Page.Page.Reserve`).
- Truncation keeps the store well formed if and only if it does not cut into the snapshotted part that
  page 0 still holds (`Store.Store.RemoveAfter`, `Counterexamples.CutInside`). Taking a snapshot keeps
  it well formed if and only if page 1 continues page 0 (`Store.Store.SnapshotTaken`).
- A restart reads the log back from the two files. What follows the snapshot comes back if and only if
  page 0 starts before page 1 and reaches the snapshot, or starts at the snapshot, or nothing follows it;
  when both pages have the same start the file that is read first counts as page 0
  (`Reopen.Survives`, `Reopen.Restart`). Otherwise everything is cleared, as when a later snapshot
  arrives and the empty page starts first (`Counterexamples.RestartLoses`).
- While page 0 is being snapshotted, a leader's batch may conflict right behind it. The merge is correct
  in that case too (`Replica.Replica.StoreEntries`), but page 1 is emptied and page 0 grows again, and
  a finished snapshot is taken over without a second look. The log and its agreement with the snapshot
  on disk survive that if and only if page 0 still ends where the snapshot was started and page 1 starts
  there (`Replica.Replica.WaitSnapshot`). `Counterexamples.GapAfterSnapshot` runs into it from an empty
  store. A batch without such a conflict never leads there (the `Safe` clauses of
  `Replica.Replica.OnAppendReq`).
- A session compares a request's number with its last one only for equality. Every number runs exactly
  once if and only if the session's numbers form runs that do not start at zero
  (`Sessions.ExactlyOnce`); a session that goes back to an earlier number runs it again
  (`Sessions.GoingBackRunsTwice`). The C client's rule guarantees such runs in every session it has
  (`Dialogue.Dialogue.RunsOnce`).
- Over several sessions that is not enough. When a client's session expires while an operation is
  running, the new session answers the reconnect with 0, and the retry is accepted if and only if the
  operation's number is 1 (`Dialogue.Dialogue.Connect`). So the first operation of a client can run
  again (`Counterexamples.FirstRunsTwice`), and no other can (`Dialogue.Dialogue.RunsOnceOverall`).
- A follower that drops its partial snapshot file while the leader goes on sending accepts a file with a
  hole. The accepted bytes are the leader's if and only if what lies before the first chunk kept is
  zero; without such a drop they always are (`Snapshot.Transfer.Receive`).
  `Counterexamples.TornSnapshot` is such a run. It is reached when a follower votes for a new leader, so
  that its term is already the new one, and takes chunks from it while it still points to the old
  leader: when the old leader's connection then breaks, the next chunk clears the file.
- Sessions expire after a constant 60000 ms, although the state has a `session_timeout` variable.

## Model

| member | source | states |
|---|---|---|
| `HashMap.Map.Alloc` | lib/sc/sc_map.c:93-113 | the new capacity is the least power of two not below the requested one, at least 8, or 0 beyond 2^31; all slots are free |
| `HashMap.Map.Init` | lib/sc/sc_map.c:115-144 | accepted exactly for load factors 0 and 25 to 95; the map is empty and valid if and only if the capacity is at most 2^31, and hollow, without slots, beyond |
| `HashMap.Map.Clear` | lib/sc/sc_map.c:159-169 | the map becomes empty and keeps its capacity |
| `HashMap.Map.Remap` | lib/sc/sc_map.c:171-213 | growing keeps every pair and makes room below the load factor, from a hollow map as well; the table doubles, and only when one more item would pass the load factor; it fails only on a full table of maximal capacity |
| `HashMap.Map.Put` | lib/sc/sc_map.c:215-255 | the contents gain the pair, the previous value and the found flag are those of the mathematical map, it is refused exactly when the table is full and cannot grow, and a hollow map becomes valid |
| `HashMap.Map.Get` | lib/sc/sc_map.c:258-283 | the value and the found flag of the mathematical map, for every key and every pattern of collisions |
| `HashMap.Map.Del` | lib/sc/sc_map.c:286-339 | exactly the key leaves the contents; the old value and the found flag are those of the mathematical map |
| `HashMap.Map.DelZero` | lib/sc/sc_map.c:292-298 | key zero lives in the side slot and is removed there |
| `HashMap.Map.CloseHole` | lib/sc/sc_map.c:315-335 | shifting later items back leaves every other key reachable from its home slot, wraparound included |
| `HashMap.ShiftMove` | lib/sc/sc_map.c:326-334 | moving the item that must shift keeps all others reachable and moves the hole to its place |
| `HashMap.ShiftDone` | lib/sc/sc_map.c:320-324 | when the scan meets a free slot the hole separates no item from its home |
| `HashMap.FreeSlot` | lib/sc/sc_map.c:141-210 | a table that holds fewer pairs than slots has a free slot, so every probe ends |
| `HashMap.Doubled` | lib/sc/sc_map.c:176-210 | doubling a capacity below the limit gives a power of two whose threshold exceeds the size and leaves a slot free |
| `Bits.RoundUpPow2` | lib/sc/sc.c:84-99 | smearing rounds up to the least power of two not below the argument; beyond half the word's range it gives zero |
| `Bits.SmearRound` | lib/sc/sc_map.c:105-107 | one round of or-ing with a shift doubles the number of leading ones |
| `Crc32c.CrcAppend` | lib/sc/sc_crc32.c:423-434 | the checksum of a concatenation is the chained checksum |
| `Crc32c.ThreeLanes` | lib/sc/sc_crc32.c:195-219 | three separately computed lanes, joined by two zero operators, give the register of one pass |
| `Crc32c.MatrixTimes` | lib/sc/sc_crc32.c:66-80 | the loop computes the product of a GF(2) matrix and a vector |
| `Crc32c.TimesIsSteps` | lib/sc/sc_crc32.c:62-80 | a matrix whose columns feed n zero bits, applied to any register, feeds it n zero bits |
| `Crc32c.MatrixSquare` | lib/sc/sc_crc32.c:84-89 | squaring the operator for n zero bits gives the operator for 2n |
| `Crc32c.ZerosOp` | lib/sc/sc_crc32.c:96-132 | the operator feeds as many zero bytes as the largest power of two in the length |
| `Crc32c.Zeros` | lib/sc/sc_crc32.c:136-148 | the four tables hold the operator applied to each byte in each position |
| `Crc32c.ShiftIsSteps` | lib/sc/sc_crc32.c:151-155 | four lookups apply the zero operator to any register |
| `Crc32c.CrcQuadBytes` | lib/sc/sc_crc32.c:46-50 | 64 steps over a register with eight bytes loaded equal eight byte steps |
| `Crc32c.Block` | lib/sc/sc_crc32.c:195-247 | a three-lane block with its two shifts equals a bytewise pass over it |
| `Crc32c.InitHardware` | lib/sc/sc_crc32.c:167-171 | the long and the short table feed 2048 and 256 zero bytes |
| `Crc32c.Hardware` | lib/sc/sc_crc32.c:173-270 | for every buffer, alignment and starting value the three-lane path equals bit-at-a-time CRC-32C |
| `Crc32c.SlicedIsSteps` | lib/sc/sc_crc32.c:306-337 | the sum of one table entry per byte of a 64-bit register is the register after as many bit steps |
| `Crc32c.InitSoftware` | lib/sc/sc_crc32.c:280-301 | table k holds every byte followed by k zero bytes |
| `Crc32c.Software` | lib/sc/sc_crc32.c:306-337 | for every buffer, alignment and starting value the eight-table path equals bit-at-a-time CRC-32C |
| `Crc32c.WordIsSteps` | lib/sc/sc_crc32.c:306-337 | feeding the four bytes of a word equals adding the word to the register and dividing out 32 bits |
| `Crc32c.ZeroAhead` | lib/sc/sc_crc32.c:423-434 | whatever was read, four computed bytes make the checksum zero |
| `Crc32c.TailSteers` | lib/sc/sc_crc32.c:423-434 | four computed bytes bring the register to any word before the last 32 steps |
| `Remainder.RegisterIsRemainder` | lib/sc/sc_crc32.c:423-434 | from any starting register, the register after a message is the remainder of the message polynomial, with the start added, by the generator 0x11EDC6F41 |
| `Remainder.CrcIsRemainder` | lib/sc/sc_crc32.c:423-434 | the complement of the checksum is the remainder of the message 32 places up, the complemented starting value added to its first 32 places |
| `Remainder.RemainderUnique` | lib/sc/sc_crc32.c:423-434 | there is only one such remainder |
| `Remainder.PolyIsGenerator` | lib/sc/sc_crc32.c:37 | the feedback word is the generator without its highest term, bits reversed |
| `Remainder.CheckValue` | lib/sc/sc_crc32.c:423-434 | the checksum of the nine bytes 123456789 is 0xE3069283 |
| `Entry.EncodeFields` | src/entry.c:69-160 | the accessors read back every field of an encoded entry, and the entry is well formed |
| `Entry.ZeroChecksum` | src/entry.c:69-88 | for all fields and data there are four more bytes with which the encoded entry is well formed and its checksum zero |
| `Image.HeaderExact` | src/page.c:130-141 | a page header is accepted if and only if its last four bytes are the checksum of the others as page_clear writes it |
| `Image.ScanTiles` | src/page.c:62-96 | on any bytes the scan ends, and the entries it finds follow each other from the header without gaps and have valid checksums |
| `Image.TilesUnique` | src/page.c:62-96 | such a tiling is the only one that stops where the scan does |
| `Image.EntryDecodes` | src/entry.c:90-114 | a well-formed entry anywhere in an image passes the decoder's checks with its own length |
| `Image.ScanThrough` | src/page.c:62-96 | whole entries at the front of any image are found up to the first zero checksum, and if none is zero the scan goes on behind them |
| `Image.ScanLive` | src/page.c:62-96 | on an image of whole entries the scan returns them up to the first zero checksum |
| `Image.ScanExact` | src/page.c:62-96 | the scan returns exactly the kept entries if and only if none of their checksums is zero |
| `Page.Page.Clear` | src/page.c:228-252 | the page is valid, empty and starts after the given index, its header checksummed |
| `Page.Page.CreateEntry` | src/page.c:333-345 | the page's entries gain the encoded entry; header, older entries and end mark stay laid out |
| `Page.Page.PutEntry` | src/page.c:347-360 | the page's entries gain the given entry |
| `Page.Page.QuotaExact` | src/page.c:285-298 | on every valid page the unsigned quota does not wrap and is exactly the room left |
| `Page.Page.EntryBytes` | src/page.c:362-372 | the position kept for an index is where that entry's bytes lie, with their length in them |
| `Page.Page.GetEntries` | src/page.c:374-405 | the bytes handed out are whole consecutive entries from the index, up to the page's end or the first entry that reaches the limit |
| `Page.Page.RemoveAfter` | src/page.c:407-432 | exactly the entries up to the index stay, and the end mark follows them whenever something was cut or it did before |
| `Page.Page.Read` | src/page.c:62-96 | whatever the bytes, positions and write position are rebuilt as the scan says |
| `Page.Page.Init` | src/page.c:98-153 | a mapped file with a good header becomes what the scan finds, valid if and only if room is left behind it and no entry found is shorter than a header, torn last entry or not; a bad header gives an empty page |
| `Page.Page.Reserve` | src/page.c:174-221 | it makes the quota large enough and keeps the entries, reports full exactly when 2 GB cannot hold the size, and when it has to map the page again it fails if an entry's checksum is zero, and only then if the page ends with the end mark |
| `Page.Page.Remap` | src/page.c:196-218 | the page comes back with the same entries if and only if none of their checksums is zero and the scan stops behind them, which the end mark ensures |
| `Page.NextCap` | src/page.c:174-194 | the next page size is the least power of two above the present one, and at most 2 GB while that is below it |
| `Store.Store.constructor` | src/store.c:122-149 | for any two files: which one stays as page 0, whether the other continues it, and what is cleared, decided by where they start and end; the store is linked, every index after the snapshot resolves, no entry is invented, and the store is valid if both pages are |
| `Store.Store.Trim` | src/store.c:81-90 | the page that holds the snapshot stays, the one that continues it stays, any other is cleared at the snapshot |
| `Store.Store.Recover` | src/store.c:58-120 | whatever the pages hold: the page that starts first stays if the snapshot lies in it, the other if it continues from there, a page that does not stay is cleared at the snapshot and comes second; page 0 starts at or before the snapshot, page 1 is empty or continues it, every index in between resolves, the last index is not below the snapshot |
| `Reopen.Reloads` | src/page.c:98-153 | a page that ends with the end mark and has no zero checksum is read back from its file with the same start and entries |
| `Reopen.Restart` | src/store.c:122-149 | a store opened over the files of a valid one, in either order and at its snapshot or a later one, has exactly the entries after the snapshot if they survive, and none otherwise; last index and last term follow |
| `Reopen.RestartSame` | src/store.c:122-149 | opened at the same snapshot it has the same log, last index and last term |
| `Store.Store.LogIndexes` | src/store.c:291-301 | the log holds exactly the indexes from the snapshot to the last; nothing lies beyond |
| `Store.Store.GetEntry` | src/store.c:291-301 | an index is looked up in one contiguous sequence across both pages |
| `Store.Store.PrevTerm` | src/store.c:303-309 | the term of the entry at an index, or the snapshot's when it is not stored |
| `Store.Store.MakeRoom` | src/store.c:202-226 | the retry loop ends without changing the log: with room on the current page, or full on page 1 when it has no room left and is too small only if no page may be larger |
| `Store.Store.CreateEntry` | src/store.c:196-233 | the log grows by exactly the encoded entry, the last index by one, and the last term is the entry's |
| `Store.Store.PutEntry` | src/store.c:247-289 | the log grows by exactly the received entry; a store reported full is unchanged and truly has no room for it |
| `Store.Store.Entries` | src/store.c:311-320 | what is sent to a follower is whole consecutive entries of the log, none exactly when the index is not stored, as many as it takes to reach the limit or the end of a page and no more |
| `Store.Store.RemoveAfter` | src/store.c:322-339 | the log is cut back to the index; the store stays valid if and only if the cut spares the snapshotted part of page 0 |
| `Store.Store.SnapshotTaken` | src/store.c:170-180 | the snapshot moves to the end of page 0, exactly the snapshotted entries go, and the store stays valid if and only if page 1 continued page 0 |
| `Store.Store.Reserve` | src/store.c:235-239 | the current page gains room and the log is unchanged; full exactly beyond 2 GB |
| `Merge.MergeIs` | src/server.c:1720-1768 | walking the batch along the log keeps the agreeing part and replaces the rest by the batch from the first difference on |
| `Merge.NoConflictNoTruncation` | src/server.c:1726-1736 | the old log stays a prefix if and only if the batch agrees with it until one of them ends |
| `Merge.BatchSits` | src/server.c:1720-1768 | the batch's terms sit at its indexes, its new part entry for entry, and everything before the first difference is untouched |
| `Merge.ReplayIsNoop` | src/server.c:1726-1736 | storing any part of an accepted batch again changes nothing |
| `Merge.MergeEqualsLeader` | src/server.c:1776-1808 | given log matching and agreement before the batch, follower and sender hold the same log through the end of the batch and still match |
| `Replica.Replica.StoreOne` | src/server.c:1720-1768 | one entry is skipped if the log has it, else the log is cut there and gains it, whatever page switch, growth or finished snapshot that takes; on failure the log is as it was or cut there |
| `Replica.Replica.PutRetry` | src/server.c:1742-1766 | the retry loop ends; the log gained exactly the entry, or it is unchanged and the snapshot failed, a page could not be mapped again, or page 1 would exceed 2 GB |
| `Replica.Replica.WaitSnapshot` | src/server.c:478-499 | taking over a finished snapshot keeps the log if and only if page 1 continues page 0, and the store agrees with the snapshot on disk if and only if page 0 still ends where the snapshot was started |
| `Replica.Replica.Truncate` | src/server.c:1728-1732 | the log ends before the conflicting index, directly behind page 0 too, the last term is that of the entry now last, and a running snapshot stays safe unless the cut is directly behind it |
| `Replica.Replica.StoreEntries` | src/server.c:1710-1774 | the log after the bytes were walked is the merge of the old log with the batch they encode; on failure it is the merge with a prefix of the batch, perhaps cut behind it; the committed part is untouched either way, a running snapshot stays safe unless the batch conflicts directly behind it, and failure has one of PutRetry's reasons |
| `Replica.Replica.OnAppendReq` | src/server.c:1776-1820 | accepted exactly when the term is not stale and the previous entry matches; then the log is merged, the commit index goes to the leader's or the log's end, whichever comes first, and never back, and what was applied only grows, and if the batch is a piece of a matching leader's log this node holds that log through the batch; otherwise nothing changes; on failure the log is merged with a prefix of the batch and committed and applied entries stay |
| `Replica.AppendEqualsLeader` | src/server.c:1720-1768 | merging a piece of the leader's log, given log matching and agreement before it, leaves the leader's log, byte for byte, through the end of the piece |
| `Replica.Replica.Accepted` | src/server.c:1792-1802 | the check of the previous entry compares the terms of the two logs there, also when that entry is the last one in the snapshot |
| `Replica.Replica.AcceptedFollows` | src/server.c:1776-1808 | acceptance of a piece of the leader's log makes the merged log equal to the leader's through its end, given log matching |
| `Replica.Replica.UpdateCommit` | src/server.c:1670-1708 | the commit index goes to the target or the log's end, whichever comes first, and never back; it equals the state's index after success, and the applied inputs are exactly the log after the opening snapshot up to it, each once and in order; page 0 is handed to the snapshot thread exactly when it is committed and page 1 is in use |
| `Replica.Replica.StartSnapshot` | src/server.c:1699-1705 | page 0 is handed over exactly when it is committed and page 1 is in use, and its end is the snapshot's |
| `Replica.Replica.ApplyThrough` | src/server.c:1676-1693 | entries are applied in index order up to the target or the first failure |
| `Replica.Replica.constructor` | src/server.c:799-815 | a node starts with the commit index and the state at the snapshot and nothing applied |
| `Quorum.Middle` | src/server.c:2366-2368 | with one record per voter, the middle of the sorted records is the largest value a majority has reached |
| `Quorum.ReachedRaise` | src/server.c:2370-2388 | raising one record never lowers what a majority has reached |
| `Quorum.Choose` | src/server.c:2354-2388 | the two passes give what a majority has reached when the leader counts its whole log, and the leader's own record is raised only when that changes the outcome |
| `Quorum.ChosenHeld` | src/server.c:2354-2393 | up to the leader's last index a majority, the leader counted with its whole log, holds exactly the indexes up to the chosen one |
| `ReadGate.FirstDecides` | src/server.c:2408-2413 | the waiting list is sorted in both coordinates, so behind the first request that is not ready there is no ready one |
| `ReadGate.BackedConfirms` | src/server.c:2111-2118 | a round first sent after a request arrived and accepted by a majority in the leader's term confirms the leadership since the arrival |
| `ReadGate.StoryServes` | src/server.c:2408-2419 | answering a request whose round is backed and whose commit index is reached keeps every answer in the history safe |
| `ReadGate.MiddleBacks` | src/server.c:2399-2406 | a middle of the sorted rounds above those of earlier terms was accepted by a majority in this term, the leader included |
| `ReadGate.Leader.OnRead` | src/server.c:2111-2118 | the request is stamped with a round not sent before and the log's end, and queued last |
| `ReadGate.Leader.OnAppendResp` | src/server.c:1822-1844 | an acceptance counts for the request's term and is recorded as a round, whatever term the answer carries, and a refusal with a higher term ends the leadership; every answer given stays safe |
| `ReadGate.Leader.OnSnapshotResp` | src/server.c:1930-1942 | the echoed round is recorded whatever the answer was; a higher term ends the leadership, so only acceptances in the leader's term ever count |
| `ReadGate.RefusalIdle` | src/server.c:1930-1942 | a refusal that is recorded as a round on the way out of the leadership leaves no claim to be broken |
| `ReadGate.Leader.OnDisconnect` | src/node.c:90-114 | a lost node's round is forgotten |
| `ReadGate.Leader.OnElectionTimeout` | src/server.c:1285-1289 | a leader without a quorum asks again in a new round |
| `ReadGate.Leader.OnClientGone` | src/client.c:68-74 | a request leaves the list with its client and the others keep their order |
| `ReadGate.Leader.Append` | src/server.c:501-571 | the log grows and every waiting request keeps its stamps |
| `ReadGate.Leader.OnFollowerLog` | src/server.c:1710-1774 | between leaderships the log may be replaced down to the commit index |
| `ReadGate.Leader.StepDown` | src/server.c:594-622 | no request survives the end of a leadership, and the term is taken over |
| `ReadGate.Leader.BecomeLeader` | src/server.c:1190-1206 | every record starts over at the log's end and round zero, and the invariant holds for the new leadership |
| `ReadGate.Leader.AdvanceCommit` | src/server.c:2354-2393 | a commit index that moves is held by a majority, the leader counted with its whole log, and no later index is; it stays when newly committed entries fail to apply; the leader's record changes only if it decided the outcome |
| `ReadGate.Leader.MatchRounds` | src/server.c:2399-2406 | the matched round only grows, to what a majority has reached |
| `ReadGate.Leader.ServeReady` | src/server.c:2408-2419 | exactly the requests at the front whose round and commit index are reached are answered, in order, and the first one left has one of the two not reached |
| `ReadGate.AllPrompt` | src/server.c:2399-2419 | no request stays in the list whose commit index is reached and whose round a majority has reached |
| `ReadGate.Leader.CheckCommit` | src/server.c:2354-2422 | the commit index becomes what a majority holds, the matched round what a majority acknowledged, exactly the ready requests at the front are answered, and those left are a suffix without one whose commit index is reached and whose round a majority has reached; when entries fail to apply nothing is answered |
| `ReadGate.Leader.Flush` | src/server.c:2690-2718 | sends go out in the current round, then commit and reads advance, then the round is closed, so the next request opens a new one; in the whole history every answer followed its arrival in the same term, requests that a majority accepted in that term since then, and the commit of the log as of the arrival |
| `Snapshot.Transfer.SendChunk` | src/server.c:2564-2611 | the next piece of the leader's snapshot, of 16 KB or what is left, is sent, from the start when the snapshot is new, and the last piece says so |
| `Snapshot.Transfer.Replace` | src/snapshot.c:212-227 | pieces of the old snapshot under way stay what they were |
| `Snapshot.Transfer.Reconnect` | src/node.c:104-114 | a new connection starts the transfer over |
| `Snapshot.Transfer.Clear` | src/snapshot.c:278-289 | a follower's partial file may be dropped at any time |
| `Snapshot.Transfer.Write` | src/snapshot.c:229-254 | the file holds the leader's bytes from where the unbroken run of chunks began |
| `Snapshot.Transfer.Receive` | src/snapshot.c:229-276 | an accepted file is the leader's snapshot with that term and index, byte for byte, if and only if nothing but zeros precedes the run it came in; always, unless the file was dropped in the middle |
| `Sessions.ExactlyOnce` | src/state.c:1257-1293 | for every run: each number of a session runs once and repeats get the first response, if and only if the session's numbers form runs that do not start at zero |
| `Sessions.RunsFirst` | src/state.c:1277-1290 | a request runs exactly when it is its number's first appearance |
| `Sessions.RepeatAnswer` | src/state.c:1277-1280 | a repeat is answered with the bytes of the first answer |
| `Sessions.NoReturn` | src/state.c:1277-1290 | if every number runs once, no number comes back after another one |
| `Sessions.GoingBackRunsTwice` | src/state.c:1277-1290 | a session that sends 1, 2 and 1 again runs number 1 twice |
| `Sessions.RisingRuns` | src/state.c:1277-1290 | numbers that never go back and start above zero form such runs |
| `Sessions.State.OnRequest` | src/state.c:1257-1293 | the database changes and the response is stored exactly when the number is new to the session; a repeat changes nothing |
| `Sessions.State.OnConnect` | src/state.c:629-649 | a known name resumes its session with number and response; a new one gets a session whose id is the entry's index; both tables agree |
| `Sessions.State.OnDisconnect` | src/state.c:651-682 | a clean disconnect removes exactly that session from both tables; another one keeps it and notes the time |
| `Sessions.State.OnTimestamp` | src/state.c:809-837 | exactly the sessions away for more than 60000 ms are removed, from both tables |
| `Sessions.State.OnTermStart` | src/state.c:762-781 | every session counts as away from now on and none is lost |
| `Sessions.State.Apply` | src/state.c:1341-1413 | only requests change the database; a term start sets the clock, lets no time pass and counts every session as away from then, a timestamp moves both clocks, nothing else does; the name and id tables describe the same sessions with distinct ids after every entry |
| `Client.Client.OnConnectResp` | cresql/resql.c:1861-1875 | the first connection adopts the session's number; a later one is accepted exactly when the session has seen the running number or the one before, keeps number and operation then, and else takes the session's number and gives the operation up |
| `Client.Client.Exec` | cresql/resql.c:2519-2524 | a new operation's number is larger than all the session has seen |
| `Client.Client.Send` | cresql/resql.c:2170-2176 | a retry repeats number and request |
| `Client.Client.Deliver` | cresql/resql.c:2143-2222 | whatever is delivered keeps the session's numbers rising, each standing for one request |
| `Client.Client.OnResponse` | cresql/resql.c:2190-2206 | an answered operation is over and its number is used up |
| `Client.Client.OnBroken` | cresql/resql.c:2172-2188 | a broken connection carries nothing any more; number and request stay for the retry |
| `Client.Client.OnTimeout` | cresql/resql.c:2152-2155 | an operation is given up only before it is sent on a connection; its number is not used again |
| `Client.ClientRunsOnce` | cresql/resql.c:2143-2222 | a session fed by this client runs every operation once, answers repeats with the first response, and never answers one request with another's response |
| `Client.LastIsRemembered` | src/server.c:2197-2217 | the number a connect response carries is the last one among the session's requests |
| `Dialogue.Dialogue.constructor` | cresql/resql.c:2020-2100 | a client starts beside a state machine that may already have a session under its name |
| `Dialogue.Dialogue.Connect` | src/state.c:629-649 | the session is found or made, the client is told the number it remembers and accepts exactly its own or the one before; in a new session a running operation is carried over if and only if its number is 1 |
| `Dialogue.Dialogue.Deliver` | src/state.c:1257-1293 | the next request of the connection is applied to the client's session, and log and trace grow together |
| `Dialogue.Dialogue.Moves` | cresql/resql.c:2143-2222 | whatever the client does on its own keeps the two joined, and a new operation's number is above all its session was given |
| `Dialogue.Dialogue.Other` | src/state.c:1341-1413 | other clients' entries, the clock and disconnections keep the two joined; a connected client's session does not expire, and one away expires exactly after more than 60000 ms |
| `Dialogue.Dialogue.RunsOnce` | src/state.c:1257-1293 | in every run and every session the client ever had, each number runs once and repeats get the first response |
| `Dialogue.Dialogue.RunsOnceOverall` | cresql/resql.c:1861-1875 | in every run, an operation that ran twice ran in two sessions under number 1; every other runs at most once over all sessions |
| `Timer.Expand` | lib/sc/sc_timer.c:72-112 | every cell keeps its slot and sequence number in the larger list, so ids stay valid |
| `Timer.Wheel.Add` | lib/sc/sc_timer.c:114-146 | the timer takes a free cell of the slot its timeout falls in; refused only at the size limit |
| `Timer.Wheel.Cancel` | lib/sc/sc_timer.c:148-160 | exactly the timer with that id is cancelled, however often the list was expanded |
| `Timer.Wheel.Begin` | lib/sc/sc_timer.c:164-181 | the wheel moves one step per full tick, at most one turn, and time moves with it |
| `Timer.Wheel.Visit` | lib/sc/sc_timer.c:183-201 | a timer fires only when due, with its own data, leaves the wheel as it fires, and no other timer changes |
| `Timer.Wheel.Timeout` | lib/sc/sc_timer.c:164-204 | a sweep ends whatever the callback adds or cancels, and makes exactly the calls the callback asks for after each firing, in order; what has fired or was cancelled stays so; the wheel never outruns the clock |
| `Timer.Wheel.Guarantee` | lib/sc/sc_timer.c:164-204 | between sweeps a timer shorter than 256 ms is pending only if its slot has not come round since it was added, and an expired one has seen fewer than sixteen steps |
| `Timer.FirstPass` | lib/sc/sc_timer.c:117-118 | a timer shorter than one turn fires on the first pass over its slot |
| `Timer.FiresSoon` | lib/sc/sc_timer.c:180-203 | an expired timer fires within sixteen steps of the wheel |
| `Timer.Conservation` | lib/sc/sc_timer.c:114-204 | pending timers are those added less those fired less those cancelled |
| `Histogram.Located` | lib/hdr/hdr_histogram.c:161-170 | every value lies in the bucket cell computed for it |
| `Histogram.LocatedOnce` | lib/hdr/hdr_histogram.c:161-170 | and in no other |
| `Histogram.IndexOfValue` | lib/hdr/hdr_histogram.c:188-208 | the index of the value an index stands for is that index |
| `Histogram.ValueOfIndex` | lib/hdr/hdr_histogram.c:188-228 | every value lies in the range that starts at its index's value and has the reported size |
| `Histogram.IndexMonotone` | lib/hdr/hdr_histogram.c:188-194 | indexes are monotone in the value |
| `Histogram.IndexInRange` | lib/hdr/hdr_histogram.c:355-360 | every trackable value has an index inside the counts array |
| `Histogram.Precision` | lib/hdr/hdr_histogram.c:210-216 | a value's range is one unit wide, or its width times ten to the significant figures is at most the value |
| `Histogram.IndexCovers` | lib/hdr/hdr_histogram.c:188-208 | an index holds exactly the values from its own up to the next index's |
| `Histogram.BucketsNeeded` | lib/hdr/hdr_histogram.c:294-309 | the least number of buckets whose range exceeds the value, overflow guard included |
| `Histogram.Calculate` | lib/hdr/hdr_histogram.c:319-363 | rejected exactly for arguments out of range or too many bits; otherwise half a bucket is the least power of two with ten to the significant figures cells, the unit the largest one not above the lowest value, and the buckets the fewest that cover the highest value |
| `Histogram.Histogram.Record` | lib/hdr/hdr_histogram.c:467-487 | each count stays the tally of the recorded values its index covers, their sum the total, and the extremes those of the records; trackable values are never refused |
| `Buf.GetPutStr` | lib/sc/sc_buf.c:571-697 | a C string, or none, is read back from what was put, and the cursor stands behind it |
| `Buf.GetPut` | lib/sc/sc_buf.c:524-670 | an integer is read back from what was put |
| `Message.DeclaredLenExact` | src/msg.c:72-413 | every message is exactly as long as the length it declares |
| `Message.RoundTrip` | src/msg.c:424-569 | every message that fits is parsed back field for field, whatever follows it, and exactly its bytes are consumed |
| `Message.InvalidExactly` | src/msg.c:424-569 | data is invalid if and only if the declared length is above the limit, or the message is whole and its type byte or one of the fields of that type is missing |
| `Message.LayoutRead` | src/msg.c:453-566 | for each type number, which fields of which sizes are read in which order |
| `Message.PrefixIsPartial` | src/msg.c:424-446 | a strict prefix of a message is partial |
| `Message.ParseStable` | src/msg.c:424-446 | once a parse is decided, more bytes change nothing |
| `Conn.Chunking` | src/conn.c:258-294 | for every byte stream, the messages, the verdict and what is left do not depend on how the stream was cut |
| `Conn.StreamDelivers` | src/conn.c:258-294 | encoded messages come out exactly, whatever pieces they arrive in |
| `Conn.Input.OnReadable` | src/conn.c:258-294 | compaction and growth lose nothing and the buffer gains what the socket gave; it fails exactly when the buffer is full of unread bytes and may not grow |
| `Conn.Input.Drain` | src/msg.c:424-569 | the loop takes out exactly the whole messages and leaves the rest |
| `Conn.Output.Reserve` | lib/sc/sc_buf.c:98-127 | room is made without losing bytes, or the buffer is marked failed, exactly when the rounded size passes the limit |
| `Conn.Output.Create` | src/msg.c:72-413 | the whole message is written or nothing is |
| `Meta.Encode` | src/meta.c:169-191 | the loops and the recursion write the configuration's encoding |
| `Meta.Decode` | src/meta.c:193-217 | an encoded configuration with any number of nodes, addresses and nested predecessors is restored, and exactly its bytes are consumed |
| `Meta.DecodeNode` | src/meta.c:82-100 | a node with any number of addresses is restored |
| `Counterexamples.ReplaceBehindPage` | src/server.c:1726-1766 | a conflict right behind a page being snapshotted puts the new entry onto that page, and page 1 no longer continues it |
| `Counterexamples.ConflictBehindPage` | src/server.c:478-499 | for every such state the store is no longer well formed once the snapshot is taken over |
| `Counterexamples.GapAfterSnapshot` | src/server.c:1699-1705 | a run from an empty store into that state and through it |
| `Counterexamples.ScanLosesFrom` | src/page.c:62-96 | an entry with checksum zero hides itself and everything behind it |
| `Counterexamples.GrowthFails` | src/page.c:174-221 | a page with such an entry reports an error when it has to grow |
| `Counterexamples.TornTransfer` | src/snapshot.c:229-276 | every snapshot of two chunks whose first is not all zeros is accepted with other bytes when the follower drops its file in between |
| `Counterexamples.TornSnapshot` | src/snapshot.c:278-289 | a concrete snapshot that is accepted with other bytes |
| `Counterexamples.RunsAgain` | cresql/resql.c:1861-1875 | whenever the session is gone while an operation with number 1 is running, its retry runs in the new session |
| `Counterexamples.FirstRunsTwice` | cresql/resql.c:1861-1875 | a run from an empty state in which the first operation runs in two sessions, for any execute function |
| `Counterexamples.RestartLoses` | src/store.c:77-90 | a store of two entries, opened again at a snapshot of the first, comes up without the second |
| `Counterexamples.CutInside` | src/store.c:322-339 | a store of two snapshotted entries, cut behind the first, is no longer well formed |

## Left out

- Election safety, leader completeness and state machine safety of the whole cluster: votes compare only the last index, match indexes are preset for all nodes and a failed append also sets them, so these handlers do not decide those properties.
- Replica.Replica.StoreEntries: configuration entries (`CMD_META`) are stored like any other, and their effect on the current membership is not modelled. Conflicts are asked to lie above the commit index, and entries to be stored at or next to the end of the log, as the source asserts.
- Replica.Replica.OnAppendReq: becoming a follower and the response's term are not modelled. A state machine error ends the call. So does an entry that is committed only now but was lost with its page; the source does not check for that. Agreement with the leader is not concluded from a heartbeat that names an index before page 0, where the source compares the snapshot's term.
- Replica.Replica.StartSnapshot: the snapshot thread is taken to read the end of page 0 when it is handed the page.
- Creating entries on a leader (`server_create_entry`) beyond `Store.Store.CreateEntry`: when the store is full it takes over a finished snapshot only if none is running or being sent, reserves room only if the entry is forced or the page is not in its last part, then waits for a running snapshot, and otherwise rejects the request.
- Page.Page.Init: files longer than 2 GB, which are mapped although no page may grow that large.
- Store.Store.constructor: files longer than 2 GB, as for the page.
- Store.Store.PutEntry: entries larger than the largest page can hold, about 2 GB; with an empty page 0 the code moves to page 1 before it reports full.
- ReadGate.Leader.Flush: which nodes are sent to is a parameter; in-flight limits, heartbeat times and the contents of the requests are not modelled, and membership does not change. A readonly request that fails while it is answered is not modelled.
- ReadGate.Leader.OnAppendResp: that a node accepts a request in the request's term is part of the model, not derived from the follower's side.
- ReadGate.Leader.OnSnapshotResp: that an answer's term is not below its request's is part of the model.
- ReadGate.Leader.StepDown: a node's own term is taken never to fall, although a stored configuration entry can lower a follower's in the source (src/server.c:1738-1740).
- ReadGate.Leader.BecomeLeader: the term is not below the node's last one, as for StepDown.
- Snapshot.Transfer.Receive: file errors and a second sender are not modelled; a change of leader is the dropping of the file at any time, which the source does in most but not all cases.
- Durability: `msync`, `fsync` and flush positions; page bytes are treated as memory.
- SQL execution, prepared statements and the auxiliary tables; they are one abstract function of database and request.
- Sessions.State.Apply: restoring sessions from a snapshot, node information and log entries of other kinds; a failed execution stops the process.
- Dialogue.Dialogue.Deliver: a request is applied when it is delivered; entries between append and commit are not modelled.
- Dialogue.Dialogue.RunsOnceOverall: it counts the requests of one client object; another process that uses the same name is not this client.
- Client.Client.OnConnectResp: that a broken connection's undelivered requests are not appended after the next connect entry is part of the model, not derived from the server's connection handling; prepared-statement operations number like any other.
- Timer.Wheel.Add: the sum of timeout and clock is taken to stay below 2^64 - 1; the callback's timeout argument, which the code cuts to 32 bits, is not modelled.
- Histogram.Calculate: logarithms are exact integer logarithms; percentile iteration, means and the atomic variants are not modelled.
- Conn.Input.OnReadable: buffers whose tripled size passes 32 bits, where the computed size wraps.
- Conn.Output.Reserve: sizes are taken to stay below the 32-bit limit.
- Conn.Output.Create: sizes are taken to stay below the 32-bit limit, as for Reserve.
- Meta.Decode: bytes that do not encode a configuration; the source trusts what it reads, and addresses are the strings they were made from.
- Meta.DecodeNode: bytes that do not encode a node, as for Decode.
- meta_add, meta_remove, meta_rollback and membership change as a protocol.
- Memory and allocation failures other than the ones named above, the big-endian checksum path, string-keyed maps, text output, configuration files, sockets, threads and the Java and Go clients.
