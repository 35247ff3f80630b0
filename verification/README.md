# A verified model of the UBS engine's stateful core

The UBS engine lends, borrows and repairs memory across the nodes of a cluster.
This project models the parts of it that change state step by step and proves
what holds over all their runs. Every member is checked by Dafny 4.11:
`dafny verify dfyconfig.toml`.

| Part | Modules | What is proved |
|---|---|---|
| Bandbridge control queue | `RingBlocks`, `SendQueue`, `RecvQueue` | in-order delivery across wrap-around, no overwriting, exact consumption on receive, exactly when a receive call on arbitrary blocks returns, and the boundary cases in which the code falls short |
| RAS fault handling | `HandlerPasses`, `PendingFaults`, `BmcTimers`, `BmcMaster` | every interleaving of pool threads acts as whole passes, handlers succeed once, one final acknowledgement per node, an OK to power a node down only after every handler has succeeded |
| OBMM executors | `ObmmKernel`, `BlockSplit`, `ObmmBatch`, `AddrBorrow`, `AddrCalls`, `ExportNames` | all-or-nothing up to undo failures, two resources kept in step, exactly when concurrent calls keep the pool right, exact block splitting, unexport reaches its own memids only |
| Restore after a restart | `MetaCodec`, `RegionMask`, `Restore`, `RestoreLedger` | round trips through the private area, conservation of live memids, exact pool of remote NUMA ids |
| EID codec | `EidFields`, `EidText`, `EidCodec` | parse and print are inverse on canonical texts, the server index is recoverable from the scattered bits |
| Timeouts and topology | `TimeoutManager`, `TopologyDelta` | one fate per handle in every interleaving, no lost wake-up, deltas replay to the current topology |

`Options`, `Sets` and `Arith` hold an option type and facts about sets, division and bits.

Code that updates fields in place is a class here: the control rings, the handler
tables, the BMC tables, the kernel, the NUMA pool, the executors, the private area,
the timeout list and the peer map. Each method is proved against a function or
relation on its abstract value, and the theorems are lemmas about those. Where
several threads or a thread and a device interleave, the module adds a step system
whose steps are the effects of the methods, and proves its theorems for all finite runs.

## Where the code does less than one would expect

Each of these is proved of the code as it stands, with the exact condition under
which it does meet the expectation.

- The send check lets a message through that fills the ring exactly; the full ring
  then reads as empty and the next send overwrites it (`SendQueue.ExactFillReadsEmpty`).
  `SendQueue.SendAppends` shows that leaving one block free is the exact condition.
- A foreign message whose block count is a multiple of the ring depth is skipped onto
  itself, so that the receive loop makes no progress (`RecvQueue.SkipStandsStill`), and
  other counts can make it go round for ever (`RecvQueue.ScanCanCycle`). With a quiet
  device it ends exactly if it meets the tail, a zero count or a match within a lap's
  worth of skips (`RecvQueue.ScanEndsWithinALap`); with a device that writes before
  finitely many polls the call returns exactly if it does so by the last write or that
  holds of the head it has then (`RecvQueue.CallReturns`).
- After a final acknowledgement a node is silent for every message id, not only for the
  one that timed out (`BmcTimers.SilentAfterExpiry`).
- A rolled-back address import takes the NUMA ids the kernel granted it out of the pool,
  also those that were reserved before: `AddrBorrow.RollbackLosesReserved` is such a
  case, and by `AddrBorrow.RollbackKeepsPool` the pool is as before exactly when no
  granted id was reserved. `AddrBorrow.AddrImporter.Import` ties this to the kernel's
  answers during the call.
- The pool's lock covers single accesses, and an import that is granted another id than
  the one it set aside notes that in two of them. Even if the kernel grants unreserved
  ids only, a second import can in between set the granted id aside, and later take it
  out of the pool while the first one holds it (`AddrCalls.UnreservedGrantsCanClash`).
- An address unimport leaves the result list as it is. When it fails half way and is tried
  again, it takes the NUMA ids of the entries already gone out of the pool once more, also
  if another borrow has been given them since; this needs no interleaving, and no grant
  but of the id set aside (`AddrCalls.RetriesCanClash`). The retry keeps the pool exactly
  if none of these ids is claimed by then (`AddrCalls.RetryKeepsPool`).
- Over all interleavings, retries included, the pool is right in all states of a run
  exactly if no step takes out an id that is still claimed (`AddrCalls.ExactUnlessHarmed`).
  What to check before a step is whether it is calm: whether an id set aside or granted is
  neither reserved nor on its way into the pool nor about to be taken out by a retry, and
  whether no id a retry will take out is in use elsewhere. Calm steps keep the pool right
  (`AddrCalls.CalmRunsAreExact`), and after any other step calm ones alone can lose an id
  that is in use (`AddrCalls.CalmIsNeeded`).
- A restored address import marked as faulty has the same list, with a part already gone:
  a later unimport of it keeps the pool in step exactly if none of the ids given back has
  been reserved again since (`RestoreLedger.LedgerRestorer.UnImportFaulty`).
- After a restart, an export whose importing node has an underscore in its id gets a
  shortened name; a later unexport leaves every memid with readable metadata live
  (`ExportNames.UnExporter.ExportThenUnExport`).
- The memid count in the metadata has 16 bits: a batch of 65536 memids or more is not
  restored after a restart even if all of it is found. Below that an entry comes back
  without an error exactly if none of its batch is missing
  (`RestoreLedger.BatchComesBackWhole`).
- A restored group of FD records or of share imports whose NUMA sizes sum to 2^64 or
  more stays live and is listed nowhere (`RestoreLedger.Conservation`).
- The FD and share decoders read the first slots of the private area, the NUMA and
  address decoders the occupied ones; they differ as soon as an empty slot comes before
  an occupied one (`MetaCodec.DecodersAgreeWhenPacked`).
- A request with a repeated or unusable NUMA id reserves more descriptors than there are
  blocks and is refused as a whole (`BlockSplit.CountsAgreeWhenClean`).
- A loop woken late may claim an entry although another one is due earlier
  (`TimeoutManager.OutOfOrderClaim` is such a run); it claims in order exactly when no
  entry registered since it last looked is due before the deadline it waits for
  (`TimeoutManager.ClaimInOrderUnlessOvertaken`).
- The published topology text can be read in two ways, for topologies that can be fetched
  (`TopologyDelta.AmbiguousColon`, `TopologyDelta.AmbiguousBar`). For a reader who knows
  that names hold a '-' and no vertical bar, a text is unique exactly if no listed device
  name has a ':' behind a '-' and no peer name a '-' behind a ':'
  (`TopologyDelta.TextIsUnique`). For one who must allow for bars, no list of more than one
  change has a unique text (`TopologyDelta.BarsNeverUnique`).

## Model

| member | source | states |
|---|---|---|
| SendQueue.SendRing.RemainSpace | src/adapter_plugins/bandbridge/bandbridge_ctrlq.c:40-47 | The free blocks are those not holding unread data, for every head and tail, and the ring is unchanged. |
| SendQueue.SendRing.CheckSqEnough | src/adapter_plugins/bandbridge/bandbridge_ctrlq.c:49-56 | Refuses with -28 exactly the messages whose bytes, in blocks of 32 rounded up, exceed the depth less the distance from head to tail around the ring. |
| SendQueue.SendRing.SendToSq | src/adapter_plugins/bandbridge/bandbridge_ctrlq.c:80-105 | The block-by-block loop has the effect of the recursive write, for any length, partial last blocks included. |
| SendQueue.SendRing.SendRequest | src/adapter_plugins/bandbridge/bandbridge_ctrlq.c:49-105 | Check and send together are one step of the shared ring. |
| SendQueue.SendRing.constructor | src/adapter_plugins/bandbridge/bandbridge_ctrlq.c:196-219 | Mapping a queue takes the depth in units of eight blocks and both positions as the registers have them; the ring is well formed exactly if both lie below the depth. |
| SendQueue.PutFrame | src/adapter_plugins/bandbridge/bandbridge_ctrlq.c:91-102 | A write of n blocks moves the tail by n around the ring and leaves all other blocks as they were. |
| SendQueue.PutWrites | src/adapter_plugins/bandbridge/bandbridge_ctrlq.c:91-102 | Read in ring order, the written blocks begin with the message's bytes, across wrap-around. |
| SendQueue.SentBytes | src/adapter_plugins/bandbridge/bandbridge_ctrlq.c:80-105 | A send in bytes: the message stands from the tail on, around the ring; every other byte of the ring, the rest of a partial last block included, is as it was. |
| SendQueue.UnreadKept | src/adapter_plugins/bandbridge/bandbridge_ctrlq.c:40-56 | No send that passes the check changes a block the device has not read. |
| SendQueue.SendAppends | src/adapter_plugins/bandbridge/bandbridge_ctrlq.c:49-105 | A send that passes the check appends the message to the unread blocks if and only if it leaves one block free. |
| SendQueue.ExactFillReadsEmpty | src/adapter_plugins/bandbridge/bandbridge_ctrlq.c:52-52 | A message that fills the ring exactly passes the check, after which the ring reads as empty and any message passes again. |
| SendQueue.RunDelivers | src/adapter_plugins/bandbridge/bandbridge_ctrlq.c:40-105 | In every run of guarded sends and device advances, what was read plus what is unread is the start plus every accepted message, in order and intact. |
| RecvQueue.RecvRing.RqIsEmpty | src/adapter_plugins/bandbridge/bandbridge_ctrlq.c:58-63 | However many messages the device appends before the poll, the queue reads as empty exactly when all appended messages have been consumed. |
| RecvQueue.RecvRing.UpdateRqCi | src/adapter_plugins/bandbridge/bandbridge_ctrlq.c:65-70 | Head register and cached index move together, modulo the depth. |
| RecvQueue.RecvRing.ReadDataFromRq | src/adapter_plugins/bandbridge/bandbridge_ctrlq.c:107-117 | The copied bytes are those of the n blocks from the head in ring order. |
| RecvQueue.MatchesInBytes | src/adapter_plugins/bandbridge/bandbridge_ctrlq.c:137-147 | A header answers a request if byte 5 and the lower seven bits of byte 6 are the low byte and the next seven bits of the request's sequence number. |
| RecvQueue.RecvRing.TakeHead | src/adapter_plugins/bandbridge/bandbridge_ctrlq.c:134-170 | For any header the device may write, in bytes: a zero byte 2 empties the queue with -28; another sequence number is skipped by byte 2 blocks around the ring; a count beyond the depth or the buffer is skipped with -28; else the bytes of that many blocks from the head are returned. |
| RecvQueue.ExamineTakesFirst | src/adapter_plugins/bandbridge/bandbridge_ctrlq.c:134-170 | On a queue of whole messages a pass consumes exactly the first one and skips, refuses or returns it intact. |
| RecvQueue.SkipStandsStill | src/adapter_plugins/bandbridge/bandbridge_ctrlq.c:147-151 | A foreign message is skipped onto itself exactly when its block count is a multiple of the depth. |
| RecvQueue.ScanEndsWithinALap | src/adapter_plugins/bandbridge/bandbridge_ctrlq.c:128-151 | With a quiet device and any headers, the scan ends if and only if it meets the tail, a zero count or a match within fewer skips than the ring has blocks. |
| RecvQueue.ScanCanCycle | src/adapter_plugins/bandbridge/bandbridge_ctrlq.c:147-151 | Eight foreign blocks that each claim to be two and an odd tail keep the scan going for ever, although no count is a multiple of the depth. |
| RecvQueue.RecvRing.ReceiveWhileQuiet | src/adapter_plugins/bandbridge/bandbridge_ctrlq.c:119-174 | On a queue holding anything whose scan ends, a call with a quiet device skips to the first stop, which comes within a lap, and then times out on an empty queue or does what one pass does there. |
| RecvQueue.CallReturns | src/adapter_plugins/bandbridge/bandbridge_ctrlq.c:119-174 | Whatever blocks and tails the device writes before finitely many polls, a call returns if and only if it does so by the last write, or the skip orbit of the head it then has meets a stop within a lap. |
| RecvQueue.RecvRing.ReceiveUnderWrites | src/adapter_plugins/bandbridge/bandbridge_ctrlq.c:119-174 | Under such writes the call ends in the first pass that ends it, with what one pass does there, or times out when its polls of an empty queue have run out. |
| RecvQueue.RecvRing.ReceiveFromRq | src/adapter_plugins/bandbridge/bandbridge_ctrlq.c:119-174 | Consumes messages up to and with the first whose bytes 5 and 6 match the sequence number in 15 bits; returns its bytes, as many blocks as its byte 2 says, or -28 if they exceed the buffer; times out with -110 only on an empty queue; ends every exit on a message boundary, and terminates while the device appends finitely many messages. |
| RecvQueue.RecvRing.ReceiveReply | src/adapter_plugins/bandbridge/bandbridge_device.c:231-233 | Of the messages in or coming into the queue the first with bytes 5 and 6 of the request that was sent, the top bit aside, is the one returned or refused for its length; a call times out only if there is none. |
| HandlerPasses.FaultHandlers.Register | src/ras/ubse_ras_handler.cpp:1062-1074 | A new handler runs behind all of its own or higher priority and before all of lower priority. |
| HandlerPasses.FaultHandlers.GetResult | src/ras/ubse_ras_handler.cpp:91-104 | OK exactly when every record of the message id is a success, otherwise one of the failing codes. |
| HandlerPasses.FaultHandlers.ExecuteFaultHandler | src/ras/ubse_ras_handler.cpp:1076-1102 | One call is one pass over this id's records and touches no other id; it returns OK exactly when only successes are on record. |
| HandlerPasses.FaultHandlers.Clear | src/ras/ubse_ras_handler.cpp:640-645 | Forgets the records of one id only. |
| HandlerPasses.PassRunsOutstanding | src/ras/ubse_ras_handler.cpp:1086-1099 | A pass calls exactly the handlers without a recorded success, once each and in order, and records what they returned. |
| HandlerPasses.SuccessIsFinal | src/ras/ubse_ras_handler.cpp:67-89 | After any number of passes a handler is on record as successful exactly if one of the passes saw it succeed. |
| HandlerPasses.CalledUntilSuccess | src/ras/ubse_ras_handler.cpp:67-76 | A later pass calls a handler exactly if no earlier one saw it succeed. |
| HandlerPasses.PassOkWhenAllSucceeded | src/ras/ubse_ras_handler.cpp:91-104 | A pass reports OK exactly when every handler has succeeded in it or before it. |
| PendingFaults.EveryInterleaving | src/ras/ubse_ras_handler.cpp:843-864 | In every interleaving of any number of threads, one thread at a time works on a fault id, no handler succeeds twice for it, and every acknowledgement follows a success of every handler. |
| PendingFaults.TaskIsOnePass | src/ras/ubse_ras_handler.cpp:843-864 | Whatever ran in between, a task has done to its id what one uninterrupted pass does, and takes it as good exactly when every registered handler has succeeded for the id by then; its id and ack wish are those of its thread's last Begin. |
| PendingFaults.AcksTellRun | src/ras/ubse_ras_handler.cpp:853-860 | In every interleaving the acknowledgements of an id are as many as the Report steps of tasks that began with it, asked for one, and had a success of every registered handler in the log by then. |
| PendingFaults.NoRequestNoAck | src/ras/ubse_ras_handler.cpp:858-860 | Without a task that asks for an acknowledgement of the id there is none. |
| BmcTimers.StateTellsHistory | src/ras/ubse_ras_handler.cpp:217-338 | In every reachable state a node's timer runs exactly when it has a state without a final acknowledgement, which is when its latest code was one of 1, 2 and 4 to 8 and no timer has expired; both carry the id and the code of the latest report. |
| BmcTimers.AcksTellHistory | src/ras/ubse_ras_handler.cpp:739-782 | The acknowledgements sent are those the sequence of reports and expiries calls for: one for each report of a node not yet silenced whose code, 1 in place of any from 10000 on, is not one of 1, 2 and 4 to 8, and one for each expiry. |
| BmcTimers.ExpirySendsFinalAck | src/ras/ubse_ras_handler.cpp:223-247 | Every expiry sends one acknowledgement with the latest id and code, which lies between 1 and 8 and is not 3. |
| BmcTimers.SilentAfterExpiry | src/ras/ubse_ras_handler.cpp:751-754 | After a node's expiry no continuation acknowledges that node again, under any message id. |
| BmcTimers.BmcFaults.HandleBMCFault | src/ras/ubse_ras_handler.cpp:739-782 | The sequence of table updates, stops and starts is one report step; in numbers, a code is acknowledged unless the node is silenced or the code lies between 1 and 8 and is not 3. |
| BmcTimers.BmcFaults.OnTimerExpired | src/ras/ubse_ras_handler.cpp:223-247 | The timer thread's work is one expiry step. |
| BmcTimers.BmcFaults.StartTimer | src/ras/ubse_ras_handler.cpp:249-267 | An entry in the timer table, even one that has run out, keeps a new timer from starting. |
| BmcTimers.BmcFaults.StopTimer | src/ras/ubse_ras_handler.cpp:269-290 | Removes the node's timer, running or run out, and no other. |
| BmcTimers.BmcFaults.UpdateState | src/ras/ubse_ras_handler.cpp:308-319 | The state is reset exactly for a message id that is new for the node. |
| BmcMaster.KeyInjective | src/ras/ubse_ras_com_handler.cpp:61-119 | Different node and message ids that pass the digit check never share a cache key. |
| BmcMaster.BmcHandler.UpdateMsgId | src/ras/ubse_ras_com_handler.cpp:25-34 | Reports whether the id differs from the node's last one and remembers it. |
| BmcMaster.BmcHandler.PreSet | src/ras/ubse_ras_com_handler.cpp:36-59 | The id is noted and the records of its key are dropped exactly for a new id; everything else is kept. |
| BmcMaster.BmcHandler.Handle | src/ras/ubse_ras_com_handler.cpp:61-119 | Every request is one step of the master, on every branch: refused ones change nothing, a failed pre-fault step keeps what the id's earlier reports left, a power-down drops the records, anything else keeps them for the next report; and the answer is the one the step calls for. |
| BmcMaster.RecordsTellHistory | src/ras/ubse_ras_com_handler.cpp:23-119 | Over any sequence of reports of any nodes from an empty cache, the records of a node's current id show a success of a handler exactly if some report of that id saw it succeed and no other id of the node and no power-down came since. |
| BmcMaster.OkMeansAllSucceeded | src/ras/ubse_ras_com_handler.cpp:61-119 | Over any such sequence, a request about a node not in FAULT is answered OK exactly if it reaches the handlers, each succeeds in it or has succeeded for the id since it was last new or powered down, and the node goes into FAULT and is cleaned up. |
| BmcMaster.RefusalsTold | src/ras/ubse_ras_com_handler.cpp:61-119 | Over any sequence of reports, all other answers: 10003 for ids that are not digits, 10000 for an unknown node, the code of a pre-fault state not entered; if a handler has not succeeded, 10009 when the node cannot go back, and else the code of a handler that failed in this very request; 10009 when FAULT is not entered or not cleaned up. |
| BlockSplit.Split | src/adapter_plugins/mmi/ubse_obmm_executor.cpp:459-490 | Succeeds exactly on a positive block size, sums below 2^64 and some size that is not zero; each NUMA's rows then add up to its size rounded up to whole blocks. |
| BlockSplit.RowsAreSingleBlocks | src/adapter_plugins/mmi/ubse_obmm_executor.cpp:478-487 | Every row carries one block on one NUMA. |
| BlockSplit.ColumnTotals | src/adapter_plugins/mmi/ubse_obmm_executor.cpp:478-487 | The rows of each NUMA add up to its block count times the block size. |
| BlockSplit.RowPlace | src/adapter_plugins/mmi/ubse_obmm_executor.cpp:478-487 | The rows stand NUMA by NUMA: those of a NUMA behind all those of the lower ones, each with the block size there and 0 elsewhere. |
| BlockSplit.ExportParams | src/adapter_plugins/mmi/ubse_mem_instance_inner.h:122-144 | Descriptors are counted per entry while sizes are scattered by NUMA id, later entries winning. |
| BlockSplit.LaterEntryWins | src/adapter_plugins/mmi/ubse_mem_instance_inner.h:122-144 | The size scattered for a NUMA is that of the last entry for it that is not zero, and 0 if there is none. |
| BlockSplit.CountsAgreeWhenClean | src/adapter_plugins/mmi/ubse_mem_instance_inner.cpp:510-534 | There are never fewer descriptors than blocks, and equally many exactly when entries of positive size have distinct NUMA ids below 16. |
| BlockSplit.EntryIsRoundedUp | src/adapter_plugins/mmi/ubse_obmm_executor.cpp:459-490 | A clean request exports from each entry's NUMA its size rounded up to whole blocks. |
| ObmmBatch.Executor.ChangeUidGid | src/adapter_plugins/mmi/ubse_obmm_executor.cpp:379-400 | Hands back the memid, or gives it up with at most itself left live. |
| ObmmBatch.Executor.CreateOne | src/adapter_plugins/mmi/ubse_obmm_executor.cpp:173-219 | One new live memid with this metadata, or nothing new but what could not be undone. |
| ObmmBatch.Executor.ImportOne | src/adapter_plugins/mmi/ubse_obmm_executor.cpp:258-307 | As for an export; a NUMA id of 0 is refused without a kernel call, and any other one gets the kernel's answer, which may be another id. |
| ObmmBatch.Executor.UnExportAll | src/adapter_plugins/mmi/ubse_obmm_executor.cpp:529-552 | Tries every entry of any list; a memid stays live exactly if every attempt at it failed, and the call is OK exactly if none did. |
| ObmmBatch.AttemptedOnce | src/adapter_plugins/mmi/ubse_obmm_executor.cpp:529-552 | For a list without repetitions exactly the memids whose undo failed stay live. |
| ObmmBatch.Executor.UnImportAll | src/adapter_plugins/mmi/ubse_obmm_executor.cpp:427-457 | Undoes the ids up to the first failure and leaves the rest alone. |
| ObmmBatch.Executor.ExportBatch | src/adapter_plugins/mmi/ubse_obmm_executor.cpp:492-527 | A non-empty result has one live memid per block in order, each with the borrow's name and type and the number of memids in 16 bits, and the descriptor count agrees; after an empty one every extra live memid is one whose undo failed. |
| ObmmBatch.Executor.ImportBatch | src/adapter_plugins/mmi/ubse_obmm_executor.cpp:402-425 | A non-empty result has one live memid per descriptor in order, each with the borrow's name and type, its exported memid and their number in 16 bits; after an empty one every extra live memid failed to be undone or stands behind one that did. |
| ObmmBatch.StoppedRollback | src/adapter_plugins/mmi/ubse_obmm_executor.cpp:427-457 | What a rollback that stops at a failure leaves live is the failing memid and those behind it in the list. |
| ObmmBatch.AllOrNothing | src/adapter_plugins/mmi/ubse_obmm_executor.cpp:402-425 | Without undo failures a failed batch has changed nothing. |
| AddrBorrow.NumaPool.Generate | src/adapter_plugins/mmi/ubse_mem_instance_inner.cpp:759-771 | Gives the least unreserved id in [34, 256) and fails exactly when all are reserved. |
| AddrBorrow.AddrImporter.RollbackImport | src/adapter_plugins/mmi/ubse_mem_instance_inner.cpp:285-293 | Tries every entry of any list; a memid stays live exactly if every attempt at it failed. |
| AddrBorrow.AddrImporter.RollBackNuma | src/adapter_plugins/mmi/ubse_mem_instance_inner.cpp:536-541 | Takes exactly the listed ids out of the pool. |
| AddrBorrow.AddrImporter.Import | src/adapter_plugins/mmi/ubse_mem_instance_inner.cpp:543-597 | At every exit the pool is what the kernel's answers during the call make of it. Unless the last answer was a failure, live memids and reserved ids are the old ones plus exactly those of the results, granted in this order; after a failure there are no results, and what is still live in excess could not be undone. The call succeeds exactly if every entry was granted, and then each memid carries the borrow's name and the number of entries in 16 bits; lists of different lengths are refused with 10003 and no change. |
| AddrBorrow.RollbackKeepsPool | src/adapter_plugins/mmi/ubse_mem_instance_inner.cpp:536-586 | After a rollback the pool is as before if and only if no id the kernel granted during the call was reserved before it. |
| AddrBorrow.RollbackLosesReserved | src/adapter_plugins/mmi/ubse_mem_instance_inner.cpp:579-586 | Granting a reserved id to the first entry and refusing the second leaves the pool without the reserved id. |
| AddrBorrow.AddrImporter.UnImport | src/adapter_plugins/mmi/ubse_mem_instance_inner.cpp:599-628 | Frees memid and NUMA id together, up to the first failure: of the live memids exactly those go that are listed up to there and whose metadata cannot be read or are those of an address borrow of this name. |
| AddrBorrow.AddrImporter.UnImportAgain | src/adapter_plugins/mmi/ubse_mem_instance_inner.cpp:599-628 | An unimport of a list partly gone takes the pool down by the ids of the memids it frees if and only if no id given back before has been reserved again since. |
| AddrBorrow.AddrImporter.ImportThenUnImport | src/adapter_plugins/mmi/ubse_mem_instance_inner.cpp:543-628 | An import followed by the unimport of its results restores the kernel, and the pool exactly when none of the ids granted to the results had been reserved. |
| AddrCalls.StepKeepsExact | src/adapter_plugins/mmi/ubse_mem_instance_inner.cpp:746-771 | A step of any concurrent import, unimport or retried unimport keeps the pool equal to the start plus the ids held or set aside exactly if it takes out no id that is still claimed. |
| AddrCalls.ExactUnlessHarmed | src/adapter_plugins/mmi/ubse_mem_instance_inner.cpp:543-628 | In every interleaving, with any number of retries, the pool is so in all states if and only if no step takes out an id that is still claimed. |
| AddrCalls.CalmRunsAreExact | src/adapter_plugins/mmi/ubse_mem_instance_inner.cpp:543-628 | It is so in every interleaving in which ids set aside or granted are neither reserved, on their way into the pool nor about to be taken out by a retry, and a retry starts only while no id it gives back again is in use elsewhere. |
| AddrCalls.CalmIsNeeded | src/adapter_plugins/mmi/ubse_mem_instance_inner.cpp:543-628 | From an exact state with every id in use once, a step meets these conditions if and only if no run of steps that meet them can lose an id in use after it. |
| AddrCalls.RetryKeepsPool | src/adapter_plugins/mmi/ubse_mem_instance_inner.cpp:599-628 | An unimport tried again takes out the ids of all entries already gone, and keeps the pool exact if and only if none of them is claimed by then. |
| AddrCalls.RetriesCanClash | src/adapter_plugins/mmi/ubse_mem_instance_inner.cpp:603-626 | Calls one after the other, each granted what it set aside, can end with an id held that the pool does not show, by a retried unimport. |
| AddrCalls.UnreservedGrantsCanClash | src/adapter_plugins/mmi/ubse_mem_instance_inner.cpp:563-593 | Unreserved grants alone do not suffice: nine steps of two imports from an empty pool end with an id held that the pool does not show. |
| ExportNames.RestoreUndoesKey | src/adapter_plugins/mmi/ubse_mem_obj_restore.cpp:132-136 | Taking the name apart at the last underscore gives the borrow's name back exactly if the importing node's id has no underscore. |
| ExportNames.RecomputedNameMatches | src/adapter_plugins/mmi/ubse_mem_common_utils.h:79-82 | The name recomputed at unexport, directly or after a restart, equals the stored one exactly under conditions on the two ids alone. |
| ExportNames.UnExporter.UnExport | src/adapter_plugins/mmi/ubse_mem_instance_inner.h:86-118 | Of the live memids exactly those go that are listed up to the stop and whose metadata cannot be read or have the expected type and name; it stops at an invalid memid or at one whose undo fails in this call. |
| ExportNames.UnExporter.ExportThenUnExport | src/adapter_plugins/mmi/ubse_mem_instance_inner.h:86-118 | From the stored name to the unexport: the kernel is restored if the name is kept, and every memid with readable metadata stays live if it is not. |
| MetaCodec.CustomMeta.CopyAlgoResult | src/adapter_plugins/mmi/ubse_mem_common_utils.cpp:78-119 | Succeeds exactly on results that fit the area, and then stores what the specification of the encoding says; the name stored is the borrow's, with an underscore and the first importing node's id behind it if asked for. |
| MetaCodec.EncodeOkInNumbers | src/adapter_plugins/mmi/ubse_mem_common_utils.cpp:81-117 | A result fits, where nothing holds a zero byte, exactly if it has one to four exports and no more imports, a non-empty exporting node id and node ids below 16 characters, and its name stays below 52 with what is appended. |
| MetaCodec.EncodedName | src/adapter_plugins/mmi/ubse_mem_common_utils.cpp:106-110 | The name field is the borrow's name, behind it an underscore and the importing node's id if asked for; it is cut at a zero byte. |
| MetaCodec.EncodedFields | src/adapter_plugins/mmi/ubse_mem_common_utils.cpp:87-105 | Sockets, path, node ids and slots hold the result's values, a NUMA id in one byte; slots beyond the lists, and without imports their side-wide fields, keep what they had. |
| MetaCodec.Exporter.StoreExportUnExport | src/adapter_plugins/mmi/ubse_mem_instance_inner.cpp:153-158 | Storing a result, exporting under the stored name, and unexporting under the key recomputed from the borrow and the result, or after a restart from the restored name and the stored node, restores the kernel, for names without a zero byte and, if restored, node ids without an underscore. |
| MetaCodec.CustomMeta.ReadSlots | src/adapter_plugins/mmi/ubse_mem_obj_restore.cpp:246-253 | The NUMA decoder reads the occupied slots, wherever they are. |
| MetaCodec.CustomMeta.ReadPrefix | src/adapter_plugins/mmi/ubse_mem_obj_restore.cpp:44-74 | The FD decoder reads as many slots from the front as are occupied anywhere. |
| MetaCodec.DecodedFields | src/adapter_plugins/mmi/ubse_mem_obj_restore.cpp:67-74 | Which field of the area each field of a decoded entry is read from, for either decoder. |
| MetaCodec.OccupiedAscending | src/adapter_plugins/mmi/ubse_mem_obj_restore.cpp:246-253 | The occupied slots are those of a size that is not zero, in ascending order. |
| MetaCodec.DecodersAgreeWhenPacked | src/adapter_plugins/mmi/ubse_mem_obj_restore.cpp:44-253 | The two decoders agree exactly when no empty slot precedes an occupied one. |
| MetaCodec.RoundTrip | src/adapter_plugins/mmi/ubse_mem_common_utils.cpp:78-119 | Decoding what was stored gives the same result exactly for well-formed results. |
| MetaCodec.RoundTripBothDecoders | src/adapter_plugins/mmi/ubse_mem_obj_restore.cpp:25-94 | A well-formed result comes back from either decoder with the importing node the decoder is told, and so the same exactly if that is the stored one. |
| MetaCodec.ExportReadsBackPathless | src/adapter_plugins/mmi/ubse_mem_obj_restore.cpp:167-177 | A restored export has its well-formed result without port, chip and attach socket, from either decoder. |
| MetaCodec.ExportSideRoundTrip | src/adapter_plugins/mmi/ubse_mem_obj_restore.cpp:167-177 | So it has the same result again exactly when that was well formed and had no path. |
| RegionMask.SetMask | src/adapter_plugins/mmi/ubse_mem_common_utils.cpp:142-155 | Fails exactly on an index of 32 or more; otherwise the set bits are the indices. |
| RegionMask.RegionsAreTheBits | src/adapter_plugins/mmi/ubse_mem_obj_restore.cpp:679-689 | The decoded indices are the set bits, ascending. |
| RegionMask.StoreAndRead | src/adapter_plugins/mmi/ubse_mem_common_utils.cpp:142-155 | Storing node indices and reading the mask gives the same nodes, ascending and without repetition. |
| Restore.Restorer.Classify | src/adapter_plugins/mmi/ubse_mem_obj_restore.cpp:929-967 | Every record of a known kind is in the bucket of its family, in order, and in no other. |
| Restore.Restorer.GroupByName | src/adapter_plugins/mmi/ubse_mem_obj_restore.cpp:916-927 | One group per name, holding its records in order. |
| Restore.Restorer.ConstructSingle | src/adapter_plugins/mmi/ubse_mem_obj_restore.cpp:784-825 | A group is normal exactly if it has as many records as its first one says and, for FD records and share imports, the NUMA sizes of that one sum below 2^64; its object then lists every record's memid in order, imports of NUMA and address borrows with its NUMA id, and an address import reserves them. |
| Restore.Restorer.TearDown | src/adapter_plugins/mmi/ubse_mem_obj_restore.cpp:985-1017 | Undoes the memids up to the first failure and gives back the NUMA ids of exactly those. |
| Restore.Restorer.ProcessAbnormal | src/adapter_plugins/mmi/ubse_mem_obj_restore.h:129-190 | Every partial object is gone without trace, or is kept as faulty with the memids from the failing one on still live; nothing else is touched. |
| Restore.Restorer.RestoreFamily | src/adapter_plugins/mmi/ubse_mem_obj_restore.cpp:96-122 | Every group of a family is kept untouched, torn down or kept as faulty, and nothing but its memids has gone. |
| Restore.BuiltDisjoint | src/adapter_plugins/mmi/ubse_mem_obj_restore.cpp:916-927 | Objects built from groups of different names share no memid. |
| Restore.PoolAfter | src/adapter_plugins/mmi/ubse_mem_obj_restore.cpp:784-825 | The pool after the address imports: the start and the ids of the live ones, less those of the records torn down. |
| RestoreLedger.LedgerRestorer.RestoreAll | src/adapter_plugins/mmi/ubse_mem_instance_inner.cpp:468-508 | Whatever the kernel refuses on the way: an entry without an error stands in the ledger exactly for each family and name whose records are as many as the first of them counts, unless the NUMA sizes of a checked one overflow 64 bits, and lists them all; such groups and those that overflow stay live, any other has gone or is kept as faulty with the memids from one position on still live; views stand for the complete share exports in own use that no real import has the name of. |
| RestoreLedger.GroupInOrder | src/adapter_plugins/mmi/ubse_mem_obj_restore.cpp:916-967 | The group of a family and name holds the records with its two type codes and that name, in their order. |
| RestoreLedger.BatchComesBackWhole | src/adapter_plugins/mmi/ubse_mem_obj_restore.cpp:93-122 | Records that carry the count a batch wrote are restored without an error exactly if none of the batch is missing, for batches below 65536 memids; a larger one is not restored even if all of it is found. |
| RestoreLedger.ExportComesBackWhole | src/adapter_plugins/mmi/ubse_obmm_executor.cpp:516-516 | So it is for what a complete batch export has stored. |
| RestoreLedger.ImportComesBackWhole | src/adapter_plugins/mmi/ubse_obmm_executor.cpp:412-412 | So it is for what a complete batch import has stored. |
| RestoreLedger.AddrComesBackWhole | src/adapter_plugins/mmi/ubse_mem_instance_inner.cpp:570-570 | So it is for the results of an address import. |
| RestoreLedger.Conservation | src/adapter_plugins/mmi/ubse_mem_obj_restore.cpp:929-967 | Every live recognised memid is listed in exactly one object, that of its family and name, if and only if the NUMA sizes of the checked groups sum within 64 bits. |
| RestoreLedger.ListedOnce | src/adapter_plugins/mmi/ubse_mem_obj_restore.cpp:916-967 | No memid is listed in two objects. |
| RestoreLedger.CompleteUntouched | src/adapter_plugins/mmi/ubse_mem_obj_restore.cpp:96-122 | A complete group is listed as it stands and all its memids stay live. |
| RestoreLedger.DeadOnlyInFaulty | src/adapter_plugins/mmi/ubse_mem_obj_restore.h:129-190 | A listed memid that is no longer live is in an object marked faulty, and never of a complete group. |
| RestoreLedger.FaultyIsCut | src/adapter_plugins/mmi/ubse_mem_obj_restore.cpp:985-1017 | A restored address import marked faulty lists memids gone and then memids live, each with its record's NUMA id. |
| RestoreLedger.LedgerRestorer.UnImportFaulty | src/adapter_plugins/mmi/ubse_mem_instance_inner.cpp:599-628 | A later unimport of such an object takes the pool down by the ids of the memids freed now if and only if none of the ids given back at the restore has been reserved again since. |
| RestoreLedger.LedgerRestorer.BuildViews | src/adapter_plugins/mmi/ubse_mem_obj_restore.cpp:588-646 | A share export that its own node uses gets an import view exactly if it is complete and no real import has its name. |
| RestoreLedger.ViewsMirrorExports | src/adapter_plugins/mmi/ubse_mem_obj_restore.cpp:588-646 | A view lists exactly the memids of a restored share export, all of them live. |
| RestoreLedger.PoolIsInUse | src/adapter_plugins/mmi/ubse_mem_instance_inner.cpp:746-771 | With distinct NUMA ids per record and an empty pool at the start, the pool holds exactly the ids of live imports, so no later allocation gives one in use. |
| RestoreLedger.PoolExact | src/adapter_plugins/mmi/ubse_mem_obj_restore.cpp:985-1017 | From any pool at the start, the pool is that and the ids in use exactly when no id given back is still needed. |
| RestoreLedger.LedgerRestorer.RestoreThenAllocate | src/adapter_plugins/mmi/ubse_mem_instance_inner.cpp:468-771 | Restoring everything from an empty pool and allocating then gives the least id in [34, 256) that no live import uses, and fails exactly when all are in use. |
| EidText.ParseAfterPrint | src/adapter_plugins/mti/ubse_mti_eid_interface.cpp:71-118 | Every 128-bit string survives printing and parsing, and prints canonically. |
| EidText.PrintAfterParse | src/adapter_plugins/mti/ubse_mti_eid_interface.cpp:71-118 | A text survives parsing and printing exactly when it is canonical. |
| EidText.TextDigits | src/adapter_plugins/mti/ubse_mti_eid_interface.cpp:71-118 | Digit k of group g of a canonical text is the hexadecimal digit of bits 16g + 4k to 16g + 4k + 3, highest first. |
| EidText.SegmentsJoin | src/adapter_plugins/mti/ubse_mti_eid_interface.cpp:75-79 | Joined by colons the segments are the text, but for one colon at its very end, which starts no further segment. |
| EidText.GroupConverts | src/framework/misc/ubse_str_util.cpp:145-158 | A printed group converts back to its value under the liberal number syntax. |
| EidText.LiberalForms | src/framework/misc/ubse_str_util.cpp:145-158 | Leading spaces, a plus sign, a 0x prefix, either case and trailing characters do not change a group's value, which converts if it fits 16 bits; behind a minus sign exactly zero and the 65535 magnitudes closest to 2^64 convert, by wrapping around. |
| EidText.FirstCharacter | src/framework/misc/ubse_str_util.cpp:145-158 | A space or a control character from 9 to 13 in front of a number is passed over; any other but a sign or a digit of either case keeps it from converting. |
| EidText.CaseDoesNotMatter | src/framework/misc/ubse_str_util.cpp:145-158 | Upper and lower case digits count the same. |
| EidCodec.SplitSegments | src/adapter_plugins/mti/ubse_mti_eid_interface.cpp:71-98 | The loop splits at the colons as its recursive specification does. |
| EidCodec.ParseBaseEid | src/adapter_plugins/mti/ubse_mti_eid_interface.cpp:71-98 | Accepts exactly the texts whose segments all convert and give 128 bits, and returns those bits. |
| EidCodec.ConstructEid | src/adapter_plugins/mti/ubse_mti_eid_interface.cpp:100-118 | The appending loop prints group by group, for any number of bits. |
| EidCodec.CheckRule | src/adapter_plugins/mti/ubse_mti_eid_interface.cpp:122-136 | Accepts exactly the non-empty rules whose ranges have start <= end < 24, and adds up their width. |
| EidCodec.WriteRanges | src/adapter_plugins/mti/ubse_mti_eid_interface.cpp:143-159 | The nested loops write range after range as the specification does; under a disjoint rule each range, read as a number, then holds its share of the server id plus its offset. |
| EidCodec.OverwriteEid | src/adapter_plugins/mti/ubse_mti_eid_interface.cpp:120-162 | Succeeds exactly for a valid rule and a parsable text. The text given is canonical and differs in bits of the ranges only; under a disjoint rule range j, read from position 119 - c for bit c, lowest first, holds (index mod 2^width / 2^(width of the ranges before j) + offset) mod 2^(its length). |
| EidCodec.ParseCnaFromEid | src/adapter_plugins/mti/ubse_mti_eid_interface.cpp:164-181 | Succeeds exactly for parsable texts and keeps the CNA bits alone. |
| EidFields.DisjointWidth | src/adapter_plugins/mti/ubse_mti_eid_interface.cpp:127-136 | Pairwise disjoint ranges are together at most 24 bits wide. |
| EidFields.OverwriteTouchesRanges | src/adapter_plugins/mti/ubse_mti_eid_interface.cpp:143-159 | An overwrite changes only bits of the ranges. |
| EidFields.OverwriteAbsorbs | src/adapter_plugins/mti/ubse_mti_eid_interface.cpp:120-162 | An overwrite absorbs an earlier one, also when ranges overlap. |
| EidFields.OverwriteCommutesWithCna | src/adapter_plugins/mti/ubse_mti_eid_interface.cpp:120-181 | Overwriting the index and extracting the CNA commute. |
| EidFields.RangeKeeps | src/adapter_plugins/mti/ubse_mti_eid_interface.cpp:143-159 | Under a disjoint rule every range ends up holding its field value. |
| EidFields.RangeHolds | src/adapter_plugins/mti/ubse_mti_eid_interface.cpp:141-158 | The same of the bits of an overwrite: the number read from a range is the index's share plus the offset, modulo two to its length. |
| EidFields.CarriesNumbers | src/adapter_plugins/mti/ubse_mti_eid_interface.cpp:143-159 | The ranges hold the bits of an index exactly when they hold these numbers. |
| EidFields.OverwriteInjective | src/adapter_plugins/mti/ubse_mti_eid_interface.cpp:120-162 | Two indices give the same bits exactly if they agree in the bits the rule can carry, although every offset addition wraps within its range. |
| EidFields.FixedWhenCarried | src/adapter_plugins/mti/ubse_mti_eid_interface.cpp:120-162 | An overwrite changes nothing exactly if every range already holds the index's bits. |
| EidCodec.OverwriteLaws | src/adapter_plugins/mti/ubse_mti_eid_interface.cpp:71-181 | On texts: results are canonical, overwrites absorb and commute with CNA extraction, and indices below two to the width give different texts. |
| EidCodec.RuleSeparates | src/adapter_plugins/mti/ubse_mti_eid_interface.cpp:120-162 | A disjoint rule of width w gives 2^w servers different EIDs, and an index 2^w higher the same EID again. |
| EidCodec.DefaultRuleSeparates | src/adapter_plugins/mti/ubse_mti_eid_interface.cpp:30-32 | The built-in rule tells 8192 servers apart, and an index 8192 higher gives the same EID again. |
| EidCodec.DefaultRuleDigits | src/adapter_plugins/mti/ubse_mti_eid_interface.cpp:30-32 | The built-in rule in text: digit 30 is (index / 512 + 1) mod 16, digits 32 and 33 are index / 32 and index / 2 mod 16, and the lowest bit of the index is the top bit of digit 35. |
| EidCodec.OtherDigitsStay | src/adapter_plugins/mti/ubse_mti_eid_interface.cpp:143-159 | All other digits of a canonical base stay as they are. |
| EidCodec.CnaDigits | src/adapter_plugins/mti/ubse_mti_eid_interface.cpp:164-181 | The CNA of a canonical EID in text: the seventh group and the first two digits of the eighth, and 0 elsewhere. |
| EidCodec.FixedTextIsVerified | src/adapter_plugins/mti/ubse_lcne_module.cpp:228-250 | A text is unchanged by the overwrite exactly if it is canonical and already carries the index. |
| EidCodec.VerifyEids | src/adapter_plugins/mti/ubse_lcne_module.cpp:228-250 | Accepts a group exactly if its primary and all its port EIDs are canonical and carry the server index; under a disjoint rule, exactly if their ranges read as numbers hold it. |
| TimeoutManager.Manager.Register | src/adapter_plugins/mmi/ubse_mmi_timeout_manager.cpp:41-49 | A fresh handle is listed last, with the clock plus 1000000 ns for every millisecond as its deadline. |
| TimeoutManager.Manager.Unregister | src/adapter_plugins/mmi/ubse_mmi_timeout_manager.cpp:51-59 | Takes out the first entry of the handle, if there is one. |
| TimeoutManager.Manager.Scan | src/adapter_plugins/mmi/ubse_mmi_timeout_manager.cpp:65-73 | Finds nothing exactly if no entry is due before 2^63 - 1, and else what the specification of the scan says. |
| TimeoutManager.EarliestIsLeast | src/adapter_plugins/mmi/ubse_mmi_timeout_manager.cpp:65-73 | What the scan finds is listed and due no later than any other entry. |
| TimeoutManager.EarliestIsFirst | src/adapter_plugins/mmi/ubse_mmi_timeout_manager.cpp:65-73 | Of equal deadlines it is the first in the list. |
| TimeoutManager.EveryInterleaving | src/adapter_plugins/mmi/ubse_mmi_timeout_manager.cpp:41-111 | In every interleaving each handle is in exactly one of pending, unregistered or claimed, is called once per claim and never before its deadline, the loop never sleeps past a deadline unnotified, and a cancelled guard's entry is gone. |
| TimeoutManager.NoSoonerThanAsked | src/adapter_plugins/mmi/ubse_mmi_timeout_manager.cpp:41-93 | In every run, what is registered for so many milliseconds is neither claimed nor called before the clock has gone on by as many million nanoseconds. |
| TimeoutManager.CancelsOnce | src/adapter_plugins/mmi/ubse_mmi_timeout_manager.cpp:105-111 | However many threads cancel a guard, the compare-exchange succeeds for one of them at most. |
| TimeoutManager.GoneIsForGood | src/adapter_plugins/mmi/ubse_mmi_timeout_manager.cpp:51-93 | A handle that has left the list is never claimed, removed or newly called in any continuation. |
| TimeoutManager.RemovedIsNeverCalled | src/adapter_plugins/mmi/ubse_mmi_timeout_manager.cpp:51-59 | No run calls a handle after an Unregister that found its entry. |
| TimeoutManager.OverdueIsClaimed | src/adapter_plugins/mmi/ubse_mmi_timeout_manager.cpp:64-91 | A loop that looks while an entry is overdue claims one at once, the earliest. |
| TimeoutManager.OverdueWakesTheLoop | src/adapter_plugins/mmi/ubse_mmi_timeout_manager.cpp:75-81 | With an overdue entry a sleeping loop has been notified or its wait is over. |
| TimeoutManager.ClaimsInOrder | src/adapter_plugins/mmi/ubse_mmi_timeout_manager.cpp:80-90 | A claimed entry is due no later than any still listed that was registered before the loop last looked. |
| TimeoutManager.ClaimInOrderUnlessOvertaken | src/adapter_plugins/mmi/ubse_mmi_timeout_manager.cpp:64-91 | In every reachable state whose wait is over, the claim leaves nothing listed that is due earlier if and only if no entry registered since the loop last looked is due before the deadline waited for. |
| TimeoutManager.NothingNewMeansOrder | src/adapter_plugins/mmi/ubse_mmi_timeout_manager.cpp:64-91 | In particular nothing registered since the loop looked means order. |
| TimeoutManager.OutOfOrderClaim | src/adapter_plugins/mmi/ubse_mmi_timeout_manager.cpp:80-90 | A run of four steps after which the loop claims an entry due after 10 ms while one due after 1 ms stays listed. |
| TopologyDelta.Topology.AddTopology | src/adapter_plugins/mti/ubse_lcne_topology.cpp:296-338 | The peer map gains exactly the edges of the ports that are up. |
| TopologyDelta.Topology.CreateDevTopology | src/adapter_plugins/mti/ubse_lcne_topology.cpp:340-355 | After a refresh the edges are those of the fetched ports with status up, from slot-chip to remote slot-chip, and none if the fetch failed; a failed CNA query only changes the answer. |
| TopologyDelta.Topology.IdentifyTopoChange | src/adapter_plugins/mti/ubse_lcne_topology.cpp:121-151 | In any order of walking the maps, the text lists every lost edge as DOWN and then every gained one as UP, each once, and nothing else. |
| TopologyDelta.Topology.PortUpDown | src/adapter_plugins/mti/ubse_lcne_topology.cpp:153-184 | Handling a notification keeps the invariant that all changes listed so far lead from the first edges to the current ones. |
| TopologyDelta.DeltaReplays | src/adapter_plugins/mti/ubse_lcne_topology.cpp:121-151 | Applying a delta in its order to the old edges gives the new ones. |
| TopologyDelta.DeltaIsShortest | src/adapter_plugins/mti/ubse_lcne_topology.cpp:121-151 | No shorter sequence of changes leads from the old edges to the new ones. |
| TopologyDelta.DeltaWords | src/adapter_plugins/mti/ubse_lcne_topology.cpp:134-146 | In the text of a delta the line of an edge that differs is the word DOWN if it is lost and UP if it is gained, a semicolon, the two names with a colon between, and a vertical bar, with the texts of the changes before and behind around it. |
| TopologyDelta.MessageDetermines | src/adapter_plugins/mti/ubse_lcne_topology.cpp:134-146 | Two texts tell their lists as long as no name holds a vertical bar and no device whose edges are listed a colon. |
| TopologyDelta.TextIsUnique | src/adapter_plugins/mti/ubse_lcne_topology.cpp:121-151 | Among lists of names that hold a '-' and no vertical bar, the text of a list is unique if and only if no device name has a colon behind a '-' and no peer name a '-' behind a colon. |
| TopologyDelta.PlainTextIsUnique | src/adapter_plugins/mti/ubse_lcne_topology.cpp:121-151 | Among lists of any names without a vertical bar, the text of a list is unique if and only if none of its names holds a colon. |
| TopologyDelta.BarsNeverUnique | src/adapter_plugins/mti/ubse_lcne_topology.cpp:134-146 | If names may hold vertical bars, no list of two or more changes has a unique text. |
| TopologyDelta.DeltasAreNamed | src/adapter_plugins/mti/ubse_lcne_topology.cpp:305-325 | Every name in a delta of two fetched topologies holds a '-'. |
| TopologyDelta.AmbiguousColon | src/adapter_plugins/mti/ubse_lcne_topology.cpp:134-146 | For any slot and chip ids there are two topologies of one link each, a chip id of which holds a colon, that come up from nothing with different deltas and the same text. |
| TopologyDelta.AmbiguousBar | src/adapter_plugins/mti/ubse_lcne_topology.cpp:134-146 | For any two different links there is a single link, a chip id of which holds a vertical bar, that comes up from nothing with the same text as both together. |
| TopologyDelta.RunReplays | src/adapter_plugins/mti/ubse_lcne_topology.cpp:153-184 | Over every sequence of notifications, failed refreshes included, all listed changes in order lead from the first edges to the last. |

## Left out

- Integer widths: handles, times, sizes and NUMA ids are unbounded; 64-bit overflow is written out where the code tests for it, the 16-bit memid count, 8-bit NUMA ids and wrapping bit fields are modelled as such.
- BlockSplit.Split: requires fewer than 2^31 blocks, as the block loop counts in an int.
- ObmmBatch.Executor.ExportBatch: requires fewer than 2^31 blocks, as the block loop counts in an int.
- ExportNames.UnExporter.ExportThenUnExport: requires fewer than 2^31 blocks, like the split it contains; for a restored export whose ids contain a zero byte it claims nothing; share exports carry no node id.
- EidCodec.VerifyEids: requires a total width below 32, like the overwrite it contains.
- EidCodec.OverwriteEid: requires a total width below 32, as the width is a shift count of a 32-bit number; rules of disjoint ranges always meet it.
- TimeoutManager.Manager.Register: deadlines beyond the range of the clock, where the addition overflows, are outside the step system.
- RecvQueue.RecvRing.ReceiveReply: takes the first block of the send buffer as the request; copying to and from user space is not modelled.
- RecvQueue.RecvRing.ReceiveFromRq: is about queues of whole messages, to which the device appends at polls only; arbitrary headers and writes are covered by `ReceiveUnderWrites`.
- RecvQueue.RecvRing.ReceiveWhileQuiet: requires that the scan ends, as the call otherwise never returns.
- RecvQueue.RecvRing.ReceiveUnderWrites: requires that some pass ends the call, which by `CallReturns` is exactly when the call returns.
- AddrCalls.ExactUnlessHarmed: is about the NUMA ids alone; live entries that an unimport spares because their metadata name another borrow are not part of it, nor is a memid that the kernel has reused with unreadable metadata.
- SendQueue.RunDelivers: the driver's own lock is taken for granted, check and send are one step.
- TopologyDelta.TextIsUnique: compares with lists that need not be deltas of fetched topologies themselves.
- TopologyDelta.Topology.PortUpDown: publishing is the message built; a failing event channel, the per-port event and the device and CNA tables beside the peer map are not modelled.
- HandlerPasses.FaultHandlers.Register: handlers are names with outcomes given as inputs; null handlers, removal of handlers and the expiry of old records are not modelled.
- BmcTimers.BmcFaults.HandleBMCFault: is one step; the early exits for single-node clusters and for a master that hands over its role, shutdown, and failures to send an acknowledgement are not modelled.
- PendingFaults.EveryInterleaving: covers a fixed registration of distinct handler names and no clearing of records in between.
- RestoreLedger.BatchComesBackWhole: takes the records as what the kernel returns of the metadata written; reading them is not modelled.
- MetaCodec.Exporter.StoreExportUnExport: requires an importing node, whose id an unexport takes from the result, and fewer than 2^31 blocks.
- Restore.Restorer.ConstructSingle: restores memids, NUMA ids and the error code; users, process ids, private data and decoder results of the objects are not modelled.
- MetaCodec.RoundTrip: the block size, which is recomputed from the total size, is not part of the stored result; the address encoders, which copy the same slots from the request, have no model of their own.
- The kernel is an oracle: it may refuse any call, never reuses a live memid, and the set of memids with unreadable metadata does not change during a call.
- The executors of the FD, NUMA and share borrows around the batch operations, and the address export: they pass arguments on.
- Pre-online import and its manager are not part of this model.
- `GenerateUrmaDevEid`, which composes fixed fields into an EID, and the configuration parser of the EID rule.
- Ownership changes of device files, capabilities, signals, register access, dynamic loading: one nondeterministic answer each.
- Command line, SDK examples, server start-up, election, RPC and thread-pool internals, logging.
