# Verified model of the XLIO device data path

XLIO moves packets between an application and a network device without the kernel. This project
models the parts of it that hold state over a whole run, and proves what every run of them keeps.

| files | models |
|---|---|
| `ReceivePath`, `ReceiveQueue`, `ReceiveManager`, `RegularReceive` | the receive ring: buffers travel from the global pool through the pool of the queue, a posting batch, the hardware ring and the upper layer, and back; a debt counter stands for ring entries not refilled yet |
| `StridePath`, `StrideQueue`, `StrideReceive` | the striding receive ring, where one ring entry is cut into strides that come back in any order, and the strides that wait for the upper layer |
| `CompletionQueue` | the completion queue shared with the device, and its ownership bit |
| `TransmitPath`, `TransmitQueue` | the send queue: credits, back-linked work requests on a wrapping ring, coalesced completions |
| `TransmitCredits`, `SendBuild` | what a packet is charged before it is built, and the blocks it takes once it is built |
| `TransmitSafety`, `DeviceSend` | the charge and the ring together; the send queue and device memory together |
| `DeviceMemory` | the cyclic allocator for packet data in device memory |
| `Heap`, `BufferPool`, `CycleFinding` | the page heap, buffer pools with a threaded free list, and the cycle search run on a corrupt list |
| `RecursiveLock` | the recursive spin lock and mutex, for any number of threads |
| `StateTable`, `StateMachine` | the table-driven state machine with its re-entrancy queue |
| `HashTable`, `DaemonStore`, `DaemonMessages`, `Checksum` | the daemon's hash table, its two-level record of processes and sockets kept in such tables, and its Internet checksum |
| `Bits`, `Buffers`, `Sums` | masks and wrapping counters, free lists, sums |

Each component has a specification on values (states and step functions with lemmas over every
run). Where the source changes objects in place, a class with the source's fields has methods whose
postconditions equate the new state with the specification's step. Unbounded ghost positions stand
beside the source's 16-, 32- and 64-bit counters, so wrap-around is part of every statement.

## Results that differ from what the source promises

- `TransmitCredits.ChargeCoversBlocks`, `ChargeCoversExtent`: `credits_calculate` must never charge
  less than a work request takes. For an inlined packet it does exactly when its header part saves too
  little, stated for every packet and every place in the ring, both for the blocks the work request
  declares and for the blocks its copy writes to. Without empty later pieces these are the same, and
  the charge is too little when the first piece is shorter than six bytes and the total lands badly;
  `ShortFirstPiece` is such a packet, and `TransmitSafety.UnderchargedOverlap` shows two of them
  sharing a ring block.
- `TransmitCredits.EmptyPieceTruncates`, `EmptyPieceAtTheEnd` and `EmptyPieceOverruns`: the inline copy
  stops at an empty piece, so the bytes behind it are not sent; when the end of the ring splits the
  copy they are written at the beginning of the ring, however much room before the end stayed unused.
  A packet with a full header can then write to more blocks than it is charged for, and
  `TransmitSafety.OverrunOverwrites` shows it built over a work request in flight.
- `DeviceMemory.RunKeeps`, `LeakExact`: `copy_data` clears the buffer's length on entry, so a packet
  that has a piece copied and then offers another, granted or refused, loses the first for good. Over every run the
  memory lost is what copies made buffers forget: none exactly when every copy found its buffer
  empty. `DeviceSend.RunKeeps` says which packets do that; `RewriteLeaks` and
  `DeviceSend.TwoPiecesWaste` are instances. The pieces in use stay apart all the same.
- `DeviceSend.GiveBackKeeps`: TCP gives a buffer back when its data is acknowledged, and its device
  memory is released at once, whatever else holds the buffer and in any order. The allocator then takes
  the oldest bytes for free, which need not be the ones given back. Data that is still to be sent stays
  safe exactly when the buffer remembers no more of it than there is slack, so always when its packet
  was sent (`SentHarmless`); `tcp_pcb_purge` (src/core/lwip/tcp.c:1205-1206) gives unacknowledged
  buffers back without asking for that, and `DeviceMemory.OutOfOrderOverlaps` shows where it leads.
- `DeviceMemory.FailedCopyKeeps`: when the device fails to copy, the memory stays sound exactly when
  the piece would not have skipped the end of the memory; `FailedCopyBreaks` shows what happens
  otherwise.
- `DeviceMemory.IdleRefusal`: with nothing in use a request that fits can still be refused;
  `HalfWrittenRefuses` is an instance.
- `ReceivePath.DrainKeeps`, `CleanKeeps`: the background drain enters no debt for a failed
  completion, and a cleanup for none; exactly one ring entry is lost for each. The entries in use,
  promised or owed are those of the start less these, over every run; `DrainedFailureStarves` is a
  ring that ends up empty with the keep-full option on.
- `CycleFinding.FloydCircleInfo`: the safety limit makes the reported start and length wrong beyond
  2^24 + 1; the exact condition is stated.
- `Checksum.CsumExact` and `CsumWrong`: two folds are enough for every input exactly up to 131076
  bytes.
- `HashTable.Table.Put`, `MarkerExhausts`: the key 0xFFFFFFFF marks free slots; storing under it
  raises the count and fills no slot, and nothing lowers the count again, so after as many such
  rounds as there are slots an empty table refuses every key. A process number of -1 and a
  descriptor of 0xFFFFFFFF are that key: `DaemonMessages.Daemon.ProcMsgInit` and `ProcMsgState` leave
  the store sound exactly when nothing was stored under it, and the theorems over runs are about
  messages that store nothing under it.
- `Heap.RunKeeps`: the 64-bit test for room lets a request through whose sum wraps; everything handed
  out stays sound exactly when no request wraps. `WrapGrants` is an instance.
- `StateTable.Table.ProcessSparseTable`: a bad line stops the expansion and leaves the lines before
  it in force; the constructor ignores the error.

## Model

| member | source | states |
|---|---|---|
| ReceivePath.RunKeeps | src/core/dev/cq_mgr_rx.cpp:296-407 | over every run of completions, polls, drains, cleanups, reclaims and pool returns: ring entries posted, pending and owed never exceed the ring and are exactly those of the start less the ones lost to drained failures and cleanups, debt is never negative, and every buffer ever created is in exactly one place |
| ReceivePath.RunFeeds | src/core/dev/cq_mgr_rx.cpp:351-382 | with the keep-full option, in every run a batch of debt is never left standing; so of a ring that was filled completely at most two batches less two entries are missing, and the entries lost to drained failures and cleanups |
| ReceivePath.DrainedFailureStarves | src/core/dev/cq_mgr_rx_regrq.cpp:179-247 | one drained failure leaves a ring of one entry empty, with nothing owed, although the keep-full option is on |
| ReceivePath.StartKeeps | src/core/dev/cq_mgr_rx.cpp:172-225 | from an empty ring over any pool without duplicates: filling it and then running any operations keeps the invariant, and the ring is full at first when the pool is large enough |
| ReceivePath.EmptyIsSound | src/core/dev/cq_mgr_rx.cpp:49-78 | an empty ring meets the invariant if and only if the pool holds no buffer twice and batches are not empty |
| ReceivePath.StepKeeps | src/core/dev/cq_mgr_rx_regrq.cpp:179-294 | each single operation keeps the invariant, and loses exactly the entries counted for it |
| ReceivePath.PostListInOrder | src/core/dev/hw_queue_rx.cpp:205-213 | posting a list appends it, in order, to ring followed by batch, and touches nothing else |
| ReceivePath.PayDebtKeeps | src/core/dev/cq_mgr_rx.cpp:351-382 | refilling from the pool moves entries from debt to ring one for one |
| ReceivePath.GlobalGetKeeps | src/core/dev/buffer_pool.cpp:226-268 | taking from the global pool is all or nothing and conserves buffers, also when the pool grows |
| ReceivePath.CompensateKeeps | src/core/dev/cq_mgr_rx.cpp:351-382 | compensation keeps ring entries plus debt constant, whether or not buffers were found |
| ReceivePath.CompensateShape | src/core/dev/cq_mgr_rx.cpp:370-382 | compensation only appends to the ring and changes neither completions nor waiting buffers |
| ReceivePath.SettleKeeps | src/core/dev/cq_mgr_rx_regrq.cpp:263-290 | one consumed entry becomes one entry of debt or is reposted at once, and the buffer is used in exactly one of these ways |
| ReceivePath.HandleKeeps | src/core/dev/cq_mgr_rx_regrq.cpp:249-294 | handling one polled buffer, good or bad, restores the entry that polling consumed |
| ReceivePath.HandleDrainedKeeps | src/core/dev/cq_mgr_rx_regrq.cpp:179-247 | draining restores the entry only for a good completion |
| ReceivePath.PollOneKeeps | src/core/dev/cq_mgr_rx_regrq.cpp:61-97 | a poll takes the oldest posted buffer off the ring exactly when a completion waits |
| ReceivePath.PollAndProcessKeeps | src/core/dev/cq_mgr_rx_regrq.cpp:249-294 | a whole polling call conserves buffers and leaves ring entries plus debt as they were |
| ReceivePath.HandleDelivers | src/core/dev/cq_mgr_rx_regrq.cpp:263-290 | a polled buffer goes to the upper layer if and only if its completion was good, it is accepted and the ring does not need it back; a failed one never does; a refused one goes to the pool; and no batch of debt is left standing while there are buffers to pay it with |
| ReceivePath.PollLoopDelivers | src/core/dev/cq_mgr_rx_regrq.cpp:263-294 | over the polling loop the upper layer gains only posted buffers whose completions are good and accepted, and all of them when the ring takes none back, as while no batch of debt comes due |
| ReceivePath.PollAndProcessDelivers | src/core/dev/cq_mgr_rx_regrq.cpp:249-294 | a polling call hands up the accepted waiting buffers and, unless these reach the limit, the good accepted completions; a call that finds no completion pays its debt as far as buffers can be had |
| ReceivePath.ProcessQueueDelivers | src/core/dev/cq_mgr_rx_inl.h:31-46 | waiting buffers leave oldest first up to the limit; exactly the accepted ones go up and the refused ones to the pool |
| ReceivePath.HandleDrainedDelivers | src/core/dev/cq_mgr_rx_regrq.cpp:192-243 | a drained failure goes to the pool, a good TCP buffer up, any other good one behind those that wait; when the ring needs one back it takes the oldest waiting |
| ReceivePath.DrainDelivers | src/core/dev/cq_mgr_rx_regrq.cpp:179-247 | over the drain only good accepted TCP buffers go up, and while no batch of debt comes due all of them do and the other good ones wait in order |
| ReceivePath.CleanSorts | src/core/dev/cq_mgr_rx_regrq.cpp:34-54 | cleanup keeps the good buffers waiting in order and puts the others in the pool; recycling puts all there |
| ReceivePath.ReclaimGoes | src/core/dev/cq_mgr_rx.cpp:384-407 | a chain of this queue goes to the end of its pool, a foreign one to the front of the global pool |
| ReceivePath.CompensateFinds | src/core/dev/cq_mgr_rx.cpp:351-382 | compensation succeeds if and only if the pool or the global pool has buffers, and then leaves debt only when the pool is used up |
| ReceivePath.PayDebtInOrder | src/core/dev/cq_mgr_rx.cpp:351-382 | the oldest buffers of the pool are posted first, as many as are owed or there are |
| ReceivePath.DrainKeeps | src/core/dev/cq_mgr_rx_regrq.cpp:179-247 | a whole drain loses exactly as many ring entries as it meets failed completions |
| ReceivePath.CleanKeeps | src/core/dev/cq_mgr_rx_regrq.cpp:34-54 | cleanup conserves buffers, leaves no completion waiting, and loses exactly one ring entry for each that waited |
| ReceivePath.ReclaimKeeps | src/core/dev/cq_mgr_rx.cpp:384-407 | a returned chain moves from the upper layer to one pool, its own or the global one |
| ReceivePath.ReturnExtraKeeps | src/core/dev/cq_mgr_rx.cpp:314-324 | giving surplus buffers back conserves them; below twice the level nothing is given back, otherwise the oldest of the level stay |
| ReceivePath.FillKeeps | src/core/dev/cq_mgr_rx.cpp:193-224 | the initial fill never overshoots the ring whatever the pool refuses, fills it when the pool has enough, and leaves no debt |
| ReceiveQueue.StoreNext | src/core/dev/hw_queue_rx.cpp:282-288 | writing the next slot of the descriptor table disturbs no entry that is still to be polled |
| ReceiveQueue.MaskedIndex | src/core/dev/hw_queue_rx.cpp:282-288 | the 32-bit and the 64-bit counter, masked, both read the slot of the unbounded position, across their wraps |
| ReceiveQueue.HwQueueRx.constructor | src/core/dev/hw_queue_rx.cpp:72-129 | an empty queue |
| ReceiveQueue.HwQueueRx.Used | src/core/dev/hw_queue_rx.cpp:322-345 | the signed 32-bit difference of head and tail is the number of entries in use, across wraps of either |
| ReceiveQueue.HwQueueRx.RawPostRecv | src/core/dev/hw_queue_rx.cpp:322-380 | the batch is written to its ring slots in order; it is refused, after exactly the entries that fit, if and only if the ring has no room for all of it |
| ReceiveQueue.HwQueueRx.Flush | src/core/dev/hw_queue_rx.cpp:290-320 | with the credit invariant the refusal cannot happen |
| ReceiveQueue.HwQueueRx.PostRecvBufferRq | src/core/dev/hw_queue_rx.cpp:273-320 | a buffer is appended to the log of posted buffers, and the batch is handed over when full |
| ReceiveQueue.HwQueueRx.PostRecvBuffer | src/core/dev/hw_queue_rx.cpp:263-271 | the same in terms of ring and batch contents |
| ReceiveQueue.HwQueueRx.TakeHot | src/core/dev/cq_mgr_rx_regrq.cpp:61-78 | the descriptor read through the table is that of the oldest posted buffer, or null exactly when the ring is empty |
| ReceiveQueue.HwQueueRx.Retire | src/core/dev/cq_mgr_rx_regrq.cpp:79-97 | the tail moves on by one entry |
| ReceiveQueue.HwQueueRx.ReleaseUnposted | src/core/dev/hw_queue_rx.cpp:159-203 | the batch that was never handed over is given back, newest first, each buffer once |
| ReceiveManager.InvIsSound | src/core/dev/cq_mgr_rx.cpp:351-407 | the invariant of the receive path gives what the running operations rely on, also about what the upper layer holds |
| ReceiveManager.LastReleaseRecycles | src/core/dev/cq_mgr_rx.cpp:384-407 | whatever the two reference counts are, exactly one release recycles: the one after both have run down to one |
| ReceiveManager.CqMgrRx.constructor | src/core/dev/cq_mgr_rx.cpp:49-78 | a manager without buffers, debt or completions |
| ReceiveManager.CqMgrRx.PostRecvBuffers | src/core/dev/hw_queue_rx.cpp:205-213 | equals the specification's posting of a list |
| ReceiveManager.CqMgrRx.GetBuffers | src/core/dev/buffer_pool.cpp:226-268 | equals the specification's all-or-nothing get |
| ReceiveManager.CqMgrRx.RequestMoreBuffers | src/core/dev/cq_mgr_rx.cpp:296-312 | equals the specification's request |
| ReceiveManager.CqMgrRx.Pay | src/core/dev/cq_mgr_rx.cpp:351-382 | posts as many pool buffers as debt and pool allow, oldest first |
| ReceiveManager.CqMgrRx.CompensateQpPollFailed | src/core/dev/cq_mgr_rx.cpp:370-382 | equals the specification's compensation without a buffer at hand |
| ReceiveManager.CqMgrRx.CompensateQpPollSuccess | src/core/dev/cq_mgr_rx.cpp:351-368 | equals the specification's compensation, and reports whether the received buffer was reposted |
| ReceiveManager.CqMgrRx.ReturnExtraBuffers | src/core/dev/cq_mgr_rx.cpp:314-324 | equals the specification's return of surplus buffers |
| ReceiveManager.CqMgrRx.AddHqrx | src/core/dev/cq_mgr_rx.cpp:172-225 | equals the specification's initial fill |
| ReceiveManager.CqMgrRx.Recycle | src/core/dev/cq_mgr_rx.cpp:384-407 | a chain goes in order to the own pool, or reversed to the front of the global one |
| ReceiveManager.CqMgrRx.ProcessRecvBuffer | src/core/dev/cq_mgr_rx_inl.h:20-29 | a buffer goes to the upper layer, or back to the pool when refused |
| ReceiveManager.CqMgrRx.HandleReceived | src/core/dev/cq_mgr_rx_regrq.cpp:263-290 | equals the specification's handling of one polled buffer |
| ReceiveManager.CqMgrRx.HandleDrainedOne | src/core/dev/cq_mgr_rx_regrq.cpp:192-243 | equals the specification's handling of one drained buffer |
| ReceiveManager.CqMgrRx.ReclaimRecvBuffer | src/core/dev/cq_mgr_rx.cpp:384-407 | recycles the chain exactly when both reference counts have run out |
| RegularReceive.CqMgrRxRegrq.constructor | src/core/dev/hw_queue_rx.cpp:395-409 | ring and completion queue of the same size, all empty |
| RegularReceive.CqMgrRxRegrq.Start | src/core/dev/cq_mgr_rx.cpp:172-225 | the initial fill of the real fields equals the specification's and ends in its invariant |
| RegularReceive.CqMgrRxRegrq.HwComplete | src/core/dev/hw_queue_rx.cpp:395-409 | the hardware can complete any open ring entry without overrunning the completion queue |
| RegularReceive.CqMgrRxRegrq.Poll | src/core/dev/cq_mgr_rx_regrq.cpp:61-97 | returns the oldest posted buffer and its status exactly when a completion waits |
| RegularReceive.CqMgrRxRegrq.TakeCompleted | src/core/dev/cq_mgr_rx_regrq.cpp:79-97 | the buffers polled so far are, in order, the first ones ever posted: the next one polled is the next one posted |
| RegularReceive.CqMgrRxRegrq.PollBatch | src/core/dev/cq_mgr_rx_regrq.cpp:263-294 | equals the specification's polling loop |
| RegularReceive.CqMgrRxRegrq.ProcessRecvQueue | src/core/dev/cq_mgr_rx_inl.h:31-46 | waiting buffers are offered oldest first, up to the limit |
| RegularReceive.CqMgrRxRegrq.PollAndProcessElementRx | src/core/dev/cq_mgr_rx_regrq.cpp:249-294 | equals the specification's polling call |
| RegularReceive.CqMgrRxRegrq.DrainAndProcess | src/core/dev/cq_mgr_rx_regrq.cpp:179-247 | equals the specification's drain |
| RegularReceive.CqMgrRxRegrq.CleanCq | src/core/dev/cq_mgr_rx_regrq.cpp:34-54 | equals the specification's cleanup |
| RegularReceive.CqMgrRxRegrq.RunOps | src/core/dev/cq_mgr_rx_regrq.cpp:34-294 | any sequence of operations on the real fields is a run of the specification and ends in its invariant; buffers are polled in exactly the order in which they were posted |
| StrideQueue.StrideRunKeeps | src/core/dev/cq_mgr_rx_strq.cpp:106-456 | over every run of completions, polls, drains, cleanups and returns in any order: strides handed out of a buffer stay inside it and never overlap, its count is exact, credits are conserved but for the entries lost to cleanups, no buffer or stride descriptor is lost or in two places, waiting completions never outgrow the completion queue, and a stride that waits for the upper layer stays outstanding |
| StrideQueue.ProcessWaitingKeeps | src/core/dev/cq_mgr_rx_inl.h:31-46 | waiting strides are handed up first come first served, as many as wait or as the limit allows; accepted ones stay outstanding and exactly the refused ones come back |
| StrideQueue.QueueDrainKeeps | src/core/dev/cq_mgr_rx_strq.cpp:314-391 | the background drain keeps the invariant; what is not TCP waits behind what waited before |
| StrideQueue.DrainTurnDelivers | src/core/dev/cq_mgr_rx_strq.cpp:314-349 | the stride of a drained completion without the filler mark: TCP goes up at once if accepted, anything else is outstanding and waits behind what waited |
| StrideQueue.QueuePollKeeps | src/core/dev/cq_mgr_rx_strq.cpp:413-456 | a polling call, waiting strides first, keeps the invariant |
| StrideQueue.GoDownKeeps | src/core/dev/cq_mgr_rx_strq.cpp:106-129 | emptying a queue that goes down keeps the invariant: recycling, which enters debt, loses no ring entry and lets no stride wait; cleaning loses one for each completed entry, and its strides wait behind the earlier ones |
| StridePath.ReturnRecyclesExactly | src/core/dev/cq_mgr_rx_strq.cpp:478-516 | a returned stride is the last of its buffer exactly when the ring entry is complete and no other stride of it is out |
| StridePath.CompletionsTile | src/core/dev/cq_mgr_rx_strq.cpp:202-312 | completions whose stride counts sum to an entry tile it without gap or overlap, and only the last completes it |
| StridePath.CompletionsBounded | src/core/dev/hw_queue_rx.cpp:395-409 | completions that fit in n ring entries are at most strides times n |
| StridePath.PollKeeps | src/core/dev/cq_mgr_rx_strq.cpp:146-200 | one poll keeps the invariant, and ring entries plus debt drop by one exactly when it reports a completed entry |
| StridePath.PollHandsOut | src/core/dev/cq_mgr_rx_strq.cpp:146-200 | a completion without the filler mark hands out its strides, of the oldest entry from where consumption stands; a filler hands out nothing and its strides come off the count at once; the entry is complete when all its strides are consumed |
| StridePath.TurnsHandOut | src/core/dev/cq_mgr_rx_strq.cpp:428-456 | over the polling loop the upper layer is left, in order, with exactly the strides of the completions without the filler mark that it accepted, unless descriptors run out |
| StridePath.ReturnGoes | src/core/dev/cq_mgr_rx_strq.cpp:478-516 | a returned stride comes off its buffer's count; through the queue descriptor and last buffer go to its cache and pool, otherwise to the front of the global pools |
| StridePath.ChargeAdds | src/core/dev/cq_mgr_rx_strq.cpp:432-434 | charging a complete entry leaves a batch of debt only when no buffer is left |
| StridePath.StridePollPays | src/core/dev/cq_mgr_rx_strq.cpp:449-456 | a polling call that receives nothing pays its debt as far as buffers can be had |
| StridePath.CacheBounded | src/core/dev/cq_mgr_rx_strq.cpp:96-104 | the cache of descriptors never reaches two batches, and nothing leaves it before |
| StridePath.ReturnKeeps | src/core/dev/cq_mgr_rx_strq.cpp:478-516 | returning any outstanding stride, through the queue or the global pool, keeps the invariant |
| StridePath.HandOutKeeps | src/core/dev/cq_mgr_rx_strq.cpp:202-312 | handing out the strides of a completion keeps counts exact and strides apart |
| StridePath.HandOutApart | src/core/dev/cq_mgr_rx_strq.cpp:202-312 | the new stride overlaps no stride already out |
| StridePath.TurnKeeps | src/core/dev/cq_mgr_rx_strq.cpp:413-456 | one turn of the polling loop keeps the invariant |
| StridePath.WaitingBounded | src/core/dev/hw_queue_rx.cpp:395-409 | with the invariant the waiting completions fit in the completion queue as created |
| StridePath.FillCacheIs | src/core/dev/cq_mgr_rx_strq.cpp:44 | reserving one descriptor and giving it back leaves one whole batch in the cache |
| StrideReceive.BytesAreStrides | src/core/dev/cq_mgr_rx_strq.cpp:202-312 | counting consumed bytes and counting strides agree on when an entry is used up |
| StrideReceive.CqMgrRxStrq.constructor | src/core/dev/cq_mgr_rx_strq.cpp:31-45 | a striding manager with nothing consumed and the cache of descriptors filled, over a ring that may still be empty |
| StrideReceive.CqMgrRxStrq.AddRing | src/core/dev/cq_mgr_rx_strq.cpp:458-464 | bringing the ring up equals the specification's initial fill and keeps the invariant |
| StrideReceive.CqMgrRxStrq.HwCompleteStrides | src/core/dev/hw_queue_rx.cpp:395-409 | the hardware can report any strides that fit the posted entries without overrunning the completion queue |
| StrideReceive.CqMgrRxStrq.SetCurrentHotBuffer | src/core/dev/cq_mgr_rx_strq.cpp:131-144 | the oldest ring entry gets one reference per stride, once |
| StrideReceive.CqMgrRxStrq.NextStride | src/core/dev/cq_mgr_rx_strq.cpp:80-94 | a stride descriptor is reserved from the cache, restocked in batches |
| StrideReceive.CqMgrRxStrq.ReturnStride | src/core/dev/cq_mgr_rx_strq.cpp:96-104 | a descriptor returns to the cache and a surplus to the global pool |
| StrideReceive.CqMgrRxStrq.ReclaimStride | src/core/dev/cq_mgr_rx_strq.cpp:478-516 | equals the specification's return, including the one recycling of the buffer |
| StrideReceive.CqMgrRxStrq.PutStride | src/core/dev/buffer_pool.cpp:58-64 | a descriptor returned through the global pool becomes its head |
| StrideReceive.CqMgrRxStrq.DropStrides | src/core/dev/buffer_pool.cpp:51-56 | the returned strides come off the count of their buffer, which is recycled when they were the last |
| StrideReceive.CqMgrRxStrq.ApplyCompletion | src/core/dev/cq_mgr_rx_strq.cpp:202-312 | equals the specification's step for one completion; a filler's strides come back at once |
| StrideReceive.CqMgrRxStrq.PollStrides | src/core/dev/cq_mgr_rx_strq.cpp:146-200 | equals the specification's poll |
| StrideReceive.CqMgrRxStrq.PollAndProcessElementRx | src/core/dev/cq_mgr_rx_strq.cpp:413-456 | equals the specification's polling call: strides that wait go up first, and completions are polled unless the limit is reached |
| StrideReceive.CqMgrRxStrq.ProcessRecvQueue | src/core/dev/cq_mgr_rx_inl.h:31-46 | equals the specification's handing up of waiting strides |
| StrideReceive.CqMgrRxStrq.PollElements | src/core/dev/cq_mgr_rx_strq.cpp:428-456 | equals the specification's polling loop |
| StrideReceive.CqMgrRxStrq.DrainAndProcess | src/core/dev/cq_mgr_rx_strq.cpp:351-391 | equals the specification's drain |
| StrideReceive.CqMgrRxStrq.TakeDown | src/core/dev/cq_mgr_rx_strq.cpp:314-349 | equals the specification's emptying of a queue that goes down, cleaning or recycling |
| StrideReceive.CqMgrRxStrq.RunOps | src/core/dev/cq_mgr_rx_strq.cpp:80-516 | any sequence of completions, polls, drains, cleanups and returns on the real fields is a run of the specification, with all it keeps |
| CompletionQueue.OwnershipExact | src/core/dev/cq_mgr_rx.h:204-218 | while the device is at most one lap ahead, the test accepts an entry exactly when one is produced and unconsumed, and it is the oldest; across wraps of the 32-bit index |
| CompletionQueue.OverrunHidesEntry | src/core/dev/cq_mgr_rx.h:204-218 | once the device is more than one lap ahead the oldest entry is not accepted |
| CompletionQueue.IndexAcrossWrap | src/core/dev/cq_mgr_rx.h:204-218 | the masked 32-bit index gives the slot, and its next bit the lap parity, of the unbounded position |
| CompletionQueue.CompletionRing.Produce | src/core/dev/cq_mgr_rx.h:204-218 | the device appends an entry with the owner bit of its lap |
| CompletionQueue.CompletionRing.Check | src/core/dev/cq_mgr_rx.h:204-218 | returns the oldest unconsumed entry, or nothing exactly when there is none |
| CompletionQueue.CompletionRing.Advance | src/core/dev/cq_mgr_rx_regrq.cpp:79-97 | consumes one entry |
| CompletionQueue.CompletionRing.Drain | src/core/dev/cq_mgr_tx.h:95-124 | consumes ready entries in order up to and including the first with the top opcode bit, and returns the last |
| TransmitPath.CoalescingRefinesSingly | src/core/dev/cq_mgr_tx.cpp:202-296 | acting only on the last drained completion retires the same work requests, returns the same buffers and credits and leaves the same completions as acting on each; a failed one is never absorbed by a later one |
| TransmitPath.RunKeeps | src/core/dev/cq_mgr_tx.cpp:251-296 | over every run of posts, completions and polls: free credits plus credits in flight are constant, every buffer handed over is in flight or returned once, completions stay in order, and neither the ring nor a completion queue of that many entries is overrun |
| TransmitPath.SlotsDisjoint | src/core/dev/hw_queue_tx.h:106-173 | work requests in flight never share a ring block |
| TransmitPath.ReadyBounded | src/core/dev/hw_queue_tx.cpp:470-475 | completions waiting never exceed the credits, hence the completion queue as created |
| TransmitPath.SendKeeps | src/core/dev/hw_queue_tx.h:106-115 | posting within the credits keeps the invariant |
| TransmitPath.SendAllOrNone | src/core/dev/hw_queue_tx.h:108-115 | a work request is posted, and its buffer handed over, if and only if there are credits for all of it |
| TransmitPath.ActKeeps | src/core/dev/cq_mgr_tx.cpp:251-296 | retiring up to any waiting completion keeps the invariant |
| TransmitPath.AllReturned | src/core/dev/cq_mgr_tx.cpp:270-289 | with nothing in flight all credits are free and every buffer is back once |
| TransmitPath.DrainedStops | src/core/dev/cq_mgr_tx.h:95-124 | a poll steps over all completions before the first that stops it, and that one |
| TransmitPath.PollFlags | src/core/dev/cq_mgr_tx.cpp:217-223 | a poll flags exactly the buffers of the failed completions it takes |
| TransmitPath.RunFlags | src/core/dev/cq_mgr_tx.cpp:202-231 | over every run what is flagged, with what still waits, is in order the buffers of all failed completions the device reported: each is flagged once |
| TransmitQueue.HwQueueTx.constructor | src/core/dev/hw_queue_tx.cpp:405-456 | an empty queue with the smaller of ring size and requested size as credits |
| TransmitQueue.HwQueueTx.CreditsGet | src/core/dev/hw_queue_tx.h:108-115 | credits are taken all or none |
| TransmitQueue.HwQueueTx.CreditsReturn | src/core/dev/hw_queue_tx.h:106 | credits taken and not used are given back |
| TransmitQueue.HwQueueTx.RingDoorbell | src/core/dev/hw_queue_tx.cpp:477-515 | the 16-bit counter and its masked slot follow the unbounded position |
| TransmitQueue.HwQueueTx.SubmitWqe | src/core/dev/hw_queue_tx.cpp:790-819 | equals the specification's post: the work request is described in its slot and linked to the one before, and no description in flight is overwritten |
| TransmitQueue.HwQueueTx.WalkBack | src/core/dev/cq_mgr_tx.cpp:251-289 | following the links always reaches the stop slot, and visits exactly the work requests up to the completed one, newest first |
| TransmitQueue.HwQueueTx.HandleSqWqeProp | src/core/dev/cq_mgr_tx.cpp:251-296 | equals the specification's retirement; the stop slot becomes that of the oldest work request left |
| TransmitQueue.NextTail | src/core/dev/cq_mgr_tx.cpp:290-296 | the slot after the completed work request is that of the oldest one left, or of the next to post |
| TransmitQueue.TailSlot | src/core/dev/hw_queue_tx.h:240-250 | of the work requests in flight only the oldest is in the stop slot |
| TransmitQueue.CounterSlot | src/core/dev/cq_mgr_tx.cpp:215 | the 16-bit counter of a completion, masked, is the slot of its work request |
| TransmitQueue.CqMgrTx.HwComplete | src/core/dev/cq_mgr_tx.h:95-124 | the device can complete any later work request without overrunning the completion queue |
| TransmitQueue.CqMgrTx.PollAndProcessElementTx | src/core/dev/cq_mgr_tx.cpp:202-231 | equals the specification's coalesced poll; reports the number drained, and failure exactly when none was |
| TransmitQueue.CqMgrTx.Send | src/core/dev/hw_queue_tx.h:108-115 | a work request is posted exactly when there are credits for it |
| TransmitQueue.CqMgrTx.RunSteps | src/core/dev/cq_mgr_tx.cpp:202-296 | any sequence of posts, completions and polls on the real fields is a run of the specification, with all it keeps |
| TransmitCredits.ChargeCoversBlocks | src/core/dev/hw_queue_tx.h:117-173 | for every packet and every place in the ring the charge covers the blocks that the finished work request declares if and only if it is segmentation offload, gathered, or its header part saves enough; without empty later pieces the first piece alone decides |
| TransmitCredits.ChargeCoversExtent | src/core/dev/hw_queue_tx.cpp:535-644 | for every packet and every place in the ring the charge covers the ring blocks that building it writes to if and only if it is covered; these are never fewer than it declares, and the same without empty later pieces |
| TransmitCredits.ReachIs | src/core/dev/hw_queue_tx.cpp:588-621 | the last unit written by an inlined copy, split or not, is that of one copy that fills all the room before the end |
| TransmitCredits.CreditsCalculate | src/core/dev/hw_queue_tx.h:117-173 | the computed charge is the formula of the total length, for one piece or several |
| TransmitCredits.ChargeIsTight | src/core/dev/hw_queue_tx.h:117-173 | the charge is at most one block too much for a packet whose pieces all have bytes, and exact for a single piece that is not inlined |
| TransmitCredits.NonEmptyCounts | src/core/dev/hw_queue_tx.cpp:663-681 | a unit is counted for every piece that has bytes and for no other |
| TransmitCredits.SplitInline | src/core/dev/hw_queue_tx.cpp:588-621 | inlined data split by the end of the ring takes as many units as unsplit data longer by the gap in the first part |
| TransmitCredits.SplitHeader | src/core/dev/hw_queue_tx.cpp:714-733 | a segmentation header split by the end of the ring takes as many units as unsplit |
| TransmitCredits.CopyTakes | src/core/dev/hw_queue_tx.cpp:517-532 | the inline copy takes the bytes in front of the first empty piece, up to its limit, and what it leaves is the rest |
| TransmitCredits.FullSavesHeader | src/core/dev/hw_queue_tx.cpp:535-644 | without empty later pieces every byte behind the header is copied, wherever the ring ends, and a split leaves no gap |
| TransmitCredits.InlineUnits | src/core/dev/hw_queue_tx.cpp:535-644 | the units of an inlined packet, split or not, are those of its length less what its header part saves |
| TransmitCredits.ShortFirstPiece | src/core/dev/hw_queue_tx.h:117-173 | fourteen bytes in pieces of one and thirteen are charged one block and take two, anywhere in the ring |
| TransmitCredits.EmptyPieceTruncates | src/core/dev/hw_queue_tx.cpp:517-532 | a packet with an empty second piece is sent without the thirteen bytes behind it |
| TransmitCredits.EmptyPieceAtTheEnd | src/core/dev/hw_queue_tx.cpp:588-621 | a packet with a full header and an empty piece, split by the end of the ring, is charged three blocks and takes four |
| TransmitCredits.EmptyPieceOverruns | src/core/dev/hw_queue_tx.cpp:588-621 | a packet of 204 bytes with an empty second piece, three blocks before the end of the ring, is charged four blocks, declares four and writes to six |
| SendBuild.SgArray.GetData | src/core/util/sg_array.h:51-77 | the cursor answers with at most the rest of the current piece, passes a piece that is used up or empty, and finds nothing at the end |
| SendBuild.SgArray.FillInlSegment | src/core/dev/hw_queue_tx.cpp:517-532 | equals the specification's copy, piece by piece until an answer is empty |
| SendBuild.InlineData | src/core/dev/hw_queue_tx.cpp:535-644 | the bytes copied before and after the end of the ring |
| SendBuild.FillWqeSend | src/core/dev/hw_queue_tx.cpp:646-682 | control, Ethernet and one unit for every piece that is not empty |
| SendBuild.FillWqeLso | src/core/dev/hw_queue_tx.cpp:685-754 | control, the header in one part or two, and one unit per piece |
| SendBuild.FillWqe | src/core/dev/hw_queue_tx.cpp:535-644 | the size in blocks is that of the specification, for every packet and place in the ring |
| TransmitSafety.ChargedSendKeeps | src/core/dev/hw_queue_tx.h:117-173 | a covered packet, built where the next work request goes and charged by the formula, keeps the send queue sound and is written over no work request in flight |
| TransmitSafety.PacketRunKeeps | src/core/dev/hw_queue_tx.h:106-173 | over every run of covered packets, completions and polls: the send queue stays sound, no packet is written over a work request in flight, and no two of these share a block of the ring |
| TransmitSafety.WellFormedCovered | src/core/dev/hw_queue_tx.h:117-173 | a packet without empty later pieces whose header suffices is covered wherever it is built |
| TransmitSafety.OverrunOverwrites | src/core/dev/hw_queue_tx.cpp:588-621 | a packet that is charged four blocks and writes to six is accepted and written over a work request in flight |
| TransmitSafety.UnderchargedOverlap | src/core/dev/hw_queue_tx.h:117-173 | two work requests charged one block each that take two are accepted and share a ring block |
| TransmitSafety.ShortFirstPieceUndercharged | src/core/dev/hw_queue_tx.h:117-173 | a packet of fourteen bytes in pieces of one and thirteen is posted that way, wherever it is built |
| DeviceSend.RunKeeps | src/core/dev/cq_mgr_tx.cpp:251-296 | over every run of posts of packets with any number of pieces, transmissions, completions, polls and harmless early returns, the invariants of send queue and device memory hold together: no release frees memory that is still to be sent; the memory lost is what packets waste, none exactly when no packet has a piece copied before its last one, and all that is in use once nothing is in flight |
| DeviceSend.RunDisjoint | src/core/dev/hw_queue_tx.cpp:646-682 | in every state of every such run no two pieces that are still to be sent share a byte, so no copy lands on one |
| DeviceSend.RunInUse | src/core/dev/cq_mgr_tx.cpp:251-296 | in runs where only polls give buffers back every live piece, sent or not, stays in use and shares no byte with another |
| DeviceSend.GiveBackKeeps | src/core/dev/ring_simple.cpp:841-845 | giving a buffer back before its completion is polled keeps both invariants if and only if the buffer remembers no more of what is still to be sent than there is slack |
| DeviceSend.SentHarmless | src/core/sock/sockinfo_tcp.cpp:5762-5769 | that holds of every buffer whose packet was sent, as acknowledged data is, and of every buffer without device memory |
| DeviceSend.PollKeeps | src/core/dev/cq_mgr_tx.cpp:251-296 | a poll keeps both invariants, also when some of its buffers came back before |
| DeviceSend.WastedNothing | src/core/dev/hw_queue_tx.cpp:663-681 | copying the pieces of a packet wastes nothing if and only if none but the last fits in the memory as it is before the packet |
| DeviceSend.CopyAllKeeps | src/core/dev/hw_queue_tx.cpp:663-681 | copying the pieces of a packet keeps the pieces well placed and what is to be sent safe, and loses exactly what it wastes |
| DeviceSend.OnePieceFrugal | src/core/dev/hw_queue_tx.cpp:663-681 | a packet with one piece of data wastes none |
| DeviceSend.TwoPiecesWaste | src/core/dev/hw_queue_tx.cpp:663-681 | a packet of two pieces of eight bytes wastes the first of them in an idle memory |
| DeviceSend.Start | src/core/dev/dm_mgr.cpp:40-96 | an empty queue with an empty memory meets the invariants and has lost nothing |
| DeviceSend.ReturnsBatch | src/core/dev/cq_mgr_tx.cpp:270-289 | the buffers one poll returns, newest first, are always exactly those of the oldest live pieces |
| DeviceSend.PollReturns | src/core/dev/cq_mgr_tx.cpp:270-289 | a poll returns the buffers of the work requests it retires, newest first, and retires the oldest |
| DeviceSend.InUse | src/core/dev/dm_mgr.cpp:244-251 | once nothing is in flight no piece is live, and what is in use is what was lost |
| DeviceMemory.RunKeeps | src/core/dev/dm_mgr.cpp:173-251 | over every run of copies, for any buffers, and of returns of oldest-first batches in any order inside: the invariant holds, the memory lost is what copies made buffers forget, and none is lost if and only if every copy found its buffer empty |
| DeviceMemory.PieceInside | src/core/dev/dm_mgr.cpp:173-238 | every live piece is contiguous, 8-byte aligned and inside the memory |
| DeviceMemory.PiecesDisjoint | src/core/dev/dm_mgr.cpp:173-238 | no two live pieces share a byte |
| DeviceMemory.UnsentDisjoint | src/core/dev/dm_mgr.cpp:173-238 | when the oldest pieces were sent and may be overwritten, no two of the others share a byte |
| DeviceMemory.UsedAndTail | src/core/dev/dm_mgr.cpp:125-172 | the oldest live byte is as far behind the head as there are live bytes with their padding; it is at head minus used, modulo the size, if and only if nothing has leaked |
| DeviceMemory.TakenIs | src/core/dev/dm_mgr.cpp:125-172 | which addresses are taken, in terms of head and used alone |
| DeviceMemory.RefusalExact | src/core/dev/dm_mgr.cpp:181-200 | while something is in use a request is refused if and only if no free contiguous run can hold it |
| DeviceMemory.IdleRefusal | src/core/dev/dm_mgr.cpp:181-200 | with nothing in use, exactly which requests are refused though they fit |
| DeviceMemory.HalfWrittenRefuses | src/core/dev/dm_mgr.cpp:181-200 | a memory of 64 bytes written up to the middle, with nothing in use, refuses 40 |
| DeviceMemory.AlignedCovers | src/core/dev/dm_mgr.cpp:177 | rounding up to eight in 32 bits covers the length if and only if it does not wrap |
| DeviceMemory.CopyKeeps | src/core/dev/dm_mgr.cpp:173-238 | any copy, granted or refused, keeps the invariant and loses exactly what its buffer remembered |
| DeviceMemory.BatchKeeps | src/core/dev/dm_mgr.cpp:244-251 | returning the oldest pieces in any order, repeated or mixed with buffers that hold nothing, keeps the invariant; exactly the pieces that no buffer remembered leak |
| DeviceMemory.GiveBackExact | src/core/dev/ring_simple.cpp:841-845 | one release in any order keeps what is still to be sent safe if and only if the slack covers what the buffer remembers of it; nothing is lost by it |
| DeviceMemory.DropExact | src/core/dev/dm_mgr.cpp:244-251 | one release keeps every live piece in use if and only if the buffer holds nothing or its pieces are the oldest |
| DeviceMemory.SafeCopy | src/core/dev/dm_mgr.cpp:173-238 | no copy makes what is still to be sent unsafe |
| DeviceMemory.SafeBatch | src/core/dev/dm_mgr.cpp:244-251 | nor does returning a batch of pieces that were sent |
| DeviceMemory.LeakExact | src/core/dev/dm_mgr.cpp:179 | after a copy and the return of every buffer, what remains in use is what was lost before and what the buffer held before the copy |
| DeviceMemory.RewriteLeaks | src/core/dev/dm_mgr.cpp:179 | a second copy for a buffer with 24 bytes leaves 24 bytes in use for good |
| DeviceMemory.FailedCopyKeeps | src/core/dev/dm_mgr.cpp:206-210 | a copy that the device fails keeps the invariant if and only if it did not skip the end of the memory |
| DeviceMemory.FailedCopyBreaks | src/core/dev/dm_mgr.cpp:206-210 | a failed copy of 24 bytes that skipped the end: returning its buffer makes the amount in use wrap, or lets a later copy be granted over a live piece |
| DeviceMemory.OutOfOrderOverlaps | src/core/dev/dm_mgr.cpp:173-251 | releasing a newer piece first, with the older one still to be sent, lets a later copy land on it |
| DeviceMemory.DmMgr.constructor | src/core/dev/dm_mgr.cpp:40-96 | the requested size rounded up to 64, all of it free |
| DeviceMemory.DmMgr.CopyData | src/core/dev/dm_mgr.cpp:173-238 | equals the specification's copy, or its failed copy when the device fails, and returns the address of the new piece exactly when there is one |
| DeviceMemory.DmMgr.ReleaseData | src/core/dev/dm_mgr.cpp:244-251 | equals the specification's release, in 64-bit unsigned arithmetic |
| DeviceMemory.DmMgr.PutTxBuffer | src/core/dev/ring_simple.cpp:841-845 | only a buffer that holds device memory releases it |
| DeviceMemory.DmMgr.ReturnEarly | src/core/dev/ring_simple.cpp:841-845 | equals the specification's early release |
| DeviceMemory.DmMgr.PutBuffers | src/core/dev/ring_simple.cpp:841-845 | returning a batch buffer by buffer equals the specification's batch and keeps the invariant |
| DeviceMemory.DmMgr.RunSteps | src/core/dev/dm_mgr.cpp:173-251 | any sequence of copies and batch returns on the real fields is a run of the specification, and loses memory exactly when a copy finds its buffer not empty |
| Heap.RunKeeps | src/core/dev/allocator.cpp:516-537 | over every run of requests everything handed out is pairwise disjoint, inside its block and a whole number of pages, if and only if no request makes the test for room wrap |
| Heap.RoundUpIs | src/core/dev/allocator.cpp:520 | rounding by mask yields whole pages, covering the size if and only if the sum does not wrap |
| Heap.FitsExact | src/core/dev/allocator.cpp:524-526 | what the 64-bit test grants lies inside the block if and only if the sum does not wrap |
| Heap.WrapGrants | src/core/dev/allocator.cpp:524-526 | a block of 32 bytes grants almost all of the address space |
| Heap.AllocKeeps | src/core/dev/allocator.cpp:516-537 | one request keeps the invariant, with or without a new block, if and only if the test for room does not wrap |
| Heap.AllocGrants | src/core/dev/allocator.cpp:516-537 | memory comes from the newest block when it fits, otherwise from a new block if the heap may grow, otherwise nothing changes |
| Heap.XlioHeap.constructor | src/core/dev/allocator.cpp:453-462 | one block, nothing handed out |
| Heap.XlioHeap.AddBlock | src/core/dev/allocator.cpp:472-514 | a new block is taken on exactly when the system gave one |
| Heap.XlioHeap.Allocate | src/core/dev/allocator.cpp:516-537 | equals the specification's request and keeps the invariant if and only if the test for room does not wrap; the loop adds at most one block |
| BufferPool.Pool.constructor | src/core/dev/buffer_pool.cpp:125-135 | an empty pool over its heaps, one heap for a pool of descriptors without data |
| BufferPool.Pool.PutBuffer | src/core/dev/buffer_pool.cpp:58-64 | a buffer becomes the head of the list |
| BufferPool.Pool.PutList | src/core/dev/buffer_pool.cpp:395-409 | a linked list of buffers is returned in reverse to the front of the free list; other links are untouched and the count never exceeds the buffers created |
| BufferPool.Pool.PutVector | src/core/dev/buffer_pool.cpp:411-422 | an array is returned to the front in its own order |
| BufferPool.Pool.PutQueue | src/core/dev/buffer_pool.cpp:436-453 | the last entries of a queue are returned with what is linked to them, and the rest stays queued |
| BufferPool.Pool.NeverTooMany | src/core/dev/buffer_pool.cpp:405-408 | the list never holds more buffers than were created, so the panic is unreachable |
| BufferPool.Pool.Pop | src/core/dev/buffer_pool.cpp:249-265 | the first `count` buffers are taken, in order |
| BufferPool.Pool.Fill | src/core/dev/buffer_pool.cpp:93-104 | allocated memory becomes that many new free buffers whose descriptors and data are apart from all others |
| BufferPool.Pool.Expand | src/core/dev/buffer_pool.cpp:67-108 | at least `count` buffers are added in front, or the list is unchanged; descriptors and data of all buffers stay pairwise disjoint |
| BufferPool.Pool.GetBuffers | src/core/dev/buffer_pool.cpp:226-268 | exactly `count` buffers or none; none exactly when too few were free and the pool cannot or could not grow, so a successful expansion is never followed by a refusal |
| CycleFinding.IsCircle | src/core/dev/buffer_pool.cpp:286-303 | terminates on every finite structure, and is true if and only if following the links never ends |
| CycleFinding.EndlessIsRho | src/core/dev/buffer_pool.cpp:286-303 | a walk never ends if and only if it runs into a cycle |
| CycleFinding.FloydCircleInfo | src/core/dev/buffer_pool.cpp:315-364 | reports the first index of the cycle and its length; exactly when each is right, given the limit |
| CycleFinding.RhoLeast | src/core/dev/buffer_pool.cpp:315-364 | no node before that index is met again, and none is met again sooner than after that length |
| CycleFinding.RhoUnique | src/core/dev/buffer_pool.cpp:315-364 | index and length are determined by the structure |
| CycleFinding.Meet | src/core/dev/buffer_pool.cpp:320-325 | the walkers meet at a node that is as far from the start as it is ahead of itself |
| CycleFinding.FindStart | src/core/dev/buffer_pool.cpp:338-351 | walking in step finds the first node of the cycle, up to the limit |
| CycleFinding.FindLength | src/core/dev/buffer_pool.cpp:353-363 | once round gives the length, up to the limit; from a node before the cycle only the limit stops it |
| RecursiveLock.RunRefines | src/utils/lock_wrapper.h:216-275 | every interleaving of any threads' reads and writes is a run of an atomic recursive lock, with the same results |
| RecursiveLock.RunExcludes | src/utils/lock_wrapper.h:323-382 | in every reachable state at most one thread is inside, the owner field names a thread only while it holds the inner lock, an idle thread's nesting depth is the count or zero, and no thread waits for a lock it holds |
| RecursiveLock.NextKeeps | src/utils/lock_wrapper.h:226-275 | every single read or write keeps the invariant |
| RecursiveLock.NextRefines | src/utils/lock_wrapper.h:226-275 | every single step changes the atomic lock as its effect says, or not at all; a try fails only while another thread holds the lock, and the query answers the caller's depth |
| RecursiveLock.OneEffect | src/utils/lock_wrapper.h:226-275 | every call takes effect exactly once between its start and its return |
| RecursiveLock.RunHonest | src/utils/lock_wrapper.h:226-275 | in every run a call takes only an effect that it asks for: lock enters or nests and never fails, trylock may also fail and never waits, unlock leaves, the query answers; only lock waits, only while another thread has the inner lock, and it returns only with the lock held |
| RecursiveLock.FreshHonest | src/utils/lock_wrapper.h:323-382 | that holds of every run from a new lock, whatever the threads call |
| RecursiveLock.MutualExclusion | src/utils/lock_wrapper.h:323-382 | what the invariant says about owner, count and depth |
| RecursiveLock.FreshInv | src/utils/lock_wrapper.h:219-224 | a new lock is free, for any set of threads |
| StateTable.AcceptedExact | src/state_machine/sm.cpp:109-176 | the lines in force are exactly those before the end mark or the first unacceptable line |
| StateTable.LinesInForce | src/state_machine/sm.cpp:119-160 | a line is in force if and only if it names a state and is for entering or leaving it, or names an event and target in range that no earlier line gave an action of its own |
| StateTable.NoSilentReuse | src/state_machine/sm.cpp:154-160 | a later line for the same state and event is accepted only over the default action |
| StateTable.Table.constructor | src/state_machine/sm.cpp:88-107 | the table of defaults |
| StateTable.Table.Check | src/state_machine/sm.cpp:119-160 | the checks on a line, made on the table, are those of the short table read so far |
| StateTable.Table.Apply | src/state_machine/sm.cpp:128-170 | one line changes exactly its entry |
| StateTable.Table.ProcessSparseTable | src/state_machine/sm.cpp:77-181 | every entry of the table is the last line in force for it, or the default; success exactly when the end mark was reached |
| StateMachine.Sm.ProcessEvent | src/state_machine/sm.cpp:208-259 | the outermost call runs the same callbacks and ends in the same state as the reference interpreter, with an empty queue and a clear flag; a call from a callback only queues the event |
| StateMachine.Sm.Invoke | src/state_machine/sm.cpp:183-194 | a callback that posts events starts no other callback and leaves the information unchanged |
| StateMachine.Sm.RunCallbacks | src/state_machine/sm.cpp:222-252 | leave, action and entry callbacks run in order, all with the same information |
| StateMachine.Sm.UnlockInProcess | src/state_machine/sm.cpp:196-206 | goes on with the events that wait, as the interpreter does |
| StateMachine.Sm.constructor | src/state_machine/sm.cpp:29-61 | an idle machine in its start state |
| StateMachine.HandledInOrder | src/state_machine/sm_fifo.cpp:14-34 | every event, given or posted, is handled exactly once, in the order of posting |
| StateMachine.CallsExact | src/state_machine/sm.cpp:228-251 | the callbacks of an event come in the order notify, leave, action, entry, at most one of each; leave and entry exactly when the last line for the event leads to another state and with that state's callbacks, the action of that line; and that line decides the state afterwards |
| StateMachine.UnknownIgnored | src/state_machine/sm.cpp:216-220 | an event out of range runs nothing and changes nothing |
| StateMachine.InterpretReplays | src/state_machine/sm.cpp:208-259 | however events are posted, each is handled completely before the next: trace and state are those of the handled events one after the other |
| HashTable.Execute | tools/daemon/hash.c:104-218 | any sequence of put, get and delete answers and leaves behind what a plain map of limited size does |
| HashTable.Table.constructor | tools/daemon/hash.c:39-68 | an empty table |
| HashTable.Table.Find | tools/daemon/hash.c:188-218 | the shortcut and the full probe agree: the slot of the key, or a free one, and none only when there is none |
| HashTable.Table.Get | tools/daemon/hash.c:104-116 | the record of the key, or null exactly when it has none |
| HashTable.Table.Put | tools/daemon/hash.c:132-155 | stores unless full, frees the record it replaces; the marker key is counted, not stored, and breaks the table |
| HashTable.Table.Del | tools/daemon/hash.c:157-173 | removes exactly the key and frees its record once; every other key is still found; the marker key is never taken off the count |
| HashTable.Table.Destroy | tools/daemon/hash.c:70-92 | every stored record is freed once, in slot order |
| HashTable.Table.Scan | tools/daemon/notify.c:289-295 | the scan that stops early sees every stored record exactly once |
| HashTable.Table.Counted | tools/daemon/hash.c:94-102 | the count is the size of the map and never exceeds the slots |
| HashTable.MarkerExhausts | tools/daemon/hash.c:132-173 | storing and removing the marker key as often as there are slots leaves an empty table that refuses every key |
| HashTable.RecordsAre | tools/daemon/hash.c:70-92 | the records met slot by slot are the values of the map, each once |
| HashTable.HoldsDel | tools/daemon/hash.c:157-173 | emptying a slot without a mark removes exactly its key |
| HashTable.HoldsPut | tools/daemon/hash.c:132-155 | filling a free slot, or the slot of the key, maps exactly that key |
| DaemonStore.RunRefines | tools/daemon/message.c:151-324 | after any messages and cleanups with storable keys the two levels of tables equal the messages folded over a plain map of maps, and every record ever allocated is reachable or was freed exactly once |
| DaemonStore.StepKeeps | tools/daemon/message.c:151-324 | the same for one message |
| DaemonStore.InitKeeps | tools/daemon/message.c:151-211 | a new process replaces the one with its number, unless the table is full |
| DaemonStore.StateKeeps | tools/daemon/message.c:238-324 | a socket update replaces or forgets one socket, is ignored for an unknown process, and refused when the table is full |
| DaemonStore.StateSays | tools/daemon/message.c:271-316 | a message to a known process with state 0 of a stream forgets the socket; any other records it as it says if there is room; nothing else changes |
| DaemonStore.RecordedIsLast | tools/daemon/message.c:151-324 | while the tables cannot fill up, after any messages a socket is recorded if and only if the last message that concerns it is about it and not a closed stream, and as that message says; a process if and only if its last start or end is a start |
| DaemonStore.RecordedWasSaid | tools/daemon/message.c:151-324 | whatever the tables refuse, a recorded socket comes from a message about it that no later one takes back, and is never a closed stream |
| DaemonStore.ExitKeeps | tools/daemon/message.c:213-236 | removing a process removes it and its sockets, and nothing else |
| DaemonStore.AllFreed | tools/daemon/store.c:31-45 | a store without processes has freed everything, once |
| DaemonMessages.Daemon.constructor | tools/daemon/store.c:24-29 | an empty hash table of processes |
| DaemonMessages.PutIn | tools/daemon/hash.c:132-155 | a put into either table: refused when full, else the map is updated and the replaced record reported; the marker key breaks the table |
| DaemonMessages.DestroyTable | tools/daemon/hash.c:70-92 | the records that destroying a table of sockets frees are those it held, each once |
| DaemonMessages.Daemon.FreeStorePid | tools/daemon/store.c:36-45 | destroying the hash table in a process record and freeing the record equals the specification's freeing of a process with its sockets |
| DaemonMessages.Daemon.PutSock | tools/daemon/message.c:311-316 | a put into the hash table of one process changes no other table; the marker key raises its count and fills no slot |
| DaemonMessages.Daemon.ProcMsgInit | tools/daemon/message.c:151-211 | on the two levels of hash tables, equals the specification's step and the folded map; refused exactly when the table is full; leaves the store sound if and only if it is refused or the number is not the marker key |
| DaemonMessages.Daemon.ProcMsgExit | tools/daemon/message.c:213-236 | removes exactly the process from the hash table, and frees its record and its sockets' |
| DaemonMessages.Daemon.ProcMsgState | tools/daemon/message.c:238-324 | equals the specification's step and the folded map; refused exactly when the process's hash table is full; leaves the store sound if and only if nothing is stored under the marker key, and otherwise the count of that table is one higher and its keys are the same |
| DaemonMessages.Daemon.CleanProcess | tools/daemon/notify.c:271-343 | the scan of the process's hash table resets every established socket of it exactly once and no other, and the process is then removed |
| DaemonMessages.Daemon.RunMessages | tools/daemon/message.c:91-149 | any messages with storable keys, handled one by one on the hash tables, leave what the messages folded over a plain map say |
| Checksum.CsumExact | tools/daemon/notify.c:370-392 | for every input up to 131076 bytes the result is the complement of the one's complement sum of sections 1 and 2 of RFC 1071 |
| Checksum.CsumWrong | tools/daemon/notify.c:370-392 | for every longer length there is an input for which it is not |
| Checksum.FoldExact | tools/daemon/notify.c:387-388 | two folds are exact unless the first leaves seventeen bits all set |
| Checksum.OnesSumIsNorm | tools/daemon/notify.c:376-386 | end-around addition of words is the plain sum reduced once |
| Checksum.StoredVerifies | tools/daemon/notify.c:553-564 | storing the checksum in its zeroed field makes the whole verify |
| Checksum.OrderIrrelevant | tools/daemon/notify.c:553-564 | inputs with the same words in any order have the same checksum, so the half of the length field that is filled does not matter (section 8.1 of RFC 8200) |
| Checksum.ByteOrderIrrelevant | tools/daemon/notify.c:370-392 | reading memory in the other byte order swaps the result's bytes, so memory ends up the same |
| Checksum.CalcCsum | tools/daemon/notify.c:370-392 | the loop computes the twice folded, complemented sum, with a last odd byte padded |

## Left out

- Verbs and DPCP calls, mmap, doorbell registers, memory barriers, prefetch: the device is an abstract one that completes posted work requests in order.
- Striding error completions in the middle of an entry, and RESP_WR_IMM: their accounting rests on device guarantees that are not in the source.
- DeviceSend.RunKeeps: a buffer is not posted again while it is in flight, because a retransmission gets a descriptor of its own (src/core/proto/dst_entry_tcp.cpp:151-173); the device is taken to send in posting order; reference counts of sent buffers are not kept.
- Up, down and re-up of hardware queues: one session from an empty ring is modelled; add_hqrx resets one counter and prepare_rq the others.
- StrideReceive.CqMgrRxStrq.NextStride: the source stops the process when the global pool of stride descriptors refuses; here the poll then does nothing.
- StrideReceive.CqMgrRxStrq.RunOps: handing TCP to the upper layer through GRO is left out.
- StrideReceive.CqMgrRxStrq.AddRing: asks for no reserved descriptor, as before the first fill; the source forgets one that is reserved.
- BufferPool.Pool.constructor: the first expansion is a later call of Expand.
- GRO, TLS, LRO header rewriting and the callbacks of transport interfaces (ti) on the send path.
- Daemon sockets, packet exchange, file notification; datagrams with several messages.
- Statistics counters and logging everywhere.
- hash_create's prime test (table sizes are taken to pass it), and the allocation failures in the daemon, which leave the store unchanged.
- DaemonStore.RunRefines: messages that store under 0xFFFFFFFF are excluded; DaemonMessages says of each message when it does that and what the table does then, and HashTable.MarkerExhausts where it leads.
- DaemonMessages.Daemon.FreeStorePid: a table reports what it gives to its free function, and that function runs right after the call instead of inside it; it touches no table that the call is working on.
- ReceiveManager.CqMgrRx.GetBuffers: the growth of the global pool is a parameter, so its degraded flag is not kept here; BufferPool proves where new buffers come from and when growth stops.
- RegularReceive.CqMgrRxRegrq.PollAndProcessElementRx: the batch limit is at least one; what the upper layer accepts is a parameter.
- ReceiveManager.CqMgrRx.AddHqrx: after a refused fill the ring stays short and no debt is entered, as in the source; no later top-up is claimed.
- TransmitQueue.CqMgrTx.HwComplete: a failed completion is reported only for a work request that holds a buffer; the source dereferences it without a test.
- TransmitCredits.ChargeCoversBlocks: lengths are taken to sum below 2^32.
- BufferPool.Pool.Expand: products of counts and sizes, and the heap's sums, are taken not to wrap in 64 bits; reference counts of strides returned here are modelled in StrideReceive.
- RecursiveLock.RunRefines: the nesting count is unbounded; reads and writes are atomic and sequentially consistent; the inner lock does not fail.
- HashTable.Execute: puts under the marker key are excluded; Table.Put and MarkerExhausts say what they do.
- StateMachine.Sm.ProcessEvent: requires that no event id equals the number of events, which the source's range check lets through to a read past the table, and that targets of lines are states or stay.
- HashTable.Table.Scan: requires that stored records are not null, as the daemon's never are.
- Checksum.CalcCsum: memory is read as on a little-endian machine; ByteOrderIrrelevant covers the other order.
