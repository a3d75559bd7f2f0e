# VampirTrace runtime: models and proofs

VampirTrace's run-time library records what a parallel program does. Most of it wraps other
libraries; inside are a few stateful algorithms whose correctness is a matter of whole runs. This
project models these algorithms in Dafny and proves what they are for.

* **Trace buffer** (`TraceRecords`, `TraceLog`, `TraceRuns`, `TraceTimes`, `TraceContents`, `MemMove`,
  `TraceBuffer`).
  `TraceBuffer` is the buffer itself: typed, length-prefixed, word-aligned records as bytes in one
  array, replayed to the stream by a loop whose end moves, and compacted in place by a rewind.
  Each of its methods is proved to take one step of `TraceLog`, which knows no memory. `TraceRuns`
  relates whole runs of these steps to a log without buffer, flushes or marks, and `TraceContents` says
  what each call writes in the numbers of the byte format.
* **Clock synchronization** (`SyncRounds`, `ClockSync`, `SyncProtocol`). The pairing of processes in
  each round, what one process measures and saves, and n processes running their ping-pongs at
  their own speed over first-in first-out channels (section 3.5 of MPI-2.2).
* **Statistics** (`CallTree`, `CallProfile`, `GroupBy`, `MessageStats`). The online profile against
  the tree of timed calls, and the message statistics against a group-by, both with their hash tables.
* **MPI requests and windows** (`RequestLife`, `RequestTable`, `WindowTable`). The linked blocks of
  request slots with swap-with-last deletion, against the life of each request on its own
  (sections 3.7.3 and 3.9 of MPI-2.2), and the slot allocator for RMA windows.
* **CUDA tasks** (`CudaConversion`, `CudaSerial`, `CudaDevice`). The asynchronous entry buffer, its event
  pool, and the conversion of device times when it is flushed.
* **Region filter** (`CallLimits`, `Regions`, `FilterSyntax`, `FilterFile`). Call limits with the stack
  that remembers them, and the hand-written parser of rank-specific filter files.

Where the source updates state in place the model is a class or a method with loops, proved against
functions; the whole-run theorems are about these functions. `hide` statements only keep definitions
away from proofs that do not need them.

Places where the code does not do what its own notes or documentation say; the code is followed:

* `VTGen_open` means to set two flush marks aside, but the alignment macro has no outer parentheses, so
  the factor 2 lands in its condition and one mark is set aside. `RunStaysInside` gives the exact
  condition under which a run stays in its allocation, and `TwoMarksSuffice` shows the intended reserve is
  enough. By `EventFlushOverruns` every flush forced by an enter or leave event overruns as long as another
  one is permitted; `OneMarkIsNotEnough` is a run of enter events that does, for every buffer size.
* A definition that does not fit once the last permitted flush is used up is written past the end of the
  buffer; `DefStaysInsideIffRoom` says exactly when.
* On a device without concurrent kernels, kernels that ran one after the other on different streams can be
  written with a start behind their stop, since each stream loses fractions of ticks on its own and
  starts before the last synchronous call are moved (`LostTicksGoWrong`, with a concrete flush). By
  `AlwaysWellIff` a buffer is safe from this, whenever its tasks run, iff the device is concurrent or
  all its kernels use one stream.
* A CUDA flush that cannot synchronize resets nothing, and the next entry may then lie behind the buffer
  (`AddMemcpy`, `Configure`); so may a kernel when a copy is buffered between the two parts of its call
  (`CopyInBetween` says exactly when).
* `MPI_Request_free` leaves an entry behind on a request still in use: on a non-persistent one it does
  nothing (`FreedReceiveStays`), and the mark it sets on an active persistent one only takes effect in a wait
  or test, in which section 3.7.3 of MPI-2.2 does not let the user name it (`FreedActiveStays`). When
  MPI hands out the handle again, the old entry is found. By `AgreesIffNothingUnseen` nothing else spoils a
  handle, and no handle but the one released is spoiled; `CreateVisible` says when a request is found.
* `vt_trace_on` compares the height of the call stack with that at `vt_trace_off` only. If regions were left
  and others entered in between, the trace does not nest (`SameLevelIsNotEnough`); it does if what is
  entered without tracing is left without (`RecordedIsNestedWhenSwitched`).
* A rank range whose ends are out of order selects its first rank (`RangeIsInterval`).
* A file operation refused at the flush limit leaves its end time reduced to the duration
  (`WriteFileOperation`).

## Model

| member | source | states |
|---|---|---|
| TraceRecords.AlignLengthIsLeast | vtlib/vt_otf_gen.c:53-55 | the aligned length is the least multiple of the word size not below the length |
| TraceRecords.DecodeEncode | vtlib/vt_otf_gen.c:139-143 | type, length and content of a record are read back from any memory that starts with it |
| TraceRecords.ParseEncodeAll | vtlib/vt_otf_gen.c:729-735 | walking a packed buffer by the lengths it contains recovers exactly the records written |
| TraceRecords.EncodeAllAligned | vtlib/vt_otf_gen.c:53-58 | records end on word boundaries |
| TraceContents.RecordLayout | vtlib/vt_otf_gen.c:139-143 | type, length and time stamp stand in the first words of a record, its content behind them |
| TraceContents.FlushWrites | vtlib/vt_otf_gen.c:2448-2491 | an effective flush writes the contents and, with tracing on, an enter of kind 12 that names the flush region at its begin, and a leave of kind 13 at its end if another flush is permitted |
| TraceContents.FlushLeaves | vtlib/vt_otf_gen.c:1305-1315 | after the last permitted flush the buffer holds the limit notice, behind an enter that names the region for tracing switched off if tracing was on |
| TraceContents.EventWrites | vtlib/vt_otf_gen.c:1856-1946 | an event is written with its own kind and content, and with its own time or, when it had to flush, the end of the flush, an end time moved by as much |
| TraceContents.DefWrites | vtlib/vt_otf_gen.c:1540-1560 | a definition is written as it is, behind what was there or what a flush has left |
| TraceContents.RewindFilters | vtlib/vt_otf_gen.c:2640-2670 | a rewind keeps a record behind the mark iff it is a definition |
| TraceContents.MeaningOfWrites | vtlib/vt_otf_gen.c:41-51 | what each call puts into the unbounded log, record by record |
| TraceLog.StepInv | vtlib/vt_otf_gen.c:41-51 | every call keeps the fill level within the usable size and the rewind mark on a record |
| TraceLog.DefStaysInsideIffRoom | vtlib/vt_otf_gen.c:41-44 | a definition stays within the usable size iff it fits, another flush is permitted, or the last one leaves room behind its notice and the enter record of switching tracing off |
| TraceRuns.RunIsIdeal | vtlib/vt_otf_gen.c:615-1322 | over any run of writes, flushes, marks, rewinds and close, stream and buffer without the tracer's own records are the unbounded log: nothing lost, repeated or reordered but what was rewound or refused at the limit |
| TraceRuns.ClosedRun | vtlib/vt_otf_gen.c:1325-1332 | after a run that ends with the close, the stream alone is that log |
| TraceRuns.ClosedRunWithoutRewind | vtlib/vt_otf_gen.c:615-1332 | after a run without rewinds that ends with the close, the caller's records in the stream are just the accepted records in order |
| TraceRuns.FlushesAreCounted | vtlib/vt_otf_gen.c:571-573 | the effective intermediate flushes of a run and the remaining counter add up to the limit |
| TraceRuns.MarksAreCounted | vtlib/vt_otf_gen.c:615-636 | over any run the stream gets one enter mark per effective flush that finds tracing on, and one leave mark per such flush but the one that uses up the limit |
| TraceRuns.MarksFollowCounter | vtlib/vt_otf_gen.c:571-573 | with tracing on throughout these are as many as the flush counter has gone down, less one leave mark at the limit |
| TraceRuns.StepPeak | vtlib/vt_otf_gen.c:2443-2491 | a call stays in the allocation iff it does not flush or the flush has room for its marks |
| TraceRuns.RunStaysInside | vtlib/vt_otf_gen.c:603-606 | a run stays in the allocation iff each of its flushes has room for its marks |
| TraceRuns.TwoMarksSuffice | vtlib/vt_otf_gen.c:604-604 | with two marks set aside every flush of every run has room |
| TraceRuns.ReserveAsWrittenIsOneMark | vtlib/vt_otf_gen.c:605-606 | the reserve as written is one mark, and a flush has room iff it writes no leave mark or the last mark's worth of the buffer is unused |
| TraceRuns.EventFlushOverruns | vtlib/vt_otf_gen.c:46-51 | with tracing on and another flush permitted, an enter or leave event overruns the reserve as written iff it does not fit |
| TraceRuns.OneMarkIsNotEnough | vtlib/vt_otf_gen.c:605-606 | for every buffer size and limit of at least two flushes, as many enter events as fit and one more overrun the reserve as written |
| TraceTimes.RunInOrder | vtlib/vt_otf_gen.c:46-51 | if the caller's stamps follow the clock, the events in stream and buffer are in time order over every run, flush marks and moved events included |
| MemMove.Move | util/util.c:300-317 | the target region holds the old source region, overlapping or not, and the rest is unchanged |
| TraceBuffer.TraceBuffer.Open | vtlib/vt_otf_gen.c:571-609 | an empty buffer with the usable size, flush counter and no mark |
| TraceBuffer.TraceBuffer.ParseBuffer | vtlib/vt_otf_gen.c:729-735 | in every state the bytes up to pos parse to the buffered records, pos is aligned and within the usable size |
| TraceBuffer.TraceBuffer.Flush | vtlib/vt_otf_gen.c:615-1322 | old contents and marks go to the stream in order, with the region of the flush and its times in the marks, the buffer is reset, the counter and mark are updated, and the limit notice is written when the counter reaches 0 |
| TraceBuffer.TraceBuffer.Replay | vtlib/vt_otf_gen.c:729-1274 | the replay terminates although it appends the leave mark behind its own end, and hands over every record once |
| TraceBuffer.TraceBuffer.WriteDef | vtlib/vt_otf_gen.c:1540-1560 | a definition that has room is appended, after a flush if it does not fit before |
| TraceBuffer.TraceBuffer.MakeRoomForEvent | vtlib/vt_otf_gen.c:46-51 | an event is dropped iff it does not fit and the limit is reached; otherwise its stamp is moved behind the flush |
| TraceBuffer.TraceBuffer.WriteEvent | vtlib/vt_otf_gen.c:1856-1879 | an event is appended whole, with its kind, content and stamp, or dropped whole |
| TraceBuffer.TraceBuffer.WriteFileOperation | vtlib/vt_otf_gen.c:1914-1946 | the duration survives the flush, in the record written too; a refused event leaves the end time reduced to it |
| TraceBuffer.TraceBuffer.SwitchOff | vtlib/vt_otf_gen.c:1305-1315 | after the last permitted flush tracing goes off, with an enter record if it was on, and the notice is written |
| TraceBuffer.TraceBuffer.SetStatus | vtlib/vt_trc.c:1402-1467 | switching tracing on or off leaves the buffer as it is, and tracing stays off after the flush limit |
| TraceBuffer.TraceBuffer.SetRewindMark | vtlib/vt_otf_gen.c:2621-2627 | the mark stands at the current record boundary |
| TraceBuffer.TraceBuffer.Rewind | vtlib/vt_otf_gen.c:2629-2675 | afterwards the buffer holds the records before the mark and the definitions behind it, in order, and the mark is a boundary again |
| TraceBuffer.KeepOrDrop | vtlib/vt_otf_gen.c:2640-2670 | one round of the rewind keeps a definition, drops an event, and clobbers no unread record |
| TraceBuffer.TraceBuffer.Close | vtlib/vt_otf_gen.c:1325-1332 | all buffered records are in the stream |
| SyncRounds.PartnerFitsInt32 | vtlib/vt_esync.c:71-73 | the product in the pairing fits 32 bits for every process iff there are at most 92682 processes |
| SyncRounds.SlotsIsCeilLog2 | vtlib/vt_esync.c:242-242 | the number of rounds is the least exponent whose power of two reaches n |
| SyncRounds.PartnerIffMeet | vtlib/vt_esync.c:57-78 | two slots are partners in a round iff they lie in different halves and their sum plus one is the round modulo the half |
| SyncRounds.RoundIsMatching | vtlib/vt_esync.c:57-78 | the partner lies in the other half and points back |
| SyncRounds.AtMostOneIdle | vtlib/vt_esync.c:244-247 | at most one process sits a round out, and only if n is odd |
| SyncRounds.NoPairRepeats | vtlib/vt_esync.c:57-78 | no pair meets in two rounds |
| SyncRounds.SlotsWithinHalf | vtlib/vt_esync.c:242-244 | there are no more rounds than distinct partners |
| SyncRounds.AllConnected | vtlib/vt_esync.c:57-78 | for every n the pairs measured in all rounds connect any two processes |
| ClockSync.Master | vtlib/vt_esync.c:80-138 | both stamp pairs come from one exchange each and have the shortest delay in their direction |
| ClockSync.OffsetBracket | vtlib/vt_esync.c:93-124 | an offset is possible for all exchanges iff it lies between t3-t4 and t2-t1 |
| ClockSync.Measure | vtlib/vt_esync.c:244-258 | a process saves one phase for each round in which it is the master, last round first |
| ClockSync.PairRecordedOnce | vtlib/vt_esync.c:126-137 | of a measured pair the lower process saves it exactly once over all rounds, the higher never |
| SyncProtocol.ActInv | vtlib/vt_esync.c:80-154 | every step of every process keeps the partners within one message of each other and the channels as expected |
| SyncProtocol.Progress | vtlib/vt_esync.c:244-258 | if not all are done some process can take a step |
| SyncProtocol.EveryRunCompletes | vtlib/vt_esync.c:80-154 | no reachable state is stuck, finished states have empty channels, and the length of every run is bounded |
| SyncProtocol.EveryMessageAsIntended | vtlib/vt_esync.c:104-154 | what a process receives is the message its partner of this round sent for this exchange |
| SyncProtocol.SendsNeverWait | vtlib/vt_esync.c:93-154 | also with sends that wait for their receive nobody would wait longer: a slave's send finds the master in the matching receive, and a master that has its answer finds its own send received |
| CallTree.ProfileIsCallTree | vtlib/vt_otf_sum.c:128-166 | count, exclusive and inclusive time of every region are those of the tree of calls |
| CallTree.NodeCounts | vtlib/vt_otf_sum.c:128-166 | a call counts once, with its duration inclusive and its duration less its children's exclusive |
| CallTree.ForestCounts | vtlib/vt_otf_sum.c:128-166 | the sums of a forest and its events are those of its calls one after the other |
| CallTree.RunCall | vtlib/vt_otf_sum.c:128-166 | the same for one call in any state, with what its caller is charged |
| CallTree.ExclusiveIsBusyTime | vtlib/vt_otf_sum.c:128-166 | after every event the exclusive times add up to the time with a region open |
| CallProfile.CallProfile.HashGet | vtlib/vt_otf_sum.c:333-343 | the hash chain finds the row a linear search finds |
| CallProfile.CallProfile.AddRow | vtlib/vt_otf_sum.c:43-60 | a new region gets a row and a chain node |
| CallProfile.CallProfile.Enter | vtlib/vt_otf_sum.c:822-842 | entering takes the step on rows and stack |
| CallProfile.CallProfile.Exit | vtlib/vt_otf_sum.c:844-851 | leaving takes the step on rows and stack, and fails only on an empty stack |
| GroupBy.AnotherEvent | vtlib/vt_otf_sum.c:856-891 | adding an event to its masked row keeps the rows a group-by of all events |
| GroupBy.RowCounts | vtlib/vt_otf_sum.c:871-913 | each row holds the number and bytes of the messages sent and of those received under the parts of its key that the flags keep, the other parts being 0 |
| GroupBy.OneMoreEvent | vtlib/vt_otf_sum.c:887-910 | one more event counts once and with its bytes, in its own direction only |
| GroupBy.EventHasItsRow | vtlib/vt_otf_sum.c:856-869 | every event has a row that agrees with it in the parts kept |
| GroupBy.CoarseRowsMergeFineRows | vtlib/vt_otf_sum.c:871-913 | each row under coarser details is the sum of the finer rows it covers |
| MessageStats.MessageStats.HashGet | vtlib/vt_otf_sum.c:393-414 | the chain finds a row of the key iff there is one |
| MessageStats.MessageStats.RowsHoldTheMessages | vtlib/vt_otf_sum.c:871-913 | the table's rows hold those numbers for all events so far |
| MessageStats.MessageStats.Send | vtlib/vt_otf_sum.c:871-891 | after a send the rows group all events so far |
| MessageStats.MessageStats.Receive | vtlib/vt_otf_sum.c:893-913 | after a receive the rows group all events so far |
| RequestLife.RemoveLookup | vtlib/vt_mpireq.c:199-208 | swap-with-last loses the deleted entry and no handle with a single entry |
| RequestLife.TableIsLives | vtlib/vt_mpireq.c:57-281 | over all runs a handle taken only while free finds what its own history alone gives, and has one entry at most, whatever is done to other handles |
| RequestLife.EntryFollowsMpi | vtlib/vt_mpiwrap.c:2503-2545 | entry and MPI state agree after a legal operation iff it is neither the release of a pending request nor the end of a released one's communication |
| RequestLife.AgreesIffNothingUnseen | vtlib/vt_mpiwrap.c:2404-2545 | over all runs legal in MPI, a handle's entry and MPI state agree all the time iff it is never released while pending, nor released while active with that communication ending |
| RequestLife.UnseenIffReleasedInUse | vtlib/vt_mpiwrap.c:2518-2536 | when all communication is over at the end, that is: iff the user never releases it while in use |
| RequestLife.TrackedIffInUse | vtlib/vt_mpiwrap.c:2404-2545 | so over all such runs the handle is tracked iff its request is in use, with its state in the flags |
| RequestLife.EntryAfter | vtlib/vt_mpireq.c:268-277 | what starting, releasing and completing do to the entry of a handle, case by case |
| RequestLife.EntryKeepsItsData | vtlib/vt_mpireq.c:234-277 | over every run all of an entry but the flags active and deallocate stays what it was, as long as the entry lives |
| RequestLife.CreatedDataStays | vtlib/vt_mpireq.c:57-112 | so what a live entry holds is what its request was created with |
| RequestLife.CreateVisible | vtlib/vt_mpireq.c:57-112 | a new request is found iff its handle had no entry, or the same one |
| RequestLife.FreedReceiveStays | vtlib/vt_mpiwrap.c:2530-2536 | a legal run that releases a pending request and reuses its handle finds the old entry |
| RequestLife.FreedActiveStays | vtlib/vt_mpiwrap.c:2518-2524 | a legal run that releases an active persistent request and reuses its handle finds the old, marked entry |
| RequestLife.BatchCompletes | vtlib/vt_mpiwrap.c:1861-1865 | a batch completes exactly the tracked handles it names, once each |
| RequestTable.RequestTable.NextBlock | vtlib/vt_mpireq.c:68-95 | the block behind a full one is the first, a kept one or a new one, and the links stay consistent |
| RequestTable.RequestTable.Create | vtlib/vt_mpireq.c:57-112 | an entry with the given fields is appended |
| RequestTable.RequestTable.CreateIo | vtlib/vt_mpireq.c:114-167 | an I/O entry with the given fields is appended |
| RequestTable.RequestTable.Get | vtlib/vt_mpireq.c:169-197 | scanning the blocks up to the cursor finds the first live slot of the handle |
| RequestTable.RequestTable.Delete | vtlib/vt_mpireq.c:199-232 | the last entry takes the place of the deleted one and the cursor goes back, over block boundaries too |
| RequestTable.RequestTable.Start | vtlib/vt_mpiwrap.c:2420-2430 | a persistent request becomes active |
| RequestTable.RequestTable.RequestFree | vtlib/vt_mpiwrap.c:2518-2527 | an inactive persistent request is deleted, an active one marked |
| RequestTable.RequestTable.Check | vtlib/vt_mpireq.c:234-277 | completion deletes, deactivates or deletes a marked request |
| RequestTable.RequestTable.SaveArray | vtlib/vt_mpireq.c:283-299 | the saved array starts with the handles and never shrinks |
| RequestTable.RequestTable.Waitall | vtlib/vt_mpiwrap.c:1835-1875 | the loop over the saved handles is the batch completion |
| RequestTable.RequestTable.Waitsome | vtlib/vt_mpiwrap.c:1927-1969 | the loop over the completed indices is the batch completion of these handles |
| WindowTable.LiveIsInUse | vtlib/vt_mpicom.c:87-104 | distinct live windows occupy one slot each |
| WindowTable.WindowTable.Search | vtlib/vt_mpicom.c:87-104 | finds the slot of a live window, and otherwise a free slot iff there is one |
| WindowTable.WindowTable.Create | vtlib/vt_mpicom.c:384-425 | fails iff max_wins others are live; last_win stays the peak number of live windows |
| WindowTable.WindowTable.Free | vtlib/vt_mpicom.c:427-441 | frees the slot of a live window, refuses others |
| WindowTable.WindowTable.Id | vtlib/vt_mpicom.c:443-457 | returns what is stored for a live window |
| CudaConversion.ConvertedLength | vtlib/vt_cudartwrap.c:784-823 | a task inside the window takes its time on the device times the factor, less a fraction of a tick, and starts as far behind its anchor; only what lies outside is moved, to the end it passed |
| CudaConversion.ConvertAt | vtlib/vt_cudartwrap.c:784-829 | a converted task lies between the last synchronous call and the synchronization, starts before it stops and not before its stream's anchor |
| CudaConversion.ConvertPair | vtlib/vt_cudartwrap.c:784-829 | a converted task starts after every earlier one of its stream has stopped |
| CudaConversion.EndOfWindowIsExact | vtlib/vt_cudartwrap.c:778-780 | the conversion factor takes the end event of the window to its host time |
| CudaConversion.ConvertNext | vtlib/vt_cudartwrap.c:784-829 | a task is converted relative to the task before it on its stream, wherever that is in the buffer |
| CudaConversion.KernelWaits | vtlib/vt_cudartwrap.c:834-838 | on a serial device a kernel starts no earlier than the kernel before it in the buffer has stopped, and is not moved otherwise |
| CudaSerial.SerialKernels | vtlib/vt_cudartwrap.c:831-838 | on a serial device all written tasks start before they stop iff the converted kernels stop in buffer order |
| CudaSerial.LostTicksGoWrong | vtlib/vt_cudartwrap.c:784-838 | a copy and two kernels, disjoint and in order, of which the last is written as starting after it stopped |
| CudaSerial.OneStreamIsSafe | vtlib/vt_cudartwrap.c:784-838 | on a concurrent device, or with all kernels on one stream and copies anywhere, every written task starts before it stops |
| CudaSerial.AlwaysWellIff | vtlib/vt_cudartwrap.c:834-838 | a buffer is written that way for all event times and windows iff the device is concurrent or all kernels of the buffer use one stream, also if kernels run strictly one after the other |
| CudaConversion.PoolSuffices | vtlib/vt_cudartwrap.c:374-412 | entries that fit the buffer need no more events than the pool has |
| CudaConversion.PoolIsExact | vtlib/vt_cudartwrap.c:374-412 | the pool has as many events as the smallest recorded entries fit the buffer |
| CudaDevice.NewSpans | vtlib/vt_cudartwrap.c:768-869 | what a flush writes lies in its window, in order on every stream, on any device |
| CudaDevice.CudaDevice.PoolNeverRunsOut | vtlib/vt_cudartwrap.c:1200-1202 | as many events are claimed as entries buffered, within the pool |
| CudaDevice.CudaDevice.Synchronous | vtlib/vt_cudartwrap.c:128-128 | a synchronous call moves the last synchronous time |
| CudaDevice.CudaDevice.OutputLength | vtlib/vt_cudartwrap.c:774-829 | each task a flush writes takes its time on the device times the ticks per millisecond between the synchronizations, and starts as far behind the task before it on its stream or the last flush |
| CudaDevice.WriteTasks | vtlib/vt_cudartwrap.c:774-869 | the loop writes the converted, serialized tasks in buffer order |
| CudaDevice.CudaDevice.Flush | vtlib/vt_cudartwrap.c:727-888 | everything buffered is written once, the streams stay in order over all flushes with every start before its stop on a concurrent device and for kernels of one stream, buffer and pool are reset; without synchronization nothing changes |
| CudaDevice.CudaDevice.AddMemcpy | vtlib/vt_cudartwrap.c:1173-1212 | the new entry stays in the buffer iff it fits or the flush synchronizes |
| CudaDevice.CudaDevice.Configure | vtlib/vt_cudartwrap.c:2415-2425 | there is room for a kernel iff it fits or the flush synchronizes |
| CudaDevice.CudaDevice.Launch | vtlib/vt_cudartwrap.c:2474-2490 | the kernel takes the entry and the event at the current positions, whether or not there is room |
| CudaDevice.CudaDevice.CopyInBetween | vtlib/vt_cudartwrap.c:2415-2490 | after a copy between the two parts of a kernel call the kernel stays in the buffer iff both fit behind what the flushes left; these keep the streams in order |
| CallLimits.CountdownIsOwnPushes | rfg/rfg_regions.c:300-303 | in any interleaving the countdown depends on the region's own counted pushes |
| CallLimits.FirstPushesAreRecorded | rfg/rfg_filter.c:386-388 | for limit L exactly the first L counted pushes carry a non-zero limit |
| CallLimits.RecordedUpToTheLimit | rfg/rfg_regions.c:300-303 | with limit L a region is entered in the trace as often as it is called, but no more than L times |
| CallLimits.PopReturnsItsPush | rfg/rfg_regions.c:316-333 | a pop returns the entry of its matching push |
| CallLimits.RecordedIsNested | rfg/rfg_regions.c:279-333 | the recorded enters and leaves are well nested and leave open exactly the recorded regions on the stack |
| CallLimits.RecordedIsNestedWhenSwitched | vtlib/vt_trc.c:1402-1467 | they are too when tracing is switched off and on, if every stretch without tracing is balanced |
| CallLimits.SameLevelIsNotEnough | vtlib/vt_trc.c:1411-1412 | a stretch that ends as high as it began and breaks the nesting |
| Regions.Regions.SetDefaultCallLimit | rfg/rfg_filter.c:198-214 | 0 and limits below -1 are refused |
| Regions.LimitIsFirstMatchOrDefault | rfg/rfg_filter.c:460-484 | the limit of a name is that of the first rule that matches, or the default if none does |
| Regions.FirstRuleDecides | rfg/rfg_filter.c:460-484 | for a region whose first matching rule has limit L exactly the first L counted pushes carry a non-zero limit |
| Regions.Regions.FilterGet | rfg/rfg_filter.c:460-484 | the limit of the first matching rule, else the default |
| Regions.Regions.Get | rfg/rfg_regions.c:450-461 | the chain finds the info of the region, or none |
| Regions.Regions.Add | rfg/rfg_regions.c:335-377 | a new region gets an info with the limit the rules give its name; a known one is left as it is |
| Regions.Regions.StackPush | rfg/rfg_regions.c:279-314 | the push step; nothing happens for an unknown region |
| Regions.Regions.StackPop | rfg/rfg_regions.c:316-333 | the pop step; fails only on an empty stack |
| Regions.Regions.FilteredRegions | rfg/rfg_regions.c:203-237 | exactly the regions with no calls left, each once |
| FilterSyntax.ParseClause | rfg/rfg_filter.c:291-364 | the character loop terminates and computes the branch-by-branch meaning |
| FilterSyntax.RankListMeaning | rfg/rfg_filter.c:282-365 | for every list of ranks and ranges the loop finds a rank selected iff it is in the list, with or without OFF |
| FilterSyntax.RangeIsInterval | rfg/rfg_filter.c:312-313 | a range selects the ranks between its ends iff they are in order |
| FilterSyntax.ItemSelects | rfg/rfg_filter.c:312-313 | which ranks a number, an ordered range and any other range select |
| FilterSyntax.NoDigitFails | rfg/rfg_filter.c:357-361 | a rank list that does not begin with a digit is a parse error, also behind a separator |
| FilterSyntax.BadEndingFails | rfg/rfg_filter.c:291-364 | behind a list of ranks anything but a separator with more ranks or an OFF is a parse error |
| FilterFile.RuleLineMeaning | rfg/rfg_filter.c:368-418 | a rule line gives each of its patterns, in order and without the blanks around it, the stored limit, also the limits 0 and -1 |
| FilterFile.RuleLineDecides | rfg/rfg_filter.c:368-418 | from the text of a rule line with limit L to exactly the first L counted pushes of a region it is the first to match |
| FilterFile.ReadDefFile | rfg/rfg_filter.c:216-434 | the loop over the lines keeps the rules of the line-by-line meaning, and reports OFF and parse errors |
| FilterFile.CommentsChangeNothing | rfg/rfg_filter.c:266-270 | empty lines and lines that begin with '#' change nothing, wherever they stand |
| FilterFile.NoDashesFails | rfg/rfg_filter.c:373-378 | a rule line without two dashes is a parse error |
| FilterFile.NothingNamedFails | rfg/rfg_filter.c:400-408 | so is one that names nothing before them |
| FilterFile.BadClauseFails | rfg/rfg_filter.c:357-361 | and a rank clause that cannot be parsed |
| FilterFile.FileMeaning | rfg/rfg_filter.c:250-419 | the rules kept for a rank are those before the first section and those of sections naming it, up to the first that switches it off |
| FilterFile.FileMeaningWithoutRank | rfg/rfg_filter.c:277-280 | without a rank only the rules before the first section are kept |

## Left out

- TraceBuffer.TraceBuffer.WriteDef: requires that there is room once the last permitted flush is used up; the source then writes without looking. TraceLog.DefStaysInsideIffRoom has the exact condition; what the write past the end overwrites is not modelled.
- TraceBuffer.TraceBuffer.Flush: the path of a disabled rank, which empties the buffer and keeps the mark, the definitions written at the first flush, the empty comment written at the close, and the counters and filtering of the enter record of switching tracing off are not modelled.
- TraceBuffer.TraceBuffer.WriteEvent: statistics mode, in which the event writers do not touch the buffer, is not modelled; bytes of padding are zero and integers little-endian.
- ClockSync.Master: stamps are unbounded integers; the casts to signed 64 bits are not modelled.
- SyncProtocol.ActInv: sends are steps that never wait, which by SyncProtocol.SendsNeverWait makes no difference; the barriers before and after the rounds are not steps.
- CallProfile.CallProfile.Enter: times are unbounded integers, and periodic dumps of the statistics are not modelled.
- RequestTable.RequestTable.Check: the trace records written on completion are not modelled.
- CudaDevice.WriteTasks: floating-point rounding is not modelled, times are reals and ticks their floor; the idle region is not written.
- CudaDevice.CudaDevice.Launch: the kernel's stream is an argument; the source reads the one the configure call left at the buffer position, which is stale when a copy was buffered in between.
- CallLimits.RecordedIsNestedWhenSwitched: the maximum stack depth is not modelled.
- FilterFile.ReadDefFile: reading the file and splitting it into lines, the length of the pattern buffer, and overflow in atoi and in adding one to a limit of 2147483647 are not modelled.
- MessageStats.MessageStats.HashGet: the hash function is any function of the key.
- Regions.Regions.FilterGet: fnmatch is any relation between pattern and name; region groups are not part of this model.
- The collective statistics, which count both directions in one event and only those with non-zero bytes, and the file statistics.
- The communicator table, whose lookup of an existing group assigns the comparison's result to the index.
- All calls into OTF, MPI, CUDA and the C library, the environment, timers, and the wrappers around them.
