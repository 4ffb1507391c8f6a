# ZiFi firmware model

The ZiFi firmware lets Windows (SMB) and FTP clients reach a disk that a single-threaded Z80 serves
through two ESP32 cores. Nearly everything difficult in it comes from that one channel: many owners
share one physical cursor, memory is bounded, and no byte may be lost, repeated or reordered. This
project models those parts in Dafny and proves what they keep.

Each source component is one module. Code that changes state is a class (or a method over an array)
whose methods are proved against functions on a plain value of the same state; the promises are then
lemmas about those functions, over whole runs where the source promises them for whole runs. Where the
two cores run at once, their single atomic steps are the transitions of a step system and the lemmas
speak of every interleaving.

Beside them stand lemmas that say what a step means without the function that decides it: which flags make
a lock exclusive, when a window counts as written, when a save may be skipped, with the numbers written
out. The files named `...Steps` hold most of these.

| file | source | what is modelled |
|---|---|---|
| `Arbiter.dfy` | `src/smb_server.cpp` | which queued disk operation is served next |
| `ArbiterSteps.dfy` | `src/smb_server.cpp` | what its single steps choose and change, told without the deciding functions |
| `AsyncWrite.dfy` | `src/smb_server.cpp` | asynchronous WRITE: windows, cancels, errors, recovery, final replies |
| `AsyncWriteProgress.dfy` | `src/smb_server.cpp` | how soon a WRITE is answered |
| `AsyncWriteSteps.dfy` | `src/smb_server.cpp` | what the single steps of a WRITE do, field by field |
| `AsyncDirectory.dfy` | `src/smb_server.cpp` | QUERY_DIRECTORY: batches, carried entries, reopening with replay |
| `AsyncDirectorySteps.dfy` | `src/smb_server.cpp` | what its single steps do, field by field |
| `TransferRanges.dfy` | `src/smb_server.cpp` | the merged ranges of a handle's transfer progress |
| `LockTable.dfy` | `src/smb_server.cpp` | the byte-range lock table |
| `Wildcard.dfy` | `src/smb_server.cpp` | the directory mask matcher, and ASCII case folding |
| `SpscRing.dfy` | `src/spsc_ring.cpp` | the lock-free ring between the cores, step by atomic step |
| `VfsBridge.dfy` | `src/vfs_bridge.cpp` | the one-slot request exchange, and the pumps over the rings |
| `DirectoryCache.dfy` | `src/directory_cache.cpp` | the LRU cache of listings and its cursors |
| `DirectoryCacheSteps.dfy` | `src/directory_cache.cpp` | what the cache accepts, its stamps and its revision |
| `ConfigStore.dfy` | `src/config_store.cpp` | crash-safe replacement of the configuration |
| `FatAllocation.dfy`, `FatAllocationSteps.dfy` | `src/fat_allocation_cache.cpp` | the cluster map and the free counter; what each operation accepts and leaves |
| `FatTime.dfy`, `FtpTime.dfy` | `src/fat_time.cpp`, `src/ntp_time.cpp` | calendars, FAT stamps, FTP and NTP times, FILETIME |
| `Checksums.dfy`, `FrameProtocol.dfy` | `src/protocol.cpp`, `src/uart_transport.cpp` | CRCs, frames, the receive buffer |
| `ChecksumValues.dfy`, `Sha1Values.dfy` | `src/protocol.cpp`, `src/git_sha1.cpp` | the published check values of the three algorithms |
| `Sha1.dfy` | `src/git_sha1.cpp` | streaming SHA-1 against FIPS 180-4, hexadecimal digests |
| `FtpPath.dfy` | `src/ftp_server.cpp` | path normalisation |
| `Json.dfy`, `GithubTree.dfy`, `GitListing.dfy` | `src/github_tree.cpp` | the JSON cursor against RFC 8259, safe paths, and the tree parser |
| `Modulus.dfy`, `BitFields.dfy`, `Common.dfy` | | remainder arithmetic, bitwise operators and shared datatypes |

Ten promises turned out to need a condition that the code does not check. Each is proved exactly, and a
lemma shows how the condition can fail:

- An error that fails all queued WRITEs remembers one connection to close, so it forgets a request exactly
  when some live connection that is refused a reply is not the last one refused
  (`AsyncWrites.FailAllForgetsIff`, `AsyncWrites.TwoRefusalsForgetOne`). Everything else about final replies
  holds without that condition (`AsyncWrites.AtMostOneReply`).
- A pass of the arbiter changes nothing exactly when no queued READ can be promoted and the chosen operation
  is such a READ (or nothing waits); two READs of different owners reach that state
  (`Arbiter.PassStallsIffQueuedReadChosen`, `Arbiter.DeferredReadStalls`).
- A LOCK request that fails with INVALID_PARAMETER or INSUFFICIENT_RESOURCES leaves the table as it was
  exactly when its first element is already malformed or the table is full (`LockTable.FailureKeepsTableIff`,
  `LockTable.MalformedElementKeepsEarlierLock`).
- Saving the configuration loses the last good image exactly when that image was only the backup, the main
  file is damaged, and the damaged file cannot be renamed away after the backup was removed
  (`ConfigStores.SaveIsSafeUnlessItLoses`, `ConfigStores.LosingSave`); and a failed save can leave the
  remembered checksum describing a text that is no longer in flash, so that saving it again is answered
  "unchanged" (`ConfigStores.SaveKeepsAgreementIff`, `ConfigStores.UnchangedAlthoughLost`).
- The comment at `src/config_store.cpp:182` says that an identical configuration is not written again. So is
  a different one of the same length with the same CRC-32, and no other: saving is skipped exactly then
  (`ConfigStores.SaveIsSkippedIff`, `ConfigStores.DifferentTextIsSkipped`).
- The comment at `src/config_store.cpp:154` says that replacing the configuration survives a reset at any
  point. That is true of one save; a run of saves on working flash is safe as long as no more of them in a
  row are cut off than a margin read off the files allows: two from a good main file, and three cut-off
  saves can lose the configuration (`ConfigStores.RunsAreSafe`, `ConfigStores.MarginIsExact`).
- Preparing the allocation map for another volume keeps memory behind a map in use exactly unless a map of
  another size is refused its memory: then the cache still calls itself valid, with no bits
  (`FatAllocation.PreparedKeepsMapIff`, `FatAllocation.RefusedPrepareLosesMap`).
- The JSON cursor skips a value of the grammar exactly when it nests at most 32 deep and no string in it has
  a zero escape or a surrogate escape without its partner (`JsonText.SkipExact`, `JsonText.MeansIffPaired`,
  `JsonText.ZeroEscapeIsRefused`).
- A member name of 16 or more bytes refuses the whole tree, although the comment at
  `src/github_tree.cpp:309-310` says that such a member is skipped (`GitListing.LongNameRefusesTree`).
- The overflow test of the JSON number reader misses some 64-bit overflows, but never for a value that ends
  up within 32 bits, which is all its caller accepts (`GithubTree.OverflowNoticedIff`,
  `GithubTree.OverflowCanGoUnnoticed`, `GithubTree.SizesAreExact`).

## Model

| member | source | states |
|---|---|---|
| `Arbiter.ScanIsLeast` | src/smb_server.cpp:2527-2568 | the scan over the slots returns the least eligible sequence number, or the "nothing" value exactly when no slot is eligible |
| `Arbiter.ChosenIsOwnersOldest` | src/smb_server.cpp:2526-2609 | the chosen operation waits, and no waiting operation of the same owner is older |
| `Arbiter.BarrierNeverOvertakes` | src/smb_server.cpp:2526-2609 | a FLUSH, SET_EOF or CLOSE is never chosen while an earlier READ or WRITE of its owner waits |
| `Arbiter.StepKeepsInv` | src/smb_server.cpp:2454-2463 | arrivals, cancels and served windows keep sequence numbers distinct and below the counter |
| `Arbiter.ServePaysDebt` | src/smb_server.cpp:2526-2609 | each selection while something up to a given number waits lowers a debt of twice the remaining windows |
| `Arbiter.OtherEventsAddNoDebt` | src/smb_server.cpp:2526-2609 | arrivals and cancels never raise that debt |
| `Arbiter.NoStarvation` | src/smb_server.cpp:2526-2609 | after 2W selections nothing numbered up to the given sequence waits any more, W being the windows owed to the operations up to it, whatever newer operations arrive |
| `ArbiterSteps.ChoiceIs` | src/smb_server.cpp:2526-2609 | the choice is the oldest operation that is used, not cancelled and not done, of another owner than the last served if such a one waits; UINT64_MAX exactly if nothing waits |
| `Arbiter.PassStallsIffQueuedReadChosen` | src/smb_server.cpp:2526-2624 | in every state of the queues a pass changes nothing exactly when no queued READ can be promoted to a slot, and nothing waits or the choice is such a READ |
| `Arbiter.QueueStepKeepsInv` | src/smb_server.cpp:2654-2790 | an arriving READ takes a slot, is queued behind the others, or is refused; promotion and service keep all sequence numbers distinct |
| `Arbiter.QueueRunKeepsInv` | src/smb_server.cpp:2654-2790 | and so does every run of arrivals and passes |
| `ArbiterSteps.SlotFreeIff` | src/smb_server.cpp:2611-2625 | a READ can get a slot exactly when no READ is being served, fewer buffers are used than there are, and some buffer is free |
| `ArbiterSteps.PromotionDoes` | src/smb_server.cpp:2731-2783 | the oldest queued READ moves to the first free slot |
| `ArbiterSteps.ReadArrivalDoes` | src/smb_server.cpp:2654-2698 | an arriving READ takes the first free slot if none is queued before it, joins the queue behind the others, or is refused when as many wait and run as there are slots |
| `ArbiterSteps.PassServesRead` | src/smb_server.cpp:6051-6057 | a pass that chose a READ in a slot takes one window from it, frees the slot with the last, and remembers its owner |
| `Arbiter.DeferredReadStalls` | src/smb_server.cpp:2542-2624 | from empty queues: two READs of any two owners arrive, one window is served, and the queues are such that every further pass changes nothing |
| `Arbiter.AsyncQueues.ScanSlots` | src/smb_server.cpp:2527-2541 | the loop over one queue computes the running minimum of the specification |
| `Arbiter.AsyncQueues.ScanAll` | src/smb_server.cpp:2535-2568 | the loops over all queues together equal one scan of their concatenation |
| `Arbiter.AsyncQueues.NextAsyncVfsSequence` | src/smb_server.cpp:2454-2463 | hands out a number larger than every earlier one, never zero |
| `Arbiter.AsyncQueues.NextAsyncVfsServiceSequence` | src/smb_server.cpp:2526-2609 | outside the continuation window the choice of the specification; inside it only that owner's directory work |
| `AsyncWrites.ExactlyOneReply` | src/smb_server.cpp:6250-6454 | if no event fails all writes while a live connection other than the last refused one is refused a reply, then while its connection lives every accepted WRITE is answered exactly once or still owed by a slot, never both |
| `AsyncWrites.AtMostOneReply` | src/smb_server.cpp:6250-6454 | over every run, whatever replies are refused: an accepted WRITE gets at most one final reply; every window noted as written belongs to one bridge result with success that transferred at least the length of the window; SUCCESS only when these windows are, in order, the consecutive pieces of the request's bytes, each submitted for its own offset of the right file; what is answered is no longer owed; the counter equals the used slots |
| `AsyncWrites.NotedIffWritten` | src/smb_server.cpp:6306-6417 | a poll notes a window, with its result, exactly when the bridge reports success with at least the bytes of the window it carries, for a slot that is not cancelled, whose handle is still its own and whose client is there or was answered; and then notes what the bridge carried |
| `AsyncWrites.FailedWindowIsAnswered` | src/smb_server.cpp:6349-6364 | a slot that was not cancelled and whose window failed is answered with the status of the result, IO_DEVICE_ERROR for status 0, and never SUCCESS; its handle is marked failed |
| `AsyncWrites.TilesWriteTheRequest` | src/smb_server.cpp:6430-6448 | so those windows, written one after the other, leave in the file exactly the bytes of the request at its offset, and every other byte as it was |
| `AsyncWrites.TwoRefusalsForgetOne` | src/smb_server.cpp:3247-3328 | two clients with one queued WRITE each and a watchdog whose replies are both refused: the first client is neither answered, nor owed, nor closed |
| `AsyncWrites.RecoveryHoldsTheChannel` | src/smb_server.cpp:6250-6305 | once a slot is in recovery no event but the result of CLOSE_ABORT frees or reuses it, starts or acknowledges a window |
| `AsyncWrites.RecoveryHoldsUntilAbort` | src/smb_server.cpp:6250-6305 | nor does any run of events, up to the result of CLOSE_ABORT |
| `AsyncWrites.RunKeepsInv` | src/smb_server.cpp:6250-6454 | the invariant behind those theorems, over all runs of polls, accepts, cancels, disconnects, closes and watchdogs; and nothing is forgotten if every failAsyncWrites() of the run meets the condition |
| `AsyncWrites.StepKeepsInv` | src/smb_server.cpp:6250-6454 | every single event keeps it, whatever replies are refused, and forgets a request of a live connection exactly when it calls failAsyncWrites() in a state outside the condition |
| `AsyncWrites.PollKeepsInv` | src/smb_server.cpp:6250-6454 | one call of pollAsyncWrite keeps it, whatever the bridge returns and whatever replies are refused; it forgets a request under that condition only |
| `AsyncWrites.TakeWindowKeepsInv` | src/smb_server.cpp:6306-6417 | taking a window result keeps the invariant: what is noted as written is what the bridge carried, with a result that succeeded and transferred all of it |
| `AsyncWrites.RecoverKeepsInv` | src/smb_server.cpp:6251-6305 | the recovery phases keep it |
| `AsyncWrites.StartNextKeepsInv` | src/smb_server.cpp:6426-6453 | starting the next window keeps it: the bridge carries the next bytes of the buffer for offset + flushed |
| `AsyncWrites.CompleteCancelledKeepsInv` | src/smb_server.cpp:3149-3182 | completing a cancelled write keeps it |
| `AsyncWrites.FailAllKeepsInv` | src/smb_server.cpp:3247-3328 | failing all writes keeps it, whatever replies are refused |
| `AsyncWrites.FailAllForgetsIff` | src/smb_server.cpp:3247-3328 | and forgets a request exactly when some live connection that is refused a reply is not the last one refused, the only one remembered in contextToClose |
| `AsyncWrites.ContextToCloseIsLastRefused` | src/smb_server.cpp:3270-3325 | contextToClose ends as the connection of the last refused slot |
| `AsyncWrites.AcceptKeepsInv` | src/smb_server.cpp:9072-9094 | accepting a request into a free slot keeps the invariant |
| `AsyncWrites.DetachKeepsInv` | src/smb_server.cpp:3468-3480 | a disconnecting client leaves only slots nobody is owed |
| `AsyncWriteSteps.BadResult` | src/smb_server.cpp:6349-6364 | the result of a window that was not written in full, or is not wanted any more: a cancelled request ends, any other failure fails all writes with the status of the result |
| `AsyncWriteSteps.GoodResult` | src/smb_server.cpp:6366-6417 | a window written in full moves its slot on; the last one is answered SUCCESS and frees the slot, or closes the connection and fails all other writes if that reply is refused; then the next work starts |
| `AsyncWriteSteps.FailureCleansUp` | src/smb_server.cpp:3247-3328 | the slot whose window or file is open stays, answered and cancelled, to wait for the window on the bridge or to submit CLOSE_ABORT; every other slot is free |
| `AsyncWriteSteps.RecoveryPhases` | src/smb_server.cpp:6251-6305 | wait for the window, submit CLOSE_ABORT until it is accepted, wait for its result; then the file is closed and the slot free |
| `AsyncWriteSteps.TailStartsWindow` | src/smb_server.cpp:6426-6453 | the first slot that can start submits as many bytes as are left, up to the window limit, from where the last window ended; an attempt that is refused fails all writes with an I/O error |
| `AsyncWriteSteps.CancelsMark` | src/smb_server.cpp:9441-9448 | SMB CANCEL marks exactly the used slots with that MessageId whose client still waits, cancelling a handle exactly the slots of that handle |
| `AsyncWrites.WriteQueue.CompleteCancelledAsyncWrite` | src/smb_server.cpp:3149-3182 | new state and reply as specified |
| `AsyncWrites.WriteQueue.FindRecoveryIndex` | src/smb_server.cpp:3247-3269 | the loop finds the slot that must clean up the physical file |
| `AsyncWrites.WriteQueue.FailAsyncWrites` | src/smb_server.cpp:3247-3328 | the loop over all slots has the specified effect on slots, handles, counter and replies |
| `AsyncWrites.WriteQueue.FailOne` | src/smb_server.cpp:3270-3316 | one turn of that loop: a slot that needs recovery stays, the others are answered and freed |
| `AsyncWrites.WriteQueue.StartNextWindow` | src/smb_server.cpp:6426-6453 | completes a cancelled slot, or finds the ready slot of the served sequence number and submits WRITE_AT for offset + flushed with that part of its buffer |
| `AsyncWrites.WriteQueue.FindReadyAsyncWrite` | src/smb_server.cpp:2895-2932 | the scan finds the first slot of that sequence number that is not in flight, not cancelled and whose handle is its own, and none while the channel is taken |
| `AsyncWrites.WriteQueue.RecoverActive` | src/smb_server.cpp:6251-6305 | the wait-window, submit-abort and wait-abort phases |
| `AsyncWrites.WriteQueue.FinishOrContinueWrite` | src/smb_server.cpp:6366-6416 | advances, replies once when the request is complete, frees the slot |
| `AsyncWrites.WriteQueue.TakeFinishedWindow` | src/smb_server.cpp:6306-6417 | the whole result branch, for every result of the bridge: with NotedIffWritten, BadResult and GoodResult, what counts as written, what is answered and what is freed |
| `AsyncWrites.WriteQueue.PollAsyncWrite` | src/smb_server.cpp:6250-6454 | the whole poll equals the specification the run theorems speak about, the submitted window included |
| `AsyncWriteProgress.OwedIsAnswered` | src/smb_server.cpp:6250-6454 | from every reachable state: if nothing disturbs the polls, then after two of them for each window left (and as many for each recovery) every WRITE still owed has exactly one reply, CANCELLED if it was cancelled and SUCCESS otherwise |
| `AsyncWriteProgress.PollWorks` | src/smb_server.cpp:6250-6454 | an undisturbed poll never fails; it pays off one of the polls left if anything is queued, and keeps what every request was promised |
| `AsyncWriteProgress.PollsPayOff` | src/smb_server.cpp:6250-6454 | so after as many polls as are left no slot is used |
| `AsyncWriteProgress.WindowsLeftRoundsUp` | src/smb_server.cpp:6430-6435 | the windows left are the bytes left divided by the window limit, rounded up |
| `AsyncWriteProgress.RunKeepsUnfinished` | src/smb_server.cpp:6250-6454 | in no reachable state does a used slot have nothing left to write |
| `AsyncDirectory.ListingIsExactlyOnce` | src/smb_server.cpp:7684-8034 | what an Open was given since its last restart, with what is batched and carried, is the filtered part of the directory read so far, each entry once and in order; after the end it is everything; no reply exceeds the client's buffer. Where a restart begins is read off the queries in ScansStartOver |
| `AsyncDirectory.ScansStartOver` | src/smb_server.cpp:7684-8034 | told by the queries and replies alone, over every run: the replies since the last query with the restart flag that was taken up, with what is batched and carried, are the entries of the directory from the first on that the pattern in force lets through, the last non-empty name of the queries taken up; NO_MORE_FILES comes when that is the whole directory; the i-th reply answers the i-th query |
| `AsyncDirectory.QueryIsTakenUp` | src/smb_server.cpp:7943-8000 | a query with the restart flag is not answered from memory: the listing is at entry 0, not ended, nothing carried, and the directory is opened anew; one without it is answered NO_MORE_FILES at once if the listing had ended, or gets the carried entry |
| `AsyncDirectory.RepliesConcatenateToFilter` | src/smb_server.cpp:6565-6641 | with one pattern the concatenated replies are a prefix of the filtered directory, and all of it once NO_MORE_FILES was sent; for names without a star the filter selects what the mask means |
| `AsyncDirectory.FilterIsMeant` | src/smb_server.cpp:587-613 | for names without a star the entries the loop lets through are those the mask means, declaratively |
| `AsyncDirectory.ResultBringsAnswerCloser` | src/smb_server.cpp:7734-7930 | undisturbed, each bridge result answers the query or lowers a bound on the results still needed, replays included |
| `AsyncDirectory.PollBringsAnswersCloser` | src/smb_server.cpp:7684-8034 | the same for the whole queue: each undisturbed call lowers the bound while anything waits, and replies and waiting queries together stay as many as they were |
| `AsyncDirectory.QueriesAreAnswered` | src/smb_server.cpp:7684-8034 | from every reachable state: after as many undisturbed calls as the bound says, every query that waited has got exactly one reply |
| `AsyncDirectory.RunKeepsInv` | src/smb_server.cpp:7684-8034 | the invariant behind the exactly-once theorem, over runs with foreign disk activity between the steps |
| `AsyncDirectory.PollKeepsInv` | src/smb_server.cpp:7684-8034 | one poll keeps it |
| `AsyncDirectory.TakeResultKeepsInv` | src/smb_server.cpp:7734-7930 | each phase of the result branch keeps it: closing, opening, replaying, reading |
| `AsyncDirectory.AdvanceKeepsInv` | src/smb_server.cpp:7943-8034 | answering from memory or submitting the next request keeps it |
| `AsyncDirectory.ReadEntryConserves` | src/smb_server.cpp:7869-7904 | one entry read ends in exactly one place: dropped by the mask, batched, carried over or sent |
| `AsyncDirectorySteps.EntryGoes` | src/smb_server.cpp:7869-7925 | which of these places it is, and when a batch goes out: an entry that does not fit is carried over, behind the batch or behind BUFFER_TOO_SMALL |
| `AsyncDirectorySteps.ResultMeans` | src/smb_server.cpp:7734-7930 | what the results of closing, opening, replaying and reading change, and how each end of the directory is answered |
| `AsyncDirectorySteps.TakenUp` | src/smb_server.cpp:7948-7970 | a restart flag sets the index to 0, clears the end and the carried entry and gives the channel up; a name becomes the pattern; both once per query |
| `AsyncDirectory.SelectedIsFilter` | src/smb_server.cpp:7871-7877 | with one pattern the entries let through are the declarative filter of the directory |
| `AsyncDirectory.DirectoryQueue.ReplyEntries` | src/smb_server.cpp:6499-6641 | one reply with exactly these entries is sent and noted, and the query is over |
| `AsyncDirectory.DirectoryQueue.ReplyStatus` | src/smb_server.cpp:6605-6641 | a status answer frees the query |
| `AsyncDirectory.DirectoryQueue.TakeEntry` | src/smb_server.cpp:7869-7925 | the read branch for an entry |
| `AsyncDirectory.DirectoryQueue.TakeBridgeResult` | src/smb_server.cpp:7734-7930 | the result branch |
| `AsyncDirectory.DirectoryQueue.PrepareActive` | src/smb_server.cpp:7948-7970 | the method takes a query up as the specification does, whose restart is ScansStartOver and TakenUp: index 0, not ended, nothing carried, a new pattern, once per query |
| `AsyncDirectory.DirectoryQueue.AdvanceActive` | src/smb_server.cpp:7971-8034 | end, carried entry, reopening after a context switch, or the next read |
| `AsyncDirectory.DirectoryQueue.PollAsyncDirectory` | src/smb_server.cpp:7684-8034 | the whole poll equals the specification |
| `TransferRanges.TotalIsCardinality` | src/smb_server.cpp:3881-3885 | the sum of a canonical list is the cardinality of the byte set it denotes, and fits 32 bits |
| `TransferRanges.CanonicalIsUnique` | src/smb_server.cpp:3805-3886 | a set of byte positions has exactly one sorted, disjoint, non-touching list |
| `TransferRanges.InsertIsCanonical` | src/smb_server.cpp:3819-3878 | merging one block keeps the list sorted, disjoint and non-touching |
| `TransferRanges.InsertCovers` | src/smb_server.cpp:3819-3878 | and adds exactly the block's bytes to what it denotes |
| `TransferRanges.InsertTotal` | src/smb_server.cpp:3881-3885 | adding the merged length and subtracting the replaced ones gives the new total, and never saturates |
| `TransferRanges.ClippedCovers` | src/smb_server.cpp:3889-3906 | clipping keeps exactly the bytes below the new size |
| `TransferRanges.ApplyRefinesReference` | src/smb_server.cpp:3792-3906 | note, clip and clear each have their effect on a plain set of positions and keep the record valid |
| `TransferRanges.RunDenotesReference` | src/smb_server.cpp:3792-3906 | over whole runs the ranges denote exactly the accepted blocks since the last change of mode, cut by later clips, and the counter is that set's size |
| `TransferRanges.SameSetSameRanges` | src/smb_server.cpp:3805-3886 | equal denotations mean equal lists |
| `TransferRanges.OrderAndRepetitionDoNotMatter` | src/smb_server.cpp:3805-3886 | the same blocks in any order and number give the same ranges, and more blocks never a smaller count |
| `TransferRanges.NoteAnswers` | src/smb_server.cpp:3805-3887 | which blocks are noted at all: not empty ones, not those without a mode, not those past 2^32, and not when memory is refused; and what a change of mode clears |
| `TransferRanges.NewCapacityIs` | src/smb_server.cpp:3842-3853 | the new capacity is the least of 8, 16, 32 and so on that suffices, starting from the old one, unless doubling would pass SIZE_MAX |
| `TransferRanges.Handle.ClearTransferProgress` | src/smb_server.cpp:3792-3803 | clears the record, and the memory only when asked |
| `TransferRanges.Handle.FindMerged` | src/smb_server.cpp:3819-3840 | the two scanning loops find the touched ranges, their hull and their total |
| `TransferRanges.Handle.Reserve` | src/smb_server.cpp:3842-3870 | the doubling loop ends, and the list survives the move to larger memory |
| `TransferRanges.Handle.Replace` | src/smb_server.cpp:3872-3879 | memmove of the tail splices the merged range in |
| `TransferRanges.Handle.MergeBlock` | src/smb_server.cpp:3819-3886 | ranges, counter and capacity after one block, or nothing changed when memory is refused |
| `TransferRanges.Handle.NoteTransferProgress` | src/smb_server.cpp:3805-3887 | mode change, empty and overflowing blocks and refused memory included, the record of the specification |
| `TransferRanges.Handle.ClipTransferProgress` | src/smb_server.cpp:3889-3906 | the in-place loop clips as specified |
| `LockTable.IoConflictsIffByteForbidden` | src/smb_server.cpp:2357-2387 | a READ or WRITE is refused exactly when some byte of it is forbidden (section 2.1.4.10 of MS-FSA) |
| `LockTable.RangeConflictsIffByteRefused` | src/smb_server.cpp:2326-2355 | a LOCK element conflicts exactly when some byte of it is refused |
| `LockTable.ExclusiveMeansAlone` | src/smb_server.cpp:2326-2387 | over an exclusively locked byte no other Open reads, writes or holds a lock, and the owner reads |
| `LockTable.GoodFlagsAre` | src/smb_server.cpp:9227-9237 | the flag test accepts exactly four words, two of them only for a single element |
| `LockTable.WrapsIffTooLong` | src/smb_server.cpp:9193-9197 | the 64-bit wrap test refuses exactly the ranges that pass 2^64 |
| `LockTable.UnlockFinds` | src/smb_server.cpp:9204-9223 | UNLOCK finds an own lock of exactly that range, an exclusive one if there is one, and RANGE_NOT_LOCKED exactly if there is none |
| `LockTable.RequestKinds` | src/smb_server.cpp:9168-9190 | a closed handle is answered FILE_CLOSED, a directory or an empty request INVALID_PARAMETER, and the unlock flag of the first element decides which kind the request is |
| `LockTable.UnlockFromAnswers` | src/smb_server.cpp:9199-9225 | an UNLOCK request frees one own lock of exactly its range for each element, different ones, until the first element that is malformed or has none, and answers accordingly |
| `LockTable.ClearedRestores` | src/smb_server.cpp:9243-9247 | rolling back the added slots restores the table exactly |
| `LockTable.AddedHasRoom` | src/smb_server.cpp:9188-9189 | the local array of added slots is never overrun |
| `LockTable.LockFromResult` | src/smb_server.cpp:9191-9273 | a LOCK request keeps the invariant; LOCK_NOT_GRANTED leaves the table as before; success grants every element, exclusively exactly for flags 0x2 and 0x12 (LockRequestAnswers) |
| `LockTable.LockRequestAnswers` | src/smb_server.cpp:9188-9273 | the elements before the first bad one each fill the first free slot with their range, owner and file, exclusive exactly if their flags are 0x2 or 0x12; then SUCCESS, or the error of that element: malformed, no slot, or in conflict byte by byte, and in the last two cases all slots are taken back |
| `LockTable.GrantedBytesAreProtected` | src/smb_server.cpp:9237-9260 | after SUCCESS every byte of an exclusive element (flags 0x2, 0x12) is forbidden to every other Open for reading and writing; every byte of a shared one (0x1, 0x11) is forbidden for writing, to its owner too, and such an element alone forbids no reading; a single element changes nothing about what its owner may read |
| `LockTable.FailureKeepsTableIff` | src/smb_server.cpp:9229-9261 | the other two failures leave the table as before exactly when the first element is malformed or the table is full |
| `LockTable.MalformedElementKeepsEarlierLock` | src/smb_server.cpp:9229-9237 | a good element followed by a malformed one: the request fails and the first lock stays |
| `LockTable.RequestKeepsInv` | src/smb_server.cpp:9168-9273 | every request keeps the invariant, and LOCK_NOT_GRANTED changes nothing |
| `LockTable.ReleasedKeepsInv` | src/smb_server.cpp:2313-2324 | closing removes exactly the locks of that Open |
| `LockTable.RunKeepsInv` | src/smb_server.cpp:2313-2387 | over all runs of LOCK, UNLOCK and close: locks sharing a byte are never both exclusive, and an exclusive one tolerates only its own Open |
| `LockTable.LocksThatShareAByte` | src/smb_server.cpp:2313-2387 | the same in terms of one byte: of two locks that contain it not both are exclusive, and if one is they have the same owner |
| `LockTable.ByteRangeLocks.LockRangeConflicts` | src/smb_server.cpp:2326-2355 | the loop decides the conflict of the specification |
| `LockTable.ByteRangeLocks.FileIoConflictsWithLock` | src/smb_server.cpp:2357-2387 | likewise for READ and WRITE |
| `LockTable.ByteRangeLocks.ReleaseByteRangeLocksForHandle` | src/smb_server.cpp:2313-2324 | the loop releases the locks of one Open |
| `LockTable.ByteRangeLocks.FindOwn` | src/smb_server.cpp:9204-9218 | the search loop of UNLOCK |
| `LockTable.ByteRangeLocks.Rollback` | src/smb_server.cpp:9243-9246 | the rollback loop |
| `LockTable.ByteRangeLocks.TakeLocks` | src/smb_server.cpp:9191-9272 | the element loop of a LOCK request: table and status are those that LockRequestAnswers and GrantedBytesAreProtected speak about |
| `LockTable.ByteRangeLocks.DropLocks` | src/smb_server.cpp:9199-9225 | the element loop of an UNLOCK request |
| `LockTable.ByteRangeLocks.LockHandler` | src/smb_server.cpp:9168-9273 | the whole handler: status and table of the specification, the invariant kept; with GrantedBytesAreProtected, an exclusive request that succeeds leaves exclusive locks |
| `Wildcard.AcceptsWhatTheMaskMeans` | src/smb_server.cpp:587-613 | for every mask and every name without a star the one-backtrack-point loop accepts exactly what the mask means; for other names it accepts nothing more |
| `Wildcard.EarliestPlacementSuffices` | src/smb_server.cpp:587-613 | why one backtrack point is enough: a later star makes other placements of the piece before it unnecessary |
| `Wildcard.StarInNameIsTakenLiterally` | src/smb_server.cpp:587-613 | a name that does contain a star, for which the loop misses a match |
| `Wildcard.WildcardMatch` | src/smb_server.cpp:587-613 | the loop terminates and returns that answer |
| `AsciiText.SameIsPointwise` | src/directory_cache.cpp:92-105 | folded strings are equal exactly when they agree letter by letter |
| `SpscRing.PowerOfTwoCheckDividesWord` | src/spsc_ring.cpp:21-40 | the bit trick in attach accepts exactly powers of two, which divide 2^32 |
| `SpscRing.WrapKeepsSlotsIffDivides` | src/spsc_ring.cpp:21-40 | the 32-bit counters may wrap anywhere exactly when the capacity divides 2^32 |
| `SpscRing.ReaderObtainsPrefix` | src/spsc_ring.cpp:75-145 | for every interleaving of atomic loads, byte copies and stores, and any number of counter wraps: read() returned exactly a prefix of what write() accepted, and unread bytes never exceed the capacity |
| `SpscRing.RunKeepsInv` | src/spsc_ring.cpp:75-145 | the invariant over every interleaving |
| `SpscRing.WriterKeepsInv` | src/spsc_ring.cpp:75-96 | every atomic step of the writing core keeps it |
| `SpscRing.ReaderKeepsInv` | src/spsc_ring.cpp:98-145 | every atomic step of the reading core keeps it |
| `SpscRing.AttachedInv` | src/spsc_ring.cpp:21-46 | a freshly attached ring satisfies it |
| `SpscRing.WriteAppends` | src/spsc_ring.cpp:75-96 | undisturbed, write() accepts as many bytes as there is room for, in order |
| `SpscRing.ReadTakesOldest` | src/spsc_ring.cpp:142-145 | undisturbed, read() hands out the oldest unread bytes, each once |
| `SpscRing.PeekReadsTheQueue` | src/spsc_ring.cpp:102-127 | whatever the other core writes meanwhile, peekAt() reads the queue of unread bytes at its offset, as many as wanted if they were there, and removes none |
| `SpscRing.DiscardDropsTheOldest` | src/spsc_ring.cpp:129-140 | and discard() removes the oldest of them and nothing else, all that were asked for if they were there |
| `SpscRing.CallsBegin` | src/spsc_ring.cpp:75-145 | a call begins exactly when its core is idle and something is asked for, with the arguments of the call |
| `SpscRing.SpscByteRing.Attach` | src/spsc_ring.cpp:21-40 | refuses a capacity that is not a power of two, otherwise an empty ring |
| `SpscRing.SpscByteRing.Available` | src/spsc_ring.cpp:48-56 | the number of unread bytes, exact after wrapping |
| `SpscRing.SpscByteRing.FreeSpace` | src/spsc_ring.cpp:58-60 | the capacity less the number of unread bytes |
| `SpscRing.SpscByteRing.WriterAction` | src/spsc_ring.cpp:75-96 | one atomic step of the writer on the real fields is that step of the system |
| `SpscRing.SpscByteRing.ReaderAction` | src/spsc_ring.cpp:98-145 | one atomic step of the reader likewise |
| `SpscRing.SpscByteRing.Write` | src/spsc_ring.cpp:75-96 | a whole write() with the other core silent |
| `VfsExchange.PendingIffTokenIsOut` | src/vfs_bridge.cpp:92-146 | in every reachable two-core state the pending flag holds exactly when the token is in one of request queue, core 1, response queue |
| `VfsExchange.CoresNeverShareTheBlock` | src/vfs_bridge.cpp:92-146 | neither core touches the shared block while the other does, and no queue send is refused or overwrites |
| `VfsExchange.ResultAnswersLastRequest` | src/vfs_bridge.cpp:243-254 | requests are answered one for one, in order, untorn, and a taken result answers the last request submitted |
| `VfsExchange.ExchangeCompletes` | src/vfs_bridge.cpp:92-254 | between exchanges any request can be submitted: undisturbed, core 1 reads exactly its fields, core 0 takes exactly the answer, and the bridge is between exchanges again |
| `VfsExchange.RunKeepsInv` | src/vfs_bridge.cpp:92-146 | the invariant over every interleaving |
| `VfsExchange.ExchangeBlock.Core0Action` | src/vfs_bridge.cpp:92-146 | one step of core 0 on the real fields |
| `VfsExchange.ExchangeBlock.Core1Action` | src/vfs_bridge.cpp:548-558 | one step of core 1 likewise |
| `VfsExchange.ExchangeBlock.Submit` | src/vfs_bridge.cpp:92-146 | refused while an earlier request is out |
| `VfsExchange.ExchangeBlock.TakeResult` | src/vfs_bridge.cpp:243-254 | succeeds exactly when core 1 has responded |
| `VfsPump.Pump.ProcessWrite` | src/vfs_bridge.cpp:311-346 | of min(value, available) bytes exactly min(that, n * limit) leave the ring, in order, n being the windows acknowledged before the first that was not; every window offered is the next slice of the ring, and the error is reported exactly if one was not acknowledged |
| `VfsPump.Pump.PumpWindows` | src/vfs_bridge.cpp:318-345 | the loop: window after window, each dropped only after its acknowledgement, up to the first one without |
| `VfsPump.Pump.PumpWindow` | src/vfs_bridge.cpp:321-344 | one turn: dropped whole if acknowledged, kept whole if not; the "ingress-race" error is never reported, although core 0 pushes more meanwhile |
| `VfsPump.Pump.Discard` | src/vfs_bridge.cpp:336-339 | what is dropped is the oldest part of the ring, and nothing may be dropped that no acknowledged window holds |
| `VfsPump.Pump.WriteFileWindow` | src/vfs_client.cpp:805-907 | a window is acknowledged only if its frames went out complete and in order; after a failure nothing more goes out; the line carries the frames of the windows offered and nothing else |
| `VfsPump.Pump.SendFrames` | src/vfs_client.cpp:839-886 | the frames cut the window into consecutive fragments with start and end marks; if the line refuses one, those sent cut a beginning of it |
| `VfsPump.Pump.TakeFragment` | src/vfs_bridge.cpp:348-352 | a fragment read at its offset is that slice of the window, while core 0 may push more |
| `VfsPump.WindowsAreTheBytes` | src/vfs_bridge.cpp:311-346 | the acknowledged windows taken together, and the frames the line carried for them, are the beginning of the ring's bytes |
| `VfsPump.ProgressIsProduct` | src/vfs_bridge.cpp:318-345 | n windows hold min(requested, n * limit) bytes |
| `VfsPump.Pump.ProcessRead` | src/vfs_bridge.cpp:284-309 | the Z80 is asked for min(value, limit, room in the ring); the ring gains exactly the data of the accepted frames, and the end is reported exactly if the window was good and empty |
| `VfsPump.Pump.ReadFileWindow` | src/vfs_client.cpp:446-560 | whatever the Z80 answers: every accepted reply has a good header and an accepted sequence, they follow each other without gap and never exceed what was asked for; success exactly if they end in a checked last frame whose announced total, common to all of them, is the bytes received, or at the end of the file |
| `DirectoryCaches.VictimIsLeastRecent` | src/directory_cache.cpp:150-174 | eviction picks the least recently used snapshot not under construction, and fails exactly when there is none |
| `DirectoryCaches.MakeRoomKeepsInv` | src/directory_cache.cpp:54-65 | the eviction loop ends with room or with nothing left to evict, and any eviction moves the revision on |
| `DirectoryCaches.InvalidatedKeepsInv` | src/directory_cache.cpp:398-438 | invalidation removes exactly the complete snapshots it hits, with their bytes, and moves the revision on exactly if there were any |
| `DirectoryCaches.StepKeepsInv` | src/directory_cache.cpp:54-438 | after every operation the byte counter is exactly the bytes of the live nodes and within the budget, and paths and addresses are pairwise distinct |
| `DirectoryCaches.StepRefinesReference` | src/directory_cache.cpp:127-148 | every operation serves, afterwards, exactly what a plain map from folded paths to listings holds after the same operation, once the evicted listings are forgotten: nothing stale is served, nothing else is lost |
| `DirectoryCaches.ServedUntilDropped` | src/directory_cache.cpp:54-438 | a path is served after an event exactly if the event finished its listing, or it was served before and the event does not start over, invalidate, restart or evict it |
| `DirectoryCaches.EvictionsAreLeastRecent` | src/directory_cache.cpp:54-65 | making room evicts nothing used later than something it keeps, never the snapshot under construction, and no more than needed |
| `DirectoryCacheSteps.GrantedIff` | src/directory_cache.cpp:54-78 | memory is granted exactly when the bytes fit the budget beside the listing under construction and the allocator has them: eviction frees everything else |
| `DirectoryCacheSteps.AppendAcceptedIff` | src/directory_cache.cpp:326-370 | an entry is appended exactly when a listing is under construction, its name has 1 to 255 bytes, it fits beside that listing, and memory is granted |
| `DirectoryCacheSteps.UsedIsMostRecent` | src/directory_cache.cpp:138-206 | a hit and a new listing get a stamp later than every other |
| `DirectoryCacheSteps.RevisionMoves` | src/directory_cache.cpp:54-438 | by how much each operation moves the revision on: one for every eviction, for an invalidation that drops anything, for a finished listing and for a restart |
| `DirectoryCaches.RunRefinesReference` | src/directory_cache.cpp:54-438 | over every run from the start the budget holds and exactly the listings of that map are served: for each path the last one finished, since it was last dropped or evicted, entry by entry |
| `DirectoryCaches.StepKeepsListing` | src/directory_cache.cpp:290-295 | every operation moves the revision on or leaves every served listing where it is |
| `DirectoryCaches.NextReadsInOrder` | src/directory_cache.cpp:452-468 | a current cursor points at the live entry of its position, or is at the end |
| `DirectoryCaches.CursorEnumeratesOnce` | src/directory_cache.cpp:440-468 | through any interleaving of appends, evictions, aborts, invalidations and updates, even with reused addresses, a cursor reads only live entries, each once and in append order |
| `DirectoryCaches.NextCallReadsNextEntry` | src/directory_cache.cpp:440-468 | so at any moment the next call reads the next entry of the listing the cursor was opened on, never freed memory, and a cursor that is still current is refused exactly when all entries were read |
| `DirectoryCaches.NextReadsCurrent` | src/directory_cache.cpp:452-468 | what a current cursor reads is the whole item the reference map holds at that place, size and stamp included |
| `DirectoryCaches.FetchesAreCurrent` | src/directory_cache.cpp:218-288 | through any such interleaving: the item read is the one the reference map, updated in place beside it, holds at that moment; what an update leaves there is UpdateMeans |
| `DirectoryCaches.UpdateMeans` | src/directory_cache.cpp:218-288 | an update is accepted exactly when the path has a listing with a file of that name and a new stamp is not zero; then the first such file has the new size, or the new date and time, and its name and other fields, all other entries and all other listings are as before |
| `DirectoryCaches.UpdateIsReadBack` | src/directory_cache.cpp:218-288 | through any later interleaving without another update of that name, a cursor that stays current reads the new size or stamp at that place |
| `DirectoryCaches.OpenStartsSession` | src/directory_cache.cpp:440-450 | a cursor opens exactly for the paths the map holds, on the listing held there |
| `DirectoryCaches.EqualNoCase` | src/directory_cache.cpp:92-105 | the loop decides equality up to ASCII case |
| `DirectoryCaches.BelongsToSubtree` | src/directory_cache.cpp:107-125 | the prefix loop decides membership of a subtree |
| `DirectoryCaches.DirectoryCache.FreeSnapshot` | src/directory_cache.cpp:297-310 | exactly the bytes allocated for a snapshot are returned, the clamp never acts |
| `DirectoryCaches.DirectoryCache.EvictOldest` | src/directory_cache.cpp:150-174 | the scan finds the least recently used snapshot, which is released with its bytes |
| `DirectoryCaches.DirectoryCache.AllocateBytes` | src/directory_cache.cpp:54-78 | evicts until the request fits, then counts it |
| `DirectoryCaches.DirectoryCache.FindAnySnapshot` | src/directory_cache.cpp:127-136 | the search loop finds the snapshot of that path, finished or not |
| `DirectoryCaches.DirectoryCache.FindSnapshot` | src/directory_cache.cpp:138-148 | a hit refreshes the stamp |
| `DirectoryCaches.DirectoryCache.InvalidateScan` | src/directory_cache.cpp:398-438 | the loop that unlinks while it walks |
| `DirectoryCaches.DirectoryCache.InvalidateTarget` | src/directory_cache.cpp:398-438 | list, bytes and revision after invalidation |
| `DirectoryCaches.DirectoryCache.StartSnapshot` | src/directory_cache.cpp:188-206 | beginSnapshot and markUncacheable |
| `DirectoryCaches.DirectoryCache.AppendEntry` | src/directory_cache.cpp:345-370 | append, refused names and refused memory included |
| `DirectoryCaches.DirectoryCache.FinishSnapshot` | src/directory_cache.cpp:372-380 | the snapshot under construction becomes visible and the revision moves on |
| `DirectoryCaches.DirectoryCache.AbortSnapshot` | src/directory_cache.cpp:382-396 | the unfinished snapshot is unlinked and freed |
| `DirectoryCaches.DirectoryCache.BeginCache` | src/directory_cache.cpp:312-324 | the cache is emptied, its bytes are returned, and it is enabled if there is external memory |
| `DirectoryCaches.DirectoryCache.Open` | src/directory_cache.cpp:440-450 | a hit gives a cursor at the first entry with the current revision, a miss a closed one |
| `DirectoryCaches.DirectoryCache.NextEntry` | src/directory_cache.cpp:452-468 | a cursor at some position of its listing reads the live entry of that position, as the reference map holds it now, and moves to the next, exactly if the revision is still its own and the listing is not at its end |
| `DirectoryCaches.DirectoryCache.UpdateEntry` | src/directory_cache.cpp:218-288 | a size or stamp changes in place, without a new revision, as UpdateMeans says field by field |
| `ConfigStores.ParseIffImage` | src/config_store.cpp:63-92 | a file is accepted exactly when it is, byte for byte, the image of the text it yields |
| `ConfigStores.TornImageIsRejected` | src/config_store.cpp:63-92 | no proper prefix of an image is accepted |
| `ConfigStores.OneAlteredByteIsRejected` | src/config_store.cpp:63-92 | no image with one altered byte is accepted, in the header or in the text |
| `ConfigStores.SaveIsSafeUnlessItLoses` | src/config_store.cpp:130-172 | interrupted after any step, whatever operations fail, load returns the previous image or the complete new one, exactly outside the one losing case |
| `ConfigStores.LosingSave` | src/config_store.cpp:154-171 | a damaged main file, the good text in the backup, a rename that fails: nothing can be loaded afterwards |
| `ConfigStores.PowerLossIsSafeIff` | src/config_store.cpp:130-172 | with working flash, exactly when the image to keep is not in the file the first step removes |
| `ConfigStores.RunsAreSafe` | src/config_store.cpp:130-172 | over every run of saves on working flash, each finished or cut off anywhere, load returns the image there was or the one being saved, if no more in a row are cut off than the margin of the files allows |
| `ConfigStores.MarginAfter` | src/config_store.cpp:130-172 | a save that is cut off costs at most one of the margin (two with a good main file, one if load does not return the staged file, else none); a finished one restores it |
| `ConfigStores.MarginIsExact` | src/config_store.cpp:94-172 | from every state of the files one save more, cut off at the wrong moments, leaves load with neither image |
| `ConfigStores.FinishedSaveLoads` | src/config_store.cpp:130-172 | a save that answers success loads as the new image, from any state of the files |
| `ConfigStores.FailedSaveShowsIff` | src/config_store.cpp:130-172 | exactly when a failed save changes what load returns |
| `ConfigStores.SaveKeepsAgreementIff` | src/config_store.cpp:174-200 | the remembered checksum and length describe what load returns after every save, exactly except after such a failure |
| `ConfigStores.UnchangedAlthoughLost` | src/config_store.cpp:174-200 | in that case saving the kept text again is answered "unchanged", although no file holds it |
| `ConfigStores.SaveIsSkippedIff` | src/config_store.cpp:174-200 | from a state whose remembered pair describes the flash: the answer is "unchanged" exactly when the storage is available and load returns a text of the same length and the same CRC-32 |
| `ConfigStores.ChangedTextIsStored` | src/config_store.cpp:174-200 | so on working flash a text that differs from the loaded one in length or in exactly one byte is always stored, and load returns it |
| `ConfigStores.DifferentTextIsSkipped` | src/config_store.cpp:181-185 | two different texts of five bytes with one CRC-32: with the first in flash, saving the second is answered "unchanged" and writes nothing |
| `ConfigStores.SaveLeaves` | src/config_store.cpp:130-172 | for every outcome of every file operation, which of the three files hold what afterwards |
| `ConfigStores.Flash.WriteStaged` | src/config_store.cpp:134-147 | every prefix of the image is a state a reset may leave |
| `ConfigStores.ConfigStore.LoadImage` | src/config_store.cpp:94-128 | the three candidates in order; the remembered pair agrees with the flash |
| `ConfigStores.ConfigStore.Commit` | src/config_store.cpp:154-171 | the two renames with their undo, state by state |
| `ConfigStores.ConfigStore.WriteNewFile` | src/config_store.cpp:130-172 | every state and the answer, for every outcome of every file operation |
| `ConfigStores.ConfigStore.SaveIfChanged` | src/config_store.cpp:174-200 | result, remembered pair and file states of the specification, for which SaveIsSkippedIff says when nothing is written |
| `FatAllocation.ExtendIsStreaming` | src/fat_allocation_cache.cpp:117-148 | taking in two chunks in a row equals taking in their concatenation |
| `FatAllocation.IngestedIsBuilt` | src/fat_allocation_cache.cpp:117-148 | a chunk at the current offset is taken in whole |
| `FatAllocation.FinishedIsExact` | src/fat_allocation_cache.cpp:80-162 | after a successful prepare and for any split of the map into chunks finish succeeds exactly when every cluster was seen; then the free counter is the number of clear bits of clusters 2 to total + 1 and allocated(c) is bit c |
| `FatAllocation.PreparedIsBuilt` | src/fat_allocation_cache.cpp:80-115 | a successful prepare starts with the empty map, all bits clear, whatever was there before |
| `FatAllocation.PreparedKeepsMapIff` | src/fat_allocation_cache.cpp:80-115 | prepare keeps memory behind a map in use exactly unless a map of another size is refused its memory |
| `FatAllocation.OtherStepsKeepMap` | src/fat_allocation_cache.cpp:72-192 | every other operation keeps it |
| `FatAllocation.RefusedPrepareLosesMap` | src/fat_allocation_cache.cpp:80-104 | a finished map, then a larger volume and no memory: the cache stays valid and has no bits |
| `FatAllocation.WithBitSets` | src/fat_allocation_cache.cpp:141-142 | setting one bit changes that bit only |
| `FatAllocation.ApplyConserves` | src/fat_allocation_cache.cpp:164-192 | a resize that fits moves clusters between the file and the free ones; no clamp acts |
| `FatAllocation.RunConserves` | src/fat_allocation_cache.cpp:164-192 | over any run of resizes that fit, free clusters plus the sum of ceil(size/cluster) is constant |
| `FatAllocation.ClampActsIff` | src/fat_allocation_cache.cpp:182-191 | the sum is kept exactly when the resize fits |
| `FatAllocationSteps.PrepareAcceptedIff` | src/fat_allocation_cache.cpp:80-115 | a volume is accepted exactly when the cache is enabled, the volume is not empty, its FAT holds four bytes for each cluster and two more, a bit for each fits 512 KiB, and there is memory |
| `FatAllocationSteps.ChunkAcceptedIff` | src/fat_allocation_cache.cpp:117-148 | a chunk is taken in exactly when it is the next one and within the FAT; any other ends the map |
| `FatAllocationSteps.FinishedMatches` | src/fat_allocation_cache.cpp:194-200 | a finished map matches exactly the volume it was prepared for |
| `FatAllocationSteps.ResizeMeans` | src/fat_allocation_cache.cpp:164-192 | the free counter after a change of size, with both clamps, in clusters rounded up |
| `FatAllocation.FatAllocationCache.Invalidate` | src/fat_allocation_cache.cpp:72-78 | the map is no longer valid nor being built, its memory stays |
| `FatAllocation.FatAllocationCache.Prepare` | src/fat_allocation_cache.cpp:80-115 | accepts exactly the geometries that fit, and starts an empty map |
| `FatAllocation.FatAllocationCache.IngestEntries` | src/fat_allocation_cache.cpp:131-145 | the nested loops over bytes and bits |
| `FatAllocation.FatAllocationCache.IngestMap` | src/fat_allocation_cache.cpp:117-148 | order and bounds checks, with the 32-bit offset |
| `FatAllocation.FatAllocationCache.Finish` | src/fat_allocation_cache.cpp:150-162 | valid exactly if a map was being built, every cluster of it has arrived and the free count is possible, otherwise invalidated |
| `FatAllocation.FatAllocationCache.NoteResize` | src/fat_allocation_cache.cpp:164-192 | the free counter after a change of size, with both clamps |
| `FatAllocation.FatAllocationCache.IsAllocated` | src/fat_allocation_cache.cpp:202-208 | the bit of the cluster if the map is valid and the cluster exists, otherwise false, in every state with memory behind the map |
| `Calendar.DaysFromCivilIsDayCount` | src/fat_time.cpp:16-25 | daysFromCivil is the number of days counted one year and one month at a time, before and after 1970 |
| `Calendar.CivilFromDaysIsInverse` | src/fat_time.cpp:27-42 | civilFromDays always yields a real date, the one with that day number |
| `Calendar.DayCountIsInjective` | src/fat_time.cpp:16-25 | different dates have different day numbers |
| `Calendar.DateRoundTrip` | src/fat_time.cpp:16-42 | every real date survives the trip through its day number |
| `Calendar.LeapIsFloor` | src/fat_time.cpp:44-46 | the truncating remainders of the leap-year test are right for negative years too |
| `FatTime.UnixRoundTrip` | src/fat_time.cpp:85-101 | every second has a real date and time, and is the second they name |
| `FatTime.CivilRoundTrip` | src/fat_time.cpp:85-101 | and every real date and time survives |
| `FatTime.StampRoundTrip` | src/fat_time.cpp:103-151 | FAT stamp to Unix time and back is the identity on valid stamps, in any time zone |
| `FatTime.PackedIsSum` | src/fat_time.cpp:146-149 | the fields of a stamp do not overlap when they are shifted into place: their or is their sum, and no bit is cut off |
| `FatTime.FieldsAreDigits` | src/fat_time.cpp:108-113 | shifts and masks read them by division |
| `FatTime.UnixStampRoundTrip` | src/fat_time.cpp:117-151 | Unix time to FAT stamp and back loses exactly the parity of the local second, and fails exactly outside 1980 to 2107 |
| `FatTime.StampAcceptedIff` | src/fat_time.cpp:103-115 | a stamp is accepted exactly when its date exists and its clock is in range |
| `FatTime.FileTimeAcceptedIff` | src/fat_time.cpp:201-215 | which FILETIME values are converted |
| `FatTime.FileTimeRoundTrip` | src/fat_time.cpp:201-215 | FILETIME to Unix undoes Unix to FILETIME exactly from 1970 on, within 64 bits |
| `FatTime.FileTimeFractionLost` | src/fat_time.cpp:201-215 | the other way loses only the fraction of a second |
| `FtpTime.TakeDigitsLoop` | src/fat_time.cpp:70-81 | the digit loop |
| `FtpTime.ParseFtpTimeValLoop` | src/fat_time.cpp:153-187 | the cursor loops parse as specified, the fraction skipped |
| `FtpTime.ParseUndoesFormat` | src/fat_time.cpp:153-199 | parsing undoes formatting for the years 1 to 9999 (section 2.3 of RFC 3659), whatever follows: a point must have a digit behind it, and the fraction is skipped |
| `FtpTime.FormatUndoesParse` | src/fat_time.cpp:153-199 | and formatting gives back the digits parsed |
| `FtpTime.ParseAcceptsIff` | src/fat_time.cpp:153-187 | a text is accepted exactly when fourteen digits name a real date from year 1 on and a clock in range, and a point behind them has a digit behind it |
| `FtpTime.FractionIsDigits` | src/fat_time.cpp:176-184 | the fraction skipped is the longest run of digits behind the point |
| `FtpTime.FormatFitsItsBuffer` | src/fat_time.cpp:189-199 | a formatted time never has more than 14 characters and is the beginning of its padded fields |
| `FtpTime.TwoCalendarsAgree` | src/ntp_time.cpp:21-38 | the second calendar names the same date for every day number, and refuses exactly the years outside 0 to 9999 |
| `FtpTime.NtpYearFits` | src/ntp_time.cpp:42-67 | no NTP time in any time zone falls outside those years |
| `FtpTime.PrintedDateIsNtpTime` | src/ntp_time.cpp:42-84 | the printed date and time, counted in days from 1 January 1900 and less the time zone, is the NTP time modulo 2^32 seconds, in the era from 1970 on |
| `FtpTime.FormatNtpTimestamp` | src/ntp_time.cpp:42-84 | the NTP formatter prints the text of the FTP formatter, for every time and time zone; the date in it is PrintedDateIsNtpTime |
| `Checksums.Crc32DetectsOneByte` | src/protocol.cpp:139-151 | two texts of one length that differ in one byte have different CRC-32s |
| `Checksums.ComputeCrc32` | src/protocol.cpp:139-151 | the nested loops compute that checksum |
| `Checksums.Crc16IsStreaming` | src/protocol.cpp:121-133 | cutting the data into fragments does not change the CRC-16 |
| `Checksums.Crc16Update` | src/protocol.cpp:121-133 | the nested loops of the update |
| `ChecksumValues.Crc16CheckValue` | src/protocol.cpp:121-133 | the nine digits have the CRC-16 0x29B1 of CRC-16/CCITT-FALSE |
| `ChecksumValues.Crc32CheckValue` | src/protocol.cpp:139-151 | and the CRC-32 0xCBF43926 |
| `FrameProtocol.FeedKeepsInv` | src/protocol.cpp:37-97 | from every reachable state the payload index is in bounds, and a delivered packet has the announced length |
| `FrameProtocol.FeedCounts` | src/protocol.cpp:37-97 | a packet is delivered exactly at a right checksum byte; a wrong one is counted as bad, a length over 1024 as a resynchronisation, and all three leave the parser waiting for the next frame |
| `FrameProtocol.FrameParses` | src/protocol.cpp:37-97 | a frame is delivered exactly when its checksum byte is right, and the parser waits for the next one |
| `FrameProtocol.FramesParseBack` | src/protocol.cpp:37-119 | after any garbage without 0x5A the frames of any packets deliver exactly those packets, in order |
| `FrameProtocol.OneAlteredByteIsRefused` | src/protocol.cpp:37-97 | a frame with one altered command, payload or checksum byte is never delivered, and the next frame still is |
| `FrameProtocol.QuietRunIsItsBytes` | src/protocol.cpp:26-35 | without a timeout inside a frame the packets depend on the bytes alone |
| `FrameProtocol.TimeoutMeans` | src/protocol.cpp:26-35 | what a silence of 500 ms or more changes, by 32-bit subtraction of the clock |
| `FrameProtocol.SilenceResynchronises` | src/protocol.cpp:26-35 | after half a second of silence the following frames are all delivered, from any state |
| `FrameProtocol.ChunkingDoesNotMatter` | src/uart_transport.cpp:27-60 | once the line was read, in any chunks, exactly the packets sent have been handed out |
| `FrameProtocol.FrameParser.FeedByte` | src/protocol.cpp:37-97 | the parser object follows the specification byte by byte |
| `FrameProtocol.FrameParser.CheckIdle` | src/protocol.cpp:26-35 | the parser is reset exactly if a frame was begun and the 32-bit time since its last byte reaches the limit |
| `FrameProtocol.WriteFrame` | src/protocol.cpp:99-119 | true exactly when all three writes succeed, and then the frame is on the wire |
| `FrameProtocol.UartTransport.FeedChunk` | src/uart_transport.cpp:50-57 | the inner loop feeds every byte of the chunk once |
| `FrameProtocol.UartTransport.Poll` | src/uart_transport.cpp:27-60 | every byte is fed once and in order, and the packet handed out is the parser's; without one the refills are used up or the chunk is, and if no refill was empty and there were more refills than unread bytes, so is the line |
| `Sha1Hash.PadIsShortest` | src/git_sha1.cpp:104-117 | the padding is the shortest one that makes whole blocks (section 5.1.1 of FIPS 180-4) |
| `Sha1Hash.PadIsInjective` | src/git_sha1.cpp:104-117 | different messages are padded differently |
| `Sha1Hash.CodeFIsF` | src/git_sha1.cpp:59-71 | the or-forms of the round functions are those of the standard |
| `Sha1Hash.FedBlock` | src/git_sha1.cpp:86-102 | completing the buffer hashes one block of the message |
| `Sha1Hash.Sha1.Schedule` | src/git_sha1.cpp:38-50 | the message schedule |
| `Sha1Hash.Sha1.Block` | src/git_sha1.cpp:38-84 | the eighty rounds equal the recursive definition (section 6.1.2) |
| `Sha1Hash.Sha1.Update` | src/git_sha1.cpp:86-102 | the state after any pieces is the state of their concatenation |
| `Sha1Hash.Sha1.Finish` | src/git_sha1.cpp:104-124 | the zero loop ends, and the digest is the SHA-1 of the message |
| `Sha1Values.AbcDigest` | src/git_sha1.cpp:38-124 | the digest of "abc" is the one of the worked example of FIPS 180-4 |
| `Sha1Hash.GitBlobDigest` | src/git_sha1.cpp:126-134 | the digest of a file is that of its git header and contents, however they arrive |
| `Sha1Hash.ParseSha1Hex` | src/git_sha1.cpp:136-149 | accepts exactly forty hexadecimal digits |
| `Sha1Hash.HexValueIsOnly` | src/git_sha1.cpp:13-24 | the only characters with a value are the digits of both cases, each with its place as value |
| `Sha1Hash.FormatSha1Hex` | src/git_sha1.cpp:151-158 | the digit pairs |
| `Sha1Hash.ParseUndoesFormat` | src/git_sha1.cpp:136-158 | parsing the formatted digits returns the digest |
| `Sha1Hash.FormatUndoesParse` | src/git_sha1.cpp:136-158 | formatting what was parsed returns the digits in lower case |
| `FtpPath.NormalIsCanonical` | src/ftp_server.cpp:505-560 | from a canonical directory the result starts with a slash, has plain components only and at most 255 bytes |
| `FtpPath.NoTrailingSlash` | src/ftp_server.cpp:505-560 | only the root ends with a slash |
| `FtpPath.PartsOfJoin` | src/ftp_server.cpp:505-560 | splitting a rendered path gives its components back |
| `FtpPath.NormalIsIdempotent` | src/ftp_server.cpp:505-560 | a canonical path normalises to itself, from any directory |
| `FtpPath.NormalComposes` | src/ftp_server.cpp:505-560 | entering a and then relative b is entering a/b, failures included |
| `FtpPath.RelativeStep` | src/ftp_server.cpp:520-557 | an argument of one component is one step: "." stays, ".." goes up, any other goes down unless the path would pass 255 bytes |
| `FtpPath.RootedIgnoresDirectory` | src/ftp_server.cpp:505-560 | an argument that begins with a slash or backslash does not depend on the current directory |
| `FtpPath.BackslashesAreSlashes` | src/ftp_server.cpp:505-560 | a backslash separates like a slash |
| `FtpPath.NextComponent` | src/ftp_server.cpp:526-534 | the copying loop stays within its buffer |
| `FtpPath.Ascend` | src/ftp_server.cpp:538-548 | ".." in the buffer removes the last component |
| `FtpPath.Descend` | src/ftp_server.cpp:549-557 | a component is appended unless the path gets too long |
| `FtpPath.ApplyComponent` | src/ftp_server.cpp:535-557 | one component on the buffer is one step of the stack |
| `FtpPath.NormalizePath` | src/ftp_server.cpp:505-560 | the buffer ends with the path of the folded stack, and the call fails exactly when the fold does |
| `JsonText.SkipExact` | src/github_tree.cpp:156-198 | every value of the grammar, of any depth, white space included and before a delimiter: skipValue consumes exactly its text if its strings can be decoded and it nests at most 32 deep, and refuses it otherwise (sections 2 to 7 of RFC 8259) |
| `JsonText.SkipSound` | src/github_tree.cpp:156-198 | whatever skipValue accepts is such a value, and it consumes exactly its text |
| `JsonText.NumberExact` | src/github_tree.cpp:206-233 | a number of the grammar is consumed exactly |
| `JsonText.NumberSound` | src/github_tree.cpp:206-233 | and nothing else is accepted |
| `JsonText.BodyExact` | src/github_tree.cpp:38-116 | a string of the grammar is decoded to what its characters and escapes mean, surrogate pairs included, and refused if it means nothing |
| `JsonText.MeansIffPaired` | src/github_tree.cpp:84-108 | it means something exactly if no escape is zero and every surrogate escape is half of a pair |
| `JsonText.ZeroEscapeIsRefused` | src/github_tree.cpp:84-90 | a string of the grammar that skipValue refuses |
| `JsonText.BodySound` | src/github_tree.cpp:38-116 | and only strings of the grammar are accepted |
| `JsonText.Utf8IsUtf8` | src/github_tree.cpp:279-303 | every code point is written in its shortest UTF-8 form and reads back as itself (section 3 of RFC 3629) |
| `JsonText.DecodedHasNoNul` | src/github_tree.cpp:84-90 | no decoded string contains a zero byte |
| `GithubTree.SizesAreExact` | src/github_tree.cpp:120-142 | numbers below 2^64 are read exactly, and a result within 32 bits is never a remainder |
| `GithubTree.OverflowCanGoUnnoticed` | src/github_tree.cpp:130-138 | an overflow the test misses |
| `GithubTree.OverflowNoticedIff` | src/github_tree.cpp:130-138 | exactly when one step is right, and when it reports an overflow |
| `GithubTree.PathIsSafe` | src/github_tree.cpp:324-348 | accepts exactly the paths all of whose parts are safe |
| `GithubTree.SafePathStaysInside` | src/github_tree.cpp:324-348 | a safe path, resolved in any directory, only descends part by part |
| `GithubTree.JsonCursor.SkipSpace` | src/github_tree.cpp:16-21 | the cursor stops at the first character that is not white space, or at the end |
| `GithubTree.JsonCursor.Take` | src/github_tree.cpp:23-34 | white space is skipped, and the expected character is consumed exactly when it is there |
| `GithubTree.JsonCursor.TakeHex4` | src/github_tree.cpp:247-266 | four hexadecimal digits |
| `GithubTree.JsonCursor.TakeUnicode` | src/github_tree.cpp:84-108 | the Unicode-escape branch with surrogate pairs |
| `GithubTree.JsonCursor.TakeString` | src/github_tree.cpp:36-116 | the string loop decodes as specified and refuses exactly what does not fit the buffer |
| `GithubTree.JsonCursor.LiteralWord` | src/github_tree.cpp:144-153 | the word is consumed exactly when it stands behind the white space |
| `GithubTree.JsonCursor.SkipNumberText` | src/github_tree.cpp:206-233 | the loops consume exactly the number that stands there, or refuse exactly if none does |
| `GithubTree.JsonCursor.SkipValue` | src/github_tree.cpp:156-198 | the recursion and its loops accept and consume as specified; the cursor never passes the end |
| `GithubTree.JsonCursor.TakeNumber` | src/github_tree.cpp:120-142 | a value is returned exactly if a whole number without sign, fraction or exponent stands there and no overflow is noticed; it is the value of its digits, consumed exactly |
| `GitListing.ListingExact` | src/github_tree.cpp:406-516 | for every JSON document with white space behind it, of any nesting: the tree parser gets the listing the document stands for, and refuses it exactly if it stands for none |
| `GitListing.ListingSound` | src/github_tree.cpp:406-516 | whatever it accepts prints such a document, and the listing is that of the document: the entries of its "tree" lists in order, and its last "truncated" |
| `GitListing.LongNameRefusesTree` | src/github_tree.cpp:309-313 | a document with a member name too long for the key buffer is refused, whatever else it says |
| `GitListing.EntriesExact` | src/github_tree.cpp:446-512 | the entry objects of a list give its entries in order, submodules left out, and one bad object refuses the list |
| `GitListing.EntryExact` | src/github_tree.cpp:450-504 | an object gives the entry its members state, in any order, a later one overruling an earlier; refused exactly if path, type, digest or size is missing, malformed or unsafe |
| `GitListing.ParseGitTree` | src/github_tree.cpp:406-516 | succeeds exactly if the text is such a listing and its entries fit the array, which then holds them; all of them have safe paths, whole digests and sizes within 32 bits |
| `GitListing.ReadParts` | src/github_tree.cpp:420-514 | the loop over the members of the document |
| `GitListing.ReadPart` | src/github_tree.cpp:422-512 | one member: "truncated", a "tree" list, or one to be skipped |
| `GitListing.ReadList` | src/github_tree.cpp:442-512 | the brackets around the entries, an empty list included |
| `GitListing.ReadEntries` | src/github_tree.cpp:446-510 | the loop appends the entries of the list to the array, in order, and refuses exactly if one is refused or does not fit |
| `GitListing.ReadEntry` | src/github_tree.cpp:450-504 | one entry object, consumed exactly |
| `GitListing.ReadMember` | src/github_tree.cpp:460-485 | one member of an entry object, consumed exactly |
| `GitListing.ReadKey` | src/github_tree.cpp:309-313 | a name that fits the key buffer, and its colon |

## Left out

- AsyncWrites.ExactlyOneReply: for the runs whose failures all meet the condition of FailAllForgetsIff; a connection that closes later may still hide a forgotten request, so over runs it is one direction.
- AsyncWriteProgress.OwedIsAnswered: undisturbed means that the bridge answers in full, replies are taken, the handles of wanted requests stay open, no other automaton owns the channel, and the arbiter serves a WRITE; READs served in between are further polls.
- AsyncWrites.AtMostOneReply: the bytes reach the bridge through a ring that is empty before; owner identity and handle generation are one number, and file keys are assumed not to collide.
- Arbiter.QueueRunKeepsInv: cancels are not among its events, and a queued READ whose handle was closed meanwhile is not dropped by the promotion.
- Arbiter.NoStarvation: outside the directory-continuation window and with no deferred READ, for operations whose every served step reports a bridge result.
- AsyncDirectory.ListingIsExactlyOnce: bridge requests succeed, the directory is fixed and its path stays cold; failures and cancels inside a replay leave the physical cursor behind the index.
- AsyncDirectory.ScansStartOver: under the assumptions of ListingIsExactlyOnce.
- ConfigStores.PowerLossIsSafeIff: a reset during a write leaves a prefix of the new file; other damage of a half-written file is not modelled.
- FrameProtocol.OneAlteredByteIsRefused: altered sync or length bytes are not covered, the checksum cannot tell them.
- VfsPump.Pump.WriteFileWindow: with the window capability; the older transfer in 512-byte blocks is left out, and an acknowledgement is an outcome, not its bytes on the line.
- VfsPump.Pump.ReadFileWindow: header and CRC tests of a frame are flags of the answer.
- READ progress and the whole-file read cache of the SMB server: the cache does not check which file its bytes came from.
- The switch of a listing from the cold to the cached path while an entry is carried over.
- Exact PDU sizes and PDU-creation failures; the encoded size of a name is a parameter.
- DirectoryCache links: lists are sequences of nodes with allocator addresses, so reuse of freed memory is modelled but pointer relinking is not; the parent given by a length inside a path is modelled as its own string.
- Wrap-around of revision, use, sequence and generation counters; only the ring's counters wrap.
- Real time: timeouts, the watchdog and the continuation window are events and flags; only the 32-bit subtraction of the frame timeout is modelled.
- The ring's high-water mark, and memory ordering weaker than one atomic access at a time.
- FAT maps of 4 GiB and more, where the 32-bit raw offset would wrap.
- parseGitRefCommit, the mount and format steps of the configuration store, UART transmission with its retries.
- Sockets, Wi-Fi, TLS, authentication, name services, online update, HTTP and the user interface.
