# CCcloud core in Dafny

A sequential model of the in-memory machinery of CCcloud, a gRPC file
service with an asynchronous access log, together with proofs about it.
It covers:

- **RingBuffer** (`ring_buffer.dfy`): the bounded ring buffer
  `LockFreeMPMCQueue`. It keeps head and tail indices modulo a fixed
  capacity in an `array`, and one slot always stays free.
- **LockFreeQueue** (`lockfree_queue.dfy`): the epoch-based reclamation
  manager and linked queue of `lockfreequeue.hpp`.
  - The manager keeps per-thread control blocks (active flag, local epoch,
    retired list, retire counter).
  - The epoch advance is guarded, and a sweep runs every 64 retires.
  - The queue is sentinel-headed, with a size counter.
- **EbrQueue** (`ebr_queue.dfy`): the second, independent reclamation
  variant of `EBRQueue.hpp`.
  - A registry is keyed by thread id, and `UINT64_MAX` marks an inactive
    thread.
  - The epoch bump is unconditional, and nothing is reclaimed below
    epoch 2.
  - Its queue nodes hold an optional value.
- **ReclaimPolicies** (`reclaim_policies.dfy`): on the same list and epoch,
  the two reclamation filters delete the same nodes and keep the same
  entries.
- **AsyncLogger** (`async_logger.dfy`): the logger's producer queue, the
  consumer's drain rounds, `start`/`stop`, and the line layout.
- **AccessLogger** (`access_logger.dfy`): the access-record builders
  (prepare, commit, abort) as pure functions over the log sequence.
- **UploadCall**, **DownloadCall**, **DeleteCall** (`upload_call.dfy`,
  `download_call.dfy`, `delete_call.dfy`): the per-call state machines of
  the asynchronous server.
  - Each step is a pure `Step` function from the call, the completion and
    the disk to the new call, the new disk and the actions started.
  - The actions are Request, Read, Write, Finish, spawn next and
    `delete this`.
  - Each call object is a class whose `Proceed` is proved equal to its
    `Step`.
  - `server_actions.dfy` holds the shared actions, the disk (a map from
    path to bytes) and the completion-queue safety predicate `SafeStep`.
  - `file_transfer.dfy` composes the three calls: an upload, a download of
    the same name, and a delete.
- **AsyncClient** (`async_client.dfy`): the load-test client's argument
  parsing (`parseSingle`, `parseArgs`) and its dummy payload generator.

**The sequential model.**
- Every compare-and-swap succeeds.
- Atomics are plain fields.
- The calling thread is an explicit thread-id parameter.
- Nodes live in an arena `map<NodeId, Node>`, and deleting a node moves
  its id into the manager's `freed` set.
- Clock readings, the peer address, whether a file opens, and the chunks a
  `Read` delivers are all inputs.

**Two consequences of the code.**
- In `lockfreequeue.hpp` the epoch advances only when no active block has
  `local_epoch <= cur`. Every local epoch is at most the global one, so
  any active thread blocks the advance (`AdvanceNeedsAllInactive`).
- The logger's consumer waits until it is stopped or the queue is
  non-empty. It writes every queued entry, each as one
  `[timestamp] [level] message` line, to a single file.

## Model

| member | source | states |
|---|---|---|
| RingBuffer.Distance | src/tools/RingBuffer.hpp:87-91 | the number of occupied slots is `(tail - head + capacity) % capacity` and is below the capacity |
| RingBuffer.LockFreeMpmcQueue.constructor | src/tools/RingBuffer.hpp:18-22 | a new buffer has head = tail = 0 and holds nothing |
| RingBuffer.LockFreeMpmcQueue.Empty | src/tools/RingBuffer.hpp:82-85 | true exactly when nothing is stored, and exactly when `Size()` is 0 |
| RingBuffer.LockFreeMpmcQueue.Size | src/tools/RingBuffer.hpp:87-91 | equals the number of stored items, which is below the capacity |
| RingBuffer.LockFreeMpmcQueue.TryEnqueue | src/tools/RingBuffer.hpp:24-39 | accepted iff fewer than capacity-1 items are held; an accepted value lands in the old tail slot, the tail advances by one modulo capacity, no other slot changes and the value joins the back; a rejected call changes nothing |
| RingBuffer.LockFreeMpmcQueue.TryDequeue | src/tools/RingBuffer.hpp:65-80 | nothing iff the buffer is empty (and then nothing changes); otherwise the front item, taken from the old head slot, and the head advances by one modulo capacity |
| RingBuffer.FifoScenario | src/tools/RingBuffer.hpp:24-80 | on a capacity-3 buffer two accepted values come out first-in first-out, the third enqueue is rejected and the third dequeue finds nothing |
| LockFreeQueue.SurvivorsMembers | src/tools/lockfreequeue.hpp:91-103 | an entry is kept by a sweep exactly when it was listed and is not yet two epochs old |
| LockFreeQueue.ReclaimedIdsMembers | src/tools/lockfreequeue.hpp:91-103 | a node is deleted by a sweep exactly when one of its entries satisfies `epoch + 2 <= cur` |
| LockFreeQueue.AdvanceNeedsAllInactive | src/tools/lockfreequeue.hpp:81-89 | since no local epoch exceeds the global one, the advance test holds exactly when no block is active |
| LockFreeQueue.EbrManager.constructor | src/tools/lockfreequeue.hpp:74-79 | no blocks, global epoch 0, nothing freed |
| LockFreeQueue.EbrManager.RegisterThread | src/tools/lockfreequeue.hpp:29-34 | appends one fresh block (inactive, epoch 0, empty list, count 0), returns its index and leaves the other blocks untouched |
| LockFreeQueue.EbrManager.EnterCritical | src/tools/lockfreequeue.hpp:36-39 | the block's local epoch becomes the global epoch and it is active; nothing else changes |
| LockFreeQueue.EbrManager.ExitCritical | src/tools/lockfreequeue.hpp:41-43 | only the block's active flag is cleared |
| LockFreeQueue.EbrManager.Retire | src/tools/lockfreequeue.hpp:45-52 | (node, global epoch) joins the end of the block's list; when the count reaches 64 the list is swept, the swept nodes are freed and the count resets, otherwise the count goes up by one; the count stays below 64 and no node is freed before the epoch is two past its retirement |
| LockFreeQueue.EbrManager.TryAdvanceEpoch | src/tools/lockfreequeue.hpp:81-89 | the global epoch rises by exactly one when no active block has `local_epoch <= cur`, and otherwise stays; it never decreases |
| LockFreeQueue.EbrManager.TryReclaim | src/tools/lockfreequeue.hpp:91-103 | the block keeps exactly its entries not yet two epochs old, in order, and exactly the nodes of the others are freed |
| LockFreeQueue.EbrManager.Sweep | src/tools/lockfreequeue.hpp:94-102 | the erase loop yields the kept entries in order and the set of deleted nodes, each retired at least two epochs before `cur` |
| LockFreeQueue.EbrManager.ReclaimerRound | src/tools/lockfreequeue.hpp:58-62 | one reclaimer round advances the epoch when allowed and then leaves every block's list with only its entries not yet two epochs old; exactly the nodes those sweeps delete are freed, and no node is handed over |
| LockFreeQueue.EbrManager.SweepAll | src/tools/lockfreequeue.hpp:60-62 | sweeping every block at the current epoch keeps each block's young entries in order and frees exactly the nodes of all blocks' old entries |
| LockFreeQueue.SweptPrefixAt | src/tools/lockfreequeue.hpp:60-62 | after the loop has swept the first `k` blocks, each of those holds only its young entries and every later block is untouched |
| LockFreeQueue.LinkExtends | src/tools/lockfreequeue.hpp:154-163 | linking a node with a fresh id after the last node extends the list's values by the new item |
| LockFreeQueue.MpmcQueue.constructor | src/tools/lockfreequeue.hpp:130-135 | one sentinel node with head and tail on it; the queue is empty and its size is 0 |
| LockFreeQueue.MpmcQueue.Empty | src/tools/lockfreequeue.hpp:193-195 | the size counter is 0 exactly when the queue holds nothing |
| LockFreeQueue.MpmcQueue.Enqueue | src/tools/lockfreequeue.hpp:148-168 | the contents become old contents followed by the item, and the size counter goes up by one |
| LockFreeQueue.MpmcQueue.LocalBlock | src/tools/lockfreequeue.hpp:171 | a thread without a block gets one newly registered block; a thread with one keeps it |
| LockFreeQueue.MpmcQueue.Unlink | src/tools/lockfreequeue.hpp:175-182 | the node after the sentinel becomes the sentinel, its value is returned, and the old sentinel leaves the list |
| LockFreeQueue.MpmcQueue.EnterDequeue | src/tools/lockfreequeue.hpp:171-172 | the calling thread's block is found or registered: a known thread reuses its own block, and a new thread gets the fresh block appended at the end; that block alone changes, becoming active with its local epoch set to the global epoch; nothing is freed and the list is unchanged |
| LockFreeQueue.MpmcQueue.TakeFirst | src/tools/lockfreequeue.hpp:180-185 | the front value is returned and the size goes down by one; the block alone changes, to its state after `retire` of the old sentinel at the current epoch (appended, or swept with the counter reset on the 64th retire) with the active flag cleared; exactly the nodes of that sweep are freed |
| LockFreeQueue.MpmcQueue.Dequeue | src/tools/lockfreequeue.hpp:170-191 | as written: true iff the queue was non-empty; then the front value is returned, and the thread's block ends as `retire` of the old sentinel leaves it, inactive, with exactly that retire's swept nodes freed; on an empty queue false, and the block (registered if new) is left entered and active, its list and count unchanged, nothing freed; other blocks are untouched; the thread uses its own block if it had one, otherwise the fresh block appended at the end |
| LockFreeQueue.MpmcQueue.DequeueReleasing | src/tools/lockfreequeue.hpp:170-191 | corrected: the same results and the same new block and freed nodes on the non-empty path; on the empty path the block is entered and then left, so it ends inactive, with its list and count unchanged and nothing freed; the thread uses its own block if it had one, otherwise the fresh block appended at the end |
| LockFreeQueue.EmptyDequeueStallsEpoch | src/tools/lockfreequeue.hpp:177-178 | after one dequeue on an empty queue, two epoch-advance attempts leave the epoch at 0 |
| LockFreeQueue.ReleasingDequeueLetsEpochAdvance | src/tools/lockfreequeue.hpp:189 | with the corrected dequeue, the same two attempts advance the epoch from 0 to 2 |
| EbrQueue.PartitionMembers | src/tools/EBRQueue.hpp:101-107 | an entry is kept exactly when listed and not safe to delete, and deleted exactly when listed and safe |
| EbrQueue.PartitionCounts | src/tools/EBRQueue.hpp:97-108 | kept plus deleted is the original list as a multiset: no entry is lost, duplicated or invented |
| EbrQueue.NothingBeforeEpochTwo | src/tools/EBRQueue.hpp:93-94 | while the global epoch is below 2 every entry is kept and none deleted |
| EbrQueue.PtrsOfPartition | src/tools/EBRQueue.hpp:197-203 | the deleted part's nodes together with the kept part's nodes are all nodes of the list |
| EbrQueue.Partition | src/tools/EBRQueue.hpp:95-108 | the loop builds `to_delete` (epoch <= global - 2) and `still_retired`, each in list order |
| EbrQueue.EbrManager.constructor | src/tools/EBRQueue.hpp:49-51 | global epoch 0 and an empty registry |
| EbrQueue.EbrManager.RegisterThreadIfNeeded | src/tools/EBRQueue.hpp:57-90 | a thread without an entry gets one fresh entry (inactive, empty list, registered); an existing entry is reused unchanged |
| EbrQueue.EbrManager.Enter | src/tools/EBRQueue.hpp:146-154 | registers the thread if needed and stores the global epoch as its local epoch; other entries and the retired list are unchanged |
| EbrQueue.EbrManager.Leave | src/tools/EBRQueue.hpp:156-163 | the thread's local epoch becomes `UINT64_MAX` and its list is swept at the global epoch; a thread without an entry changes nothing |
| EbrQueue.EbrManager.Retire | src/tools/EBRQueue.hpp:165-178 | a null pointer changes nothing; otherwise (ptr, global epoch) joins the end of the calling thread's list, registering it if needed |
| EbrQueue.EbrManager.TryReclaim | src/tools/EBRQueue.hpp:92-114 | the list becomes its entries not yet safe to delete, in order, and exactly the nodes of the safe entries are freed |
| EbrQueue.EbrManager.Delete | src/tools/EBRQueue.hpp:111-113 | every listed node is freed and nothing else changes |
| EbrQueue.EbrManager.BumpEpoch | src/tools/EBRQueue.hpp:180-182 | the global epoch rises by exactly one whatever the threads do |
| EbrQueue.EbrManager.UnregisterThread | src/tools/EBRQueue.hpp:191-209 | every retired node of the thread is freed whatever its epoch, and its entry leaves the registry; an unknown thread changes nothing |
| EbrQueue.MpmcQueue.constructor | src/tools/EBRQueue.hpp:233-237 | one empty sentinel node with head and tail on it; the queue is empty |
| EbrQueue.MpmcQueue.Link | src/tools/EBRQueue.hpp:263-281 | a fresh node holding the value is linked after the last node, so the value joins the back |
| EbrQueue.MpmcQueue.Enqueue | src/tools/EBRQueue.hpp:262-289 | the value joins the back between `enter` and `leave`; the thread ends registered and inactive with its list swept and exactly the swept nodes freed; every other thread's registry entry is unchanged and no other key is added |
| EbrQueue.MpmcQueue.Unlink | src/tools/EBRQueue.hpp:322-329 | the head moves to the first real node, whose value is moved out (leaving it empty as the new sentinel) |
| EbrQueue.MpmcQueue.RetireFront | src/tools/EBRQueue.hpp:322-339 | the non-empty path after `enter`: the front value is moved out, the old head joins the end of the thread's list at the global epoch, and `leave` marks the thread inactive, keeps the entries not yet safe and frees exactly the safe ones; no other entry changes |
| EbrQueue.MpmcQueue.Dequeue | src/tools/EBRQueue.hpp:297-344 | true iff the queue was non-empty; then the front value is returned and the old head retired; on an empty queue `value` is untouched; both paths leave and sweep the thread's list, freeing exactly the swept nodes; every other thread's registry entry is unchanged and no other key is added |
| EbrQueue.MpmcQueue.Empty | src/tools/EBRQueue.hpp:352-368 | head equals tail with no successor exactly when the queue holds nothing; the surrounding `enter`/`leave` leaves the thread registered and inactive with its list swept and exactly the swept nodes freed, and no other thread's entry changes |
| EbrQueue.GracePeriodScenario | src/tools/EBRQueue.hpp:92-114 | a sentinel retired at epoch 0 survives the sweep at epoch 1 and is freed by the sweep at epoch 2 |
| EbrQueue.RetireAtEpochZero | src/tools/EBRQueue.hpp:337-338 | an enqueue and a dequeue at epoch 0 leave exactly the old sentinel, tagged 0, in the thread's list, with nothing freed |
| EbrQueue.BumpAndSweep | src/tools/EBRQueue.hpp:180-182 | a bump followed by `enter`/`leave` sweeps the thread's list at the new epoch |
| ReclaimPolicies.SameTest | src/tools/lockfreequeue.hpp:96 | `epoch + 2 <= cur` holds exactly when `cur >= 2 && epoch <= cur - 2` |
| ReclaimPolicies.SameEntriesKept | src/tools/EBRQueue.hpp:97-108 | on the same list and epoch both managers keep the same entries in the same order |
| ReclaimPolicies.SameNodesDeleted | src/tools/EBRQueue.hpp:111-113 | on the same list and epoch both managers delete the same nodes |
| AsyncLogger.Lines | src/logger/async_logger.hpp:80-84 | a drain writes one line per entry, the i-th being the i-th entry's formatted line followed by a newline |
| AsyncLogger.FormatLogEntry | src/logger/async_logger.hpp:102-106 | a line is six characters longer than its three fields, starts with `[` and the timestamp, and ends with the message |
| AsyncLogger.FormatRoundTrip | src/logger/async_logger.hpp:103-105 | a formatted line reads back to its timestamp, level and message when neither of the first two contains `]` |
| AsyncLogger.Logger.constructor | src/logger/async_logger.hpp:63-64 | not running, nothing queued or written, no consumer thread |
| AsyncLogger.Logger.Append | src/logger/async_logger.hpp:36-42 | the entry joins the back of the queue and nothing else changes |
| AsyncLogger.Logger.Start | src/logger/async_logger.hpp:45-48 | running, with a waiting consumer, or one that has already ended when the file does not open |
| AsyncLogger.Logger.Round | src/logger/async_logger.hpp:76-91 | once woken, every queued entry is written in order, the queue is empty, and the consumer ends exactly when it has been stopped |
| AsyncLogger.Logger.Stop | src/logger/async_logger.hpp:51-60 | not running and joined; everything queued before `stop` has been written, in order, unless the consumer never opened its file |
| AsyncLogger.StopFlushesScenario | tests/test_logger.cc:29-30 | with the `start` that the test's comment takes for granted (the test itself never calls it), two entries appended after `start` are both in the file, in order, once `stop` returns |
| AsyncLogger.UnstartedStopWritesNothing | tests/test_logger.cc:10-30 | the test as written: the constructor (src/logger/async_logger.hpp:63-64) does not start the consumer, so after the appends and `stop` nothing is written and both entries stay queued |
| AccessLogger.ParseContextInfo | src/logger/AccessLogger.hpp:68-74 | the client address is the peer string verbatim, both ports are 0, the server address is 127.0.0.1 |
| AccessLogger.LogPrepare | src/logger/AccessLogger.hpp:18-34 | exactly one record is appended: PREPARE, INFO, OK, with the given uuid, time, operation, params and peer |
| AccessLogger.LogCommit | src/logger/AccessLogger.hpp:36-56 | exactly one COMMIT record is appended, INFO exactly when the code is OK and ERROR otherwise, carrying code, duration and error message unchanged |
| AccessLogger.LogAbort | src/logger/AccessLogger.hpp:58-65 | is the commit with empty params and the reason as error message |
| AccessLogger.OneRecordPerCall | src/logger/AccessLogger.hpp:33-55 | any series of builder calls adds one consistent record per call and keeps what was logged before |
| UploadCall.Step | src/server/AsyncUploadCall.hpp:41-132 | only the DONE step deletes the call; an accepted request spawns the next call and starts a read, a refused one moves to DONE; a failed read ends the stream with OK "Upload complete" and closes the file; a first chunk without a name fails INVALID_ARGUMENT "Upload failed: Filename required in first chunk", and a file that cannot be opened fails INTERNAL "Upload failed: Failed to open file for writing", both leaving the disk unchanged |
| UploadCall.ReadErrorOutcome | src/server/AsyncUploadCall.hpp:136-146 | the file is closed, the RPC finishes with the given code and message, the reply is "Upload failed: " + message, and the call waits in DONE |
| UploadCall.StepIsSafe | src/server/AsyncUploadCall.hpp:41-132 | every step keeps at most one operation of its own outstanding, and it deletes the call exactly when in DONE |
| UploadCall.StepTouchesOneFile | src/server/AsyncUploadCall.hpp:98-123 | a step changes no file other than `uploads/<filename>` of the call |
| UploadCall.ChunksAppendInOrder | src/server/AsyncUploadCall.hpp:118-127 | once the file is open, each successful read appends its chunk's data in arrival order, starts one more Read, and ignores the chunk's file name |
| UploadCall.Accept | src/server/AsyncUploadCall.hpp:54-116 | accepting the RPC spawns the next call and reads; a named first chunk creates the file holding that chunk's data |
| UploadCall.Close | src/server/AsyncUploadCall.hpp:43-95 | the end of the client stream finishes OK with "Upload complete", and the next completion deletes the call |
| UploadCall.UploadSession | src/server/AsyncUploadCall.hpp:41-132 | a whole upload leaves the file holding every chunk's data in order, answers "Upload complete" and deletes the call |
| UploadCall.AsyncUploadCall.constructor | src/server/AsyncUploadCall.hpp:22-31 | the call starts in REQUEST_QUEUED with no file name and no file open |
| UploadCall.AsyncUploadCall.HandleReadError | src/server/AsyncUploadCall.hpp:136-146 | the call's fields and actions are those of the read-error outcome |
| UploadCall.AsyncUploadCall.Proceed | src/server/AsyncUploadCall.hpp:41-132 | the call's new fields, the disk and the actions are exactly those of `Step` |
| DownloadCall.Step | src/server/AsyncDownloadCall.hpp:18-65 | corrected: every step is safe for the completion queue, every chunk holds 1 to 4096 bytes, a writing step moves forward in the file, and only the completion of the finish deletes the call |
| DownloadCall.DeferredWriteIsGood | src/server/AsyncDownloadCall.hpp:47-59 | one `DoWrite` either finishes OK or sends the next 1 to 4096 bytes and waits in WRITING |
| DownloadCall.SentChunk | src/server/AsyncDownloadCall.hpp:47-58 | a step that keeps writing sends exactly the next slice of the file |
| DownloadCall.LastStep | src/server/AsyncDownloadCall.hpp:37-53 | a step that stops writing has reached the end of the file and finishes OK |
| DownloadCall.DrainSendsRest | src/server/AsyncDownloadCall.hpp:37-58 | from any position the chunks sent concatenate to the rest of the file, and the download finishes OK |
| DownloadCall.DownloadSendsFile | src/server/AsyncDownloadCall.hpp:27-58 | for an existing file, the chunks of a whole download concatenate to its bytes and the RPC finishes OK |
| DownloadCall.MissingFileNotFound | src/server/AsyncDownloadCall.hpp:27-34 | a missing file spawns the next call and finishes NOT_FOUND "File not found", sending nothing |
| DownloadCall.StepAsWritten | src/server/AsyncDownloadCall.hpp:18-65 | as written: the FINISH state is never entered, the call is deleted exactly when a step ends with `delete this`, and every such step has just started a finish tagged with the call |
| DownloadCall.FinishDeletesTooEarly | src/server/AsyncDownloadCall.hpp:61-65 | as written, the last step issues a finish tagged with the call and deletes the call in the same step |
| DownloadCall.AsyncDownloadCall.constructor | src/server/AsyncDownloadCall.hpp:13-16 | the constructor's `Proceed(true)` leaves the call in WRITE with a 4096-byte buffer |
| DownloadCall.AsyncDownloadCall.Finish | src/server/AsyncDownloadCall.hpp:61-65 | corrected: the file is closed, the RPC finished, and the call waits in FINISH |
| DownloadCall.AsyncDownloadCall.DoWrite | src/server/AsyncDownloadCall.hpp:47-59 | the bytes read through the buffer and the resulting state are those of one `DoWrite` step |
| DownloadCall.AsyncDownloadCall.Proceed | src/server/AsyncDownloadCall.hpp:18-44 | corrected: the call's new fields and actions are exactly those of the corrected `Step`, including the FINISH branch that deletes the call when its finish completes, which the source lacks |
| DeleteCall.Step | src/server/AsyncDeleteCall.hpp:18-47 | a failed completion finishes CANCELLED with the default reply "Delete operation complete"; in CREATE an ok completion requests the RPC and nothing else; in PROCESS it first spawns the next call; the accepted request removes exactly `uploads/<name>`, answering OK "Delete success" iff it existed and NOT_FOUND "Delete failed or not found" otherwise; the completion after the answer deletes the call; every step is safe |
| DeleteCall.AsyncDeleteCall.constructor | src/server/AsyncDeleteCall.hpp:13-16 | the constructor's `Proceed(true)` leaves the call in PROCESS and the disk unchanged |
| DeleteCall.AsyncDeleteCall.Finish | src/server/AsyncDeleteCall.hpp:50-55 | finishes with the status and the default-or-given reply, moving to FINISH |
| DeleteCall.AsyncDeleteCall.Proceed | src/server/AsyncDeleteCall.hpp:18-47 | the call's new state, the disk and the actions are exactly those of `Step` |
| FileTransfer.UploadThenDownload | src/server/AsyncDownloadCall.hpp:27-58 | downloading a name just uploaded gives back the uploaded chunks' bytes in order |
| FileTransfer.UploadDeleteDownload | src/server/AsyncDeleteCall.hpp:27-43 | deleting an uploaded file answers OK, and a download of it afterwards is answered NOT_FOUND |
| AsyncClient.ParseSingle | src/client/async_client.cc:40-67 | a parsed value lies in the range of the target type, and the accepted text ends with a digit: nothing may follow the number |
| AsyncClient.AcceptedForm | src/client/async_client.cc:43-59 | as `stoi`/`stoll` read it: leading white space, an optional `+` or `-` and at least one digit (leading zeros allowed) parse to the signed value of the digits when it is in range, and fail when it is out of range |
| AsyncClient.AcceptedOnlyForm | src/client/async_client.cc:43-59 | every accepted text has that form (white space, at most one sign, digits to the end) and its result is the signed value of its digits |
| AsyncClient.ApplyOne | src/client/async_client.cc:71-109 | an argument naming no known option fails and changes nothing; an accepted argument sets exactly one option, to a positive value within its type's range |
| AsyncClient.ApplyArgs | src/client/async_client.cc:69-117 | a successful parse from positive settings leaves all three settings positive |
| AsyncClient.ParseShowRoundTrip | src/client/async_client.cc:40-67 | every number within the range reads back from its decimal form |
| AsyncClient.TrailingRejected | src/client/async_client.cc:56-58 | a number followed by any non-digit character is rejected |
| AsyncClient.ValidArgAnywhere | src/client/async_client.cc:73-109 | whether an argument is accepted does not depend on the settings before it |
| AsyncClient.OkIffAllValid | src/client/async_client.cc:69-117 | `parseArgs` succeeds exactly when every argument is a known option with a parsable positive value |
| AsyncClient.NoArgsKeepDefaults | src/client/async_client.cc:23-29 | with no arguments the settings stay 128, 100 and 9128 |
| AsyncClient.AcceptedArgument | src/client/async_client.cc:73-105 | an accepted argument sets the one option it names and leaves the other two |
| AsyncClient.LastOccurrenceWins | src/client/async_client.cc:70-110 | after a successful parse each setting holds the value of its last occurrence, or its earlier value if none |
| AsyncClient.PrefixFails | src/client/async_client.cc:79-109 | once an argument fails, the arguments after it are not looked at |
| AsyncClient.ClientSettings.constructor | src/client/async_client.cc:27-29 | the settings start at the defaults |
| AsyncClient.ClientSettings.ParseArgs | src/client/async_client.cc:69-117 | the loop's settings and result are those of applying the arguments in order, stopping at the first failure |
| AsyncClient.ClientSettings.ParseArg | src/client/async_client.cc:73-109 | one argument assigns its option's parsed value and then fails if it is not positive; an unparsable value or unknown argument fails without assigning |
| AsyncClient.GenerateDummyData | src/client/async_client.cc:119-134 | a string of exactly `size` characters whose character i is the pattern's character i mod 62 |
| AsyncClient.CopyPattern | src/client/async_client.cc:128-130 | the `memcpy` puts the first `len` pattern characters at `offset` and changes nothing else |

## Left out

- Concurrency: thread interleavings, memory orderings, failed or spurious
  compare-and-swap, and the tail-lagging help paths. Every operation runs
  alone, and the tail is always the last node.
- The blocking `enqueue`/`dequeue` retry loops of the ring buffer.
- The ring buffer's `instance()` accessor.
- RingBuffer.LockFreeMpmcQueue.constructor: requires a positive capacity.
  With capacity 0 every index computation in the source divides by zero.
- LockFreeQueue.MpmcQueue.Enqueue: the busy-wait while `size >= MAX_SIZE`
  (10000) is the precondition `size < MaxSize`. Waiting for another
  thread is not modelled.
- LockFreeQueue.MpmcQueue.constructor and EbrQueue.MpmcQueue.constructor
  require a manager that has not yet been handed any node. In the source
  the manager is a process-wide singleton shared by every queue; the
  model gives each manager one queue.
- Epoch width: `global_epoch` is a `std::atomic<int>` in
  `lockfreequeue.hpp` (line 77) and a `std::atomic<uint64_t>` in
  `EBRQueue.hpp` (line 49). The model's epochs are unbounded integers,
  so signed overflow and wrap-around are not modelled.
- The reclaimer thread's loop, its sleep and its stop flag. One round of
  its body is `ReclaimerRound`.
- The queue destructors and the manager destructors, including
  `bump_epoch_often` and its sleeps.
- Singletons (`instance()`), `thread_local` lookups, mutexes and the
  shared mutex.
- EbrQueue: in `EBRQueue.hpp`, `current_thread_data` is taken to be set
  exactly when the thread has a registry entry.
- EbrQueue: the "thread data not available" error messages are not
  modelled; those paths change nothing.
- EbrQueue: the per-node deleter functions. Deleting a node means freeing
  its id.
- The logger's condition variable, notification and thread join. The
  consumer's rounds are explicit calls.
- The logger: the exception thrown when the log file cannot be opened
  ends the consumer before it writes anything. The process termination
  that an uncaught exception in a thread causes is not modelled.
- AsyncLogger.Logger.Start: requires that no consumer thread exists. A
  second `start` on a joinable thread is not modelled.
- The queue type the logger uses is not modelled: `async_logger.hpp`
  calls `front()`/`pop()`, which the linked queue does not have. The
  pending queue is a sequence, and a pop removes its front.
- Time: clocks, `localtime_r` and `put_time`. A timestamp is the text
  `put_time` would print, and an access record's time is an integer
  input.
- Boost UUID generation and `context->peer()`: both are string inputs.
- The access record type is not declared in the repository. It is defined
  from the fields `AccessLogger` assigns.
- UploadCall.Step: whether `ofs_.open` succeeds is an input of the step.
  `create_directories`, write errors (unchecked in the source) and the
  destructor's close are not modelled.
- UploadCall.Step: a REQUEST_QUEUED step with `!ok` moves to DONE with no
  operation outstanding, as in the source. No completion will then reach
  the DONE branch. The model states no property about when such an
  object is deleted.
- DownloadCall: the file is read as it was when it was opened. Later
  changes to the disk during a download are not seen.
- Server calls: `std::filesystem` exceptions are not modelled.
- Server calls: the completion-queue polling loop and the calls' shared
  base class are not modelled. Each step is given its completion.
- AsyncClient.ParseSingle is weaker than the source on failures. Both
  failures of `stoi`/`stoll` (invalid argument and out of range) become
  `None`, and the error messages printed to `std::cerr` are not modelled.
- AsyncClient: `argv[0]` is not modelled. The arguments are the list
  after the program name.
- AsyncClient: `run_upload`, `main` and the printing of the settings are
  not modelled.
- Not part of this model: the service implementation in
  `FileServiceImpl.hpp`, the client wrappers in `client_api.hpp` and
  `CCcloud_client.hpp`, the server and client entry points, and the
  generated gRPC code. They are stream and process plumbing around the
  modelled calls.

## Findings

| source | as written | input that shows it | evidently intended | confidence | as-written member | corrected member |
|---|---|---|---|---|---|---|
| src/tools/lockfreequeue.hpp:177-178 | `dequeue` on an empty queue returns false right after `enter_critical`, without `exit_critical`; the thread's block stays active, so `try_advance_epoch` cannot advance the epoch, and no retired node becomes old enough to free, until the same thread's next successful `dequeue` runs `exit_critical` (line 184) | one `dequeue` on a new, empty queue, then any number of epoch-advance attempts: the epoch stays 0 | leave the critical section on the empty path too, as the unreachable `exit_critical` at line 189 shows | not executed | LockFreeQueue.MpmcQueue.Dequeue, LockFreeQueue.EmptyDequeueStallsEpoch | LockFreeQueue.MpmcQueue.DequeueReleasing, LockFreeQueue.ReleasingDequeueLetsEpochAdvance |
| src/server/AsyncDownloadCall.hpp:61-65 | `Finish` starts `responder_.Finish(status, this)` and then runs `delete this`; the completion of that finish is later delivered with a tag pointing to the deleted object (the `FINISH` state of line 11 is never entered) | a download in WRITING at end of file, with an ok completion: the step issues a finish tagged with the call and deletes the call | wait in FINISH and delete the call when the finish completes, as the upload and delete calls do | not executed | DownloadCall.StepAsWritten, DownloadCall.FinishDeletesTooEarly | DownloadCall.Step |
