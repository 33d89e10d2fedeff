# 5thD core: a verified model

This project models the four stateful parts of 5thD in Dafny and proves what holds over
whole runs of each of them.

- **LRU cache** (`RecencyList`, `LruCache`, `LruRuns`, `LruInclusion`). The class keeps the
  list of nodes and the map from keys to nodes that the C++ class keeps; its methods are
  proved to act as a plain bounded recency list. Over all runs of push and get, every
  lookup is decided by the history of uses, and a small cache is included in a larger one.
- **Thread pool** (`ThreadPool`, `ThreadPoolRuns`). Each critical section and each
  condition-variable call is one step of a transition system, so a run is any
  interleaving of workers, callers and the destructor, spurious wakeups included.
  History fields record which tasks were pushed, taken and finished.
- **Slot pool and message path** (`SlotPool`, `SlotOwnership`, `IpcMessage`, `Frames`,
  `Transmitter`, `BusRouting`, `SoftwareBus`). The pool is the array with index links; its
  free list is read off the links by walking as many steps as there are free slots. The
  transmitter and the bus are classes on top of a pool. Sockets are sequences of frames with
  a more flag; each send is given the number of frames the socket accepts before refusing one.
- **Key table** (`KeyTable`, `KeyStore`, `KeyHistory`). The class keeps the rows of
  `module_keys` and one saved copy for the open transaction; its methods are proved to act
  as operations on a map from (module, type, name) to a value and an active flag, and the
  key setup of `core/module.cpp` as one guarded operation on that map.

Two facts about the code come out as exact conditions. Key setup tests the result of the
private store twice and of the public store never (`core/module.cpp:92`); it is
all-or-nothing except when the table holds the client's public row without the private
one, which bare calls of `store_key` can produce and setup, update, remove and get cannot
(`SetupAllOrNothing`, `HalfAPairIsPossible`, `SetupAllOrNothingInRuns`). And the bus loses a
slot on every send error and has no slot left to forward with after Size - 1 of them
(`RoutingLaw`, `ExhaustedForGood`).

Assumptions about what is outside the code: the machine is little-endian with a 32-bit
int; a ROUTER socket puts the sender's routing id in front of what it receives (ZeroMQ RFC
28/REQREP, the ROUTER socket type); all parts of a multipart message arrive together; SQLite
statements fail only on a constraint, an empty `std::vector` has a null `data()` so that an
empty blob is bound as NULL, and closing a database rolls an open transaction back;
`zmq_curve_keypair` yields two strings of 40 characters; a caller passes `release_slot` null,
an address outside the buffer, or the data address of one of its slots.

## Model

| member | source | states |
|---|---|---|
| LruCache.LruCache.Push | core/5thdlru_cache.h:19-44 | the map's keys stay exactly the list's keys, each entry at the one node carrying its key, size at most maxSize, and the contents become those of a push on the plain recency list |
| LruCache.LruCache.Get | core/5thdlru_cache.h:46-58 | returns the held value or nothing; a hit moves its entry to the front, a miss leaves the contents alone, and list and map stay linked |
| LruCache.LruCache.MakeRoom | core/5thdlru_cache.h:23-39 | after unlinking the old node or evicting from the back there is room for one entry, and what is left is the first maxSize - 1 other entries in order |
| LruCache.EraseIsRemove | core/5thdlru_cache.h:26 | erasing the node the map points at removes that key's entry and no other node |
| LruCache.KeySetSize | core/5thdlru_cache.h:33 | with one node per key the list is as long as its key set is large, so the size of the map decides eviction |
| RecencyList.TouchIsPush | core/5thdlru_cache.h:54-56 | a hit rearranges the list as a push of the value already held would |
| LruRuns.RunShape | core/5thdlru_cache.h:19-58 | after any run there are no duplicate keys and never more than the capacity |
| LruRuns.RunKeys | core/5thdlru_cache.h:19-58 | after any run the cache holds exactly the first capacity keys of the full order of recent use, in that order |
| LruRuns.RunValues | core/5thdlru_cache.h:28-42 | every entry carries the value of the most recent push of its key |
| LruRuns.HitLaw | core/5thdlru_cache.h:19-58 | after any run get(k) hits iff k was pushed and fewer than capacity distinct other keys were pushed or hit since k's last push or hit, and a hit returns k's last pushed value |
| LruInclusion.RunsIncluded | core/5thdlru_cache.h:19-58 | for capacities 1 <= m <= n and any run the small cache is a subsequence of the large one, so each of its hits is a hit with the same value there |
| ThreadPool.StepKeepsInv | core/thread_pool.cpp:4-41 | every step of every thread keeps the wakeup count, the flag discipline and the accounting of tasks, and the tasks accounted for grow by one with each push and only then |
| ThreadPoolRuns.RunBooks | core/thread_pool.cpp:4-41 | in any run, counted on its steps alone: started and queued tasks add up to the pushes, each push owes one notify_one, takes and finishes are those made, and stop is set iff a step set it |
| ThreadPoolRuns.NextMoves | core/thread_pool.cpp:8-41 | what each thread may do next: an awake worker takes, sleeps or exits as queue and stop decide, a running one may push or finish or else owes a notify_one, and outside callers are never held up before stop |
| ThreadPoolRuns.NoWorkerSleepsThroughWork | core/thread_pool.cpp:10-16 | after any run that leaves a worker asleep, queued tasks never outnumber awake workers plus the pushes whose notify_one is still to come |
| ThreadPoolRuns.TasksStartInOrder | core/thread_pool.cpp:14-15 | tasks start in the order in which they were pushed, and started and queued tasks together are all the pushes of the run |
| ThreadPoolRuns.ShutdownDrains | core/thread_pool.cpp:11-17 | once all workers have exited, stop was set, the queue is empty and each push of the run, also after stop, has run exactly once |
| ThreadPoolRuns.NobodySleepsAfterNotifyAll | core/thread_pool.cpp:24-28 | once notify_all is done no worker is asleep in any later state |
| ThreadPoolRuns.QuietMeansDone | core/thread_pool.cpp:4-41 | when the pool has no step of its own left, the queue is empty, each push of the run has run exactly once, and all n workers are asleep, or gone if stop was set |
| ThreadPoolRuns.ShutdownNeverStuck | core/thread_pool.cpp:23-32 | after stop and until all workers have exited, a worker, a notifier or the destructor can move |
| ThreadPoolRuns.StepMeasure | core/thread_pool.cpp:4-41 | every step but a push or a spurious wakeup before stop makes a measure over queue, workers and owed wakeups strictly fall |
| ThreadPoolRuns.RunBound | core/thread_pool.cpp:4-41 | a run is no longer than its starting measure plus what its pushes and early spurious wakeups add |
| ThreadPoolRuns.ShutdownTerminates | core/thread_pool.cpp:23-32 | after stop a continuation with p pushes has at most measure + 5p steps, and when it cannot go on all workers have exited and each push before or during it has run exactly once, so the joins return |
| SlotPool.SlotPool.constructor | core/common/5thdbuffer.h:199-208 | the initial ring, followed for Size steps, lists the slots 0 to Size - 1 |
| SlotPool.SlotPool.GetSlot | core/common/5thdbuffer.h:102-115 | null iff all Size slots are out; otherwise the address of the free list's head, which leaves the list; the walk still meets each free slot once and no used one |
| SlotPool.SlotPool.ReleaseSlot | core/common/5thdbuffer.h:117-152 | classifies every address; an address handed out maps back to its own slot, which becomes the head of the free list, also from the full pool's stale head; a rejected release changes nothing |
| SlotPool.SlotPool.IsFull | core/common/5thdbuffer.h:160-164 | true iff the free list is empty |
| SlotPool.SlotPool.Size | core/common/5thdbuffer.h:166-170 | the number of slots not on the free list |
| SlotPool.WalkFrame | core/common/5thdbuffer.h:144-147 | relinking a slot outside the bounded walk does not change the walk |
| SlotPool.WalkRing | core/common/5thdbuffer.h:202-206 | in the ring a walk from k that stops at Size counts k, k + 1, ... |
| SlotPool.IndexOfAddress | core/common/5thdbuffer.h:125-142 | a slot's address lies in the buffer and the pointer arithmetic gives its index back |
| SlotPool.SlotPool.AddressesAreStrided | core/common/5thdbuffer.h:70-76 | slots lie side by side from the base, so distinct slots have distinct addresses, and the accepted range is from the first slot's data up to where one past the last would be |
| SlotOwnership.NoTwoOwners | core/common/5thdbuffer.h:102-152 | in any interleaving of gets and releases no slot has two owners and none is both owned and free |
| SlotOwnership.NullIffAllHeld | core/common/5thdbuffer.h:104-107 | when no owner overwrites a held slot pointer, held and free slots add up to Size, so get returns null iff all Size are held |
| SlotOwnership.GetThenReleaseRestores | core/common/5thdbuffer.h:102-152 | a get undone by a release leaves the pool's stack and owners as they were |
| SlotOwnership.ReleaseThenGetReturnsIt | core/common/5thdbuffer.h:102-152 | the slot released last is the next one handed out |
| IpcMessage.LayoutIsPacked | core/common/5thdipcmsg.h:23-29 | the image holds the fields packed in declaration order, at offsets 0, 4, 8, 16 and 46 |
| IpcMessage.IntegersAreLittleEndian | core/common/5thdipcmsg.h:24-26 | byte j of each integer in the image is its value modulo its range, divided by 256 to the j, modulo 256 |
| IpcMessage.DecodeEncode | core/common/5thdipcmsg.h:23-29 | reading back the 302-byte image of a message gives the message, for all field values |
| IpcMessage.EncodeDecode | core/common/5thdipcmsg.h:23-29 | every 302-byte frame is the image of exactly one message |
| Frames.ChunkingLaw | core/transmitter.cpp:126-155 | for a non-empty payload the identity comes first and an empty frame second; the data frames concatenate to the payload, number ceil(n/302), are full but for a non-empty last one, and only the last frame lacks the more flag |
| Frames.OutgoingPrefix | core/transmitter.cpp:126-155 | what has gone out after n accepted frames: identity, delimiter, then a prefix of the payload, all with the more flag unless nothing is left to send |
| Frames.LastMessageIsLast | 5thD_Software_Bus/core/src/software_bus.cpp:93-106 | the frame the receive loop keeps is the message-sized frame after which no other comes, and there is none iff no frame has that size |
| Frames.MessageRoundTrip | 5thD_Software_Bus/core/src/software_bus.cpp:85-109 | for every message, identity frame and routing id, what send emits for its encoding, behind the routing id, is received as the same message |
| Transmitter.Transmitter.SendFrames | core/transmitter.cpp:126-156 | emits identity, delimiter and then the payload's chunks in order up to the first refusal; success iff none is refused, and then the chunks are the whole payload |
| Transmitter.Transmitter.Send | core/transmitter.cpp:105-157 | the error for each path, identity, delimiter and payload in order up to the refused frame, the whole payload on success, and on every path the pool's links, flags, head and count are what they were |
| SoftwareBus.SoftwareBus.ReceiveParts | 5thD_Software_Bus/core/src/software_bus.cpp:91-106 | reads exactly to the end of the multipart message and keeps the last message-sized frame |
| SoftwareBus.SoftwareBus.SendFrames | 5thD_Software_Bus/core/src/software_bus.cpp:46-62 | emits identity, delimiter and message up to the first refusal, and fails iff one is refused |
| SoftwareBus.SoftwareBus.SendMessage | 5thD_Software_Bus/core/src/software_bus.cpp:38-69 | drops the message when no slot is free, else sends identity, empty frame and the message's bytes up to the first refusal; gives the slot back on success, and keeps it out exactly when a frame is refused |
| SoftwareBus.SoftwareBus.Route | 5thD_Software_Bus/core/src/software_bus.cpp:109-134 | registers an unknown source, decides the message's fate, sends that addressee the message's own bytes behind identity and empty frame, and loses a slot exactly on a refused frame |
| SoftwareBus.SoftwareBus.RegisterSender | 5thD_Software_Bus/core/src/software_bus.cpp:114-120 | binds only an id that is not bound yet |
| SoftwareBus.SoftwareBus.ReadAndRoute | 5thD_Software_Bus/core/src/software_bus.cpp:91-134 | from the frames received to the frames sent, with table and slot count as the routing function says |
| SoftwareBus.SoftwareBus.HandleMsg | 5thD_Software_Bus/core/src/software_bus.cpp:71-135 | one multipart message changes table and slot count as the routing function says; a forward is the addressee's identity, an empty frame and the received bytes unchanged, a failed one its accepted frames, anything else sends nothing; the receive slot is back on every path |
| SoftwareBus.ForwardArrives | 5thD_Software_Bus/core/src/software_bus.cpp:46-59 | a forward is one multipart message whose first frame addresses the client and whose rest is received as the forwarded message unchanged |
| BusRouting.TableIsHistory | 5thD_Software_Bus/core/src/software_bus.cpp:114-120 | after any run each id is bound to the sender of the first message that gave it as source, and to nothing if there was none |
| BusRouting.RoutingLaw | 5thD_Software_Bus/core/src/software_bus.cpp:109-134 | the fate of every message from the messages alone: no destination iff no message so far, itself included, has its destination as source; else, towards the earliest such sender, dropped after Size - 1 refused sends, failed if a frame is refused, forwarded otherwise |
| BusRouting.SlotAccounting | 5thD_Software_Bus/core/src/software_bus.cpp:38-82 | between messages the slots in use are exactly the addressed messages that met a refusing socket, up to Size - 1, so every message gets its receive slot and is read |
| BusRouting.BindingsArePermanent | 5thD_Software_Bus/core/src/software_bus.cpp:114-120 | a binding once made never changes |
| BusRouting.ExhaustedForGood | 5thD_Software_Bus/core/src/software_bus.cpp:38-62 | after Size - 1 refused sends every later message is dropped, for want of a destination or of a slot |
| KeyStore.KeyStore.StoreKey | core/keys_db.cpp:105-151 | succeeds iff the key has no row yet, its type is seeded and the value is not empty; then the map gains an active entry, else nothing changes |
| KeyStore.KeyStore.UpdateKey | core/keys_db.cpp:153-193 | rewrites the value of an existing entry, active or not, leaves every other entry alone, and fails only on an empty value for an existing key |
| KeyStore.KeyStore.RemoveKey | core/keys_db.cpp:228-254 | deactivates the entry of an existing key and succeeds even when there is none |
| KeyStore.KeyStore.GetKey | core/keys_db.cpp:195-226 | the value of the key's entry iff there is one and it is active |
| KeyStore.KeyStore.HandleKeys | core/module.cpp:44-114 | the two lookups, the transaction and its one tested result amount to one guarded write on the map and to the pair left in the caller's buffers |
| KeyStore.TypeIdsAreDistinct | core/keys_db.cpp:88-103 | every listed type name is seeded under its own id, and any other enum value has none |
| KeyStore.SeededIds | db_scripts/table_keys.sql:8-13 | the five type names have the ids 1 to 5 in the order of the script |
| KeyStore.TableIsRows | db_scripts/table_keys.sql:16-27 | a key has an entry iff a row matches it, and any matching row is that entry |
| KeyStore.RewriteRows | core/keys_db.cpp:156-158 | changing the rows that match a key changes that key's entry and no other |
| KeyStore.SelectIsRead | core/keys_db.cpp:197-226 | the select yields at most one row, so its first row is the only answer |
| KeyHistory.LastWriteIsRead | core/keys_db.cpp:105-226 | after a successful store, or update of an active key, the key reads back that value until it is updated or removed |
| KeyHistory.TableIsHistory | core/keys_db.cpp:105-254 | after any run from the fresh schema, setups included, each key has exactly the value last written according to the commands alone, and reads it back unless it was removed after being written |
| KeyHistory.WritesSucceedWhen | core/keys_db.cpp:105-193 | after any run a store succeeds iff the key was never written, its type is listed and the value is not empty; an update iff the key was never written or the value is not empty |
| KeyHistory.OthersUntouched | core/keys_db.cpp:105-254 | commands on other keys never affect a key |
| KeyHistory.RemovalIsPermanent | core/keys_db.cpp:228-254 | once an existing key is removed, no sequence of commands makes it readable or storable again |
| KeyHistory.KeysComeInPairs | core/module.cpp:83-101 | in every run of setup, update, remove and get from the fresh schema a client has a public row iff it has a private row |
| KeyHistory.FirstSetupStores | core/module.cpp:71-105 | a setup that finds neither row and meets no failure makes both keys read back as the generated pair, leaves every other key alone and hands out that pair |
| KeyHistory.FirstSetupByName | core/module.cpp:88-91 | the names under which each client's two keys are then found |
| KeyHistory.RowsAreFirstPair | core/module.cpp:83-101 | without bare stores a client has its two rows iff an earlier setup of it met no failure, and until an update or removal they hold that first pair |
| KeyHistory.SetupAnswersFirstPair | core/module.cpp:44-105 | what each setup hands out in such a run: the first stored pair, or before there is one the pair just generated |
| KeyHistory.SetupAllOrNothing | core/module.cpp:83-101 | setup is all-or-nothing exactly when the public row is not there without the private one, or something fails; it adds both rows when it finds neither and nothing fails, and none when the private row is there or something fails |
| KeyHistory.SetupAllOrNothingInRuns | core/module.cpp:83-101 | in runs without bare stores setup is always all-or-nothing |
| KeyHistory.HalfAPairIsPossible | core/module.cpp:92-96 | after one bare store of the public key, a setup commits the private key alone and leaves a mismatched pair readable |
| KeyHistory.SetupWritesOnce | core/module.cpp:71-101 | after a setup that changed the table no later setup of that client changes it, whatever comes between |
| KeyHistory.SetupReadsBack | core/module.cpp:44-59 | with no update or removal of the client's keys in between, every later setup returns the pair first generated and leaves the table unchanged |
| KeyHistory.SetupAfterRemoval | core/module.cpp:44-101 | after one of a client's two keys is removed, every setup hands out a fresh pair and stores nothing |

## Left out

- LruCache.LruCache.Push: requires a maximum size of at least 1; with 0 the code takes the last element of an empty list (core/5thdlru_cache.h:34-37), which has no defined meaning.
- LruCache.LruCache.Get: keys and values are plain values, not references to shared objects; the mutex is the atomicity of each method.
- ThreadPool.StepKeepsInv: pushes from outside are possible only before stop, because a later caller would be using an object under destruction; a pool has at least one worker; exceptions thrown by a task are not modelled, and how one task decides to push another is arbitrary.
- SlotOwnership.NoTwoOwners: owners do not copy slot pointers to each other; a release through a stale copy of a pointer whose slot has meanwhile been handed out again is not modelled.
- SlotPool.SlotPool.ReleaseSlot: the canary is a field no modelled operation writes, so its check never fires and is not in the model; neither is the unused slot id, nor the calls that initialise and release user data.
- Transmitter.Transmitter.Send: what the slot's identity message holds is an argument, since libzmq decides what a send leaves in it; the branch for a null slot after a negative fullness test belongs to a concurrent caller and is not in the model.
- SoftwareBus.SoftwareBus.HandleMsg: requires one message-sized frame, because otherwise the code reads an uninitialised message; the frames of a failed forward stay on the socket as a prefix of the forward, and what libzmq does with them later is not modelled.
- SoftwareBus.SoftwareBus.SendMessage: the sizes of the identity part and its copy are not modelled; a forward is the identity, a delimiter and the message.
- BusRouting.RoutingLaw: stated for any pool size of at least 1; the code uses 10.
- KeyStore.KeyStore.StoreKey: creation and expiry times are stored but never read, so they are not in the model; texts contain no NUL character; prepare and bind failures are not modelled.
- KeyStore.KeyStore.HandleKeys: the result flag is not modelled (the keys-found path leaves it false); memory locking and allocation failures are not modelled; another process writing to the same database file between the steps is not modelled.
- `ZMQBus::_recv_message`, which nothing calls, and the log lookup in `CLIENTS_IDS`.
- The network helpers, the allocator, the logger, the process managers, the socket and context wrappers, the poll loops, the programs' entry points and the build files: input and output or platform calls with only easy properties.
- The error handler and its recovery actions: their header is not part of this model.
- `docs/architecture.md`, `docs/module_contract.md` and `docs/telemetry.md` describe designs that have no code here.
