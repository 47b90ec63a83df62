# jbpf, modelled and verified

jbpf runs small verified programs ("codelets") inside a host process. The host calls a hook, and the
codelets registered on it run one after another on the hook's arguments. Codelets keep state in maps,
and exchange messages with other processes through channels whose buffers come from a shared pool.
Sets of codelets are loaded and unloaded while the host is running.

This project models the parts of jbpf that are hard to get right and proves what they promise. Code
that changes things in place is a class whose methods are proved against functions of the old state.
Code that several threads run at once is a state machine whose steps are the accesses to shared memory
(in `Channel`, which is built on the steps of `Mempool`, a whole reservation is one step);
its results hold after every legal run, in any interleaving. Steps are taken to be sequentially
consistent.

| files | part of jbpf |
|---|---|
| `Mempool`, `MempoolObject` | the buffer pool, its reference counts and its destruction while buffers are out |
| `Channel`, `IoQueue` | a message channel: reservation, submission, reception, sharing, release, closing |
| `HookList`, `HookObject`, `HookEpoch` | the codelet list of a hook, its updates, and callers running during updates |
| `LinkedMaps`, `AliasKeys`, `Linking`, `Requests`, `HookTable`, `Codeletsets`, `Creation`, `Removals`, `Runs`, `Agent` | loading and unloading codeletsets: validation, linked maps, hooks, rollback |
| `IpcControl`, `IpcRegistration`, `ChannelRegistry` | the primary's control thread, registration of a secondary process, and the channels of all peers |
| `ThreadIds` | the bitmap of thread ids |
| `SpscHashmap`, `Lookup3`, `Lookup3Code`, `Lookup3Vectors` | the per-thread hash map and its hash function |
| `FixedPoint` | fixed-point numbers to and from IEEE 754 |
| `Perf`, `PerfEpoch` | timing histograms and their collection while hooks run |
| `Words`, `Collections` | bits of machine words, finite sets and sequences |

## What was found

Where a property one would expect does not hold, the code is modelled as it is, and the model states
exactly when the property holds.

- A failed load leaves `nmap_reg` too high by one for each unlinked map that was created but could not be
  registered in its codelet. It is as before exactly when no relocation of the codelet at which creation stopped does
  that (`Codeletsets.NoLeakIff`, `Agent.Agent.Load`, `LinkedMaps.FailedRegistrationStays`).
- A failed load gives back only the codelets it had hooked, so `total_num_codelets` is as before exactly when
  the first codelet already could not be created (`Codeletsets.FailureMeans`, `Agent.Agent.Load`). After any run of
  loads and unloads, `total_num_codelets` is the number of codelets registered exactly when no load of the run that
  failed had created a codelet, and `nmap_reg` that of the data objects exactly when none had leaked a map
  (`Runs.CountersOfRun`, `Agent.Serve`).
- A failed load leaves the hooks as they were exactly when, in the order in which they are unhooked, each codelet has
  memory for the shorter list or leaves its hook empty (`Codeletsets.RestoredIff`); in whatever order, exactly when each
  has memory or is alone on its hook (`Codeletsets.RestoredInEveryOrderIff`, `Codeletsets.AlwaysRestoredIff`).
- Codelets are destroyed even when they could not be removed from their hooks. After any run, every function on a hook
  belongs to a registered codelet exactly when each removal of the run found memory or emptied its hook
  (`Runs.HooksOfRun`, `Agent.Serve`); a codelet that shares its hook and is unloaded without memory stays there
  (`Removals.StrayAfterUnload`).
- A load whose request links maps that no codelet of the group uses can fault: the message for a group whose counts
  differ takes the name of a map that was never made (`Codeletsets.UnusedLinkFaults`). It never does exactly when
  every group has an alias its codelet uses (`Codeletsets.LoadNeverFaultsIff`).
- Linking two maps that earlier links had put in different groups does not merge the groups, and the two maps do
  not share data (`LinkedMaps.LinksJoinUnlessApart`, `LinkedMaps.GroupsAreNotMerged`, `Codeletsets.LoadedLinksShare`).
  All linked maps share theirs exactly when each link whose maps both have links already finds them connected
  (`Creation.AllLinksShareIff`); then sharing is being connected by links (`Creation.SharingIsConnection`).
- Alias strings of linked maps are not unique: `LinkedMaps.KeysCollide` says which collide, and
  `Requests.ValidRequestCollides` is a valid request with two that do. Aliases are pairs of names in the rest of the
  model; the table the code keeps is that of the pairs exactly when no two aliases of a request have one string
  (`AliasKeys.SameTableIff`). Its total_refs are the numbers of its entries exactly when each link with one string at
  both ends comes after another link that has it (`AliasKeys.CountsAreExactIff`): a link between two colliding aliases
  counts two references for one entry (`AliasKeys.OneEntryTwoReferences`), while colliding aliases of different links
  leave the counts right (`AliasKeys.SharedKeyCounts`).
- A full registry makes a request for a set that is already loaded fail, instead of being ignored (`Agent.Agent.Load`,
  `Agent.ReloadWhenFull`).
- A pool may be released under an allocation that has read `ring_alloc` and not yet dequeued when destroy is
  called; callers owe that no allocation is in flight (`Mempool.AllocInFlightIsUnsafe`).
- A queue closed without releasing reservations first, when a thread had one, leaves a pool that its receivers cannot
  bring to be released, whatever they give back (`IoQueue.ReceiversReleaseIff`).
- A sender clears its slot only after its buffer is in the ring. In between, the slot names a buffer that is queued or
  already with a receiver (`Channel.ReceivedFromFilledSlot`); every filled slot holds its thread's own reservation, which
  is what releasing all reservations relies on, exactly when no thread is in between (`Channel.SlotsAreReservationsIff`).
- A pool for 2^30 buffers or more cannot be made: its size overflows an int (`MempoolObject.NumElemsSpec`).
- The byte offset of a hash map entry is a 32-bit product; entries are disjoint exactly when it does not wrap
  (`SpscHashmap.LayoutIsSound`), and then a table is a finite map; otherwise writing one entry changes another
  (`SpscHashmap.WriteDisturbs`). So is the number of bytes that clear zeroes: it reaches every entry exactly in tables
  of fewer than 2^32 bytes, and none in one of 2^29 entries of 8 bytes (`SpscHashmap.ClearCovers`,
  `SpscHashmap.ClearOfNothing`).
- `fixed_to_double` and `fixed_to_float` are exact for |x| < 2^20 and |x| < 2^17, and for no other x
  (`FixedPoint.DoubleIsExact`, `FixedPoint.FloatIsExact`).
- `float_to_fixed` and `double_to_fixed` shift by the width of the word or more, which C does not define, exactly for
  magnitudes below 2^-16 and 2^-19, zero included, and from 2^47 and 2^108 on (`FixedPoint.FloatDefinedIff`,
  `FixedPoint.DoubleDefinedIff`); where the processor masks the shift, the float 2^-17 becomes 32768
  (`FixedPoint.TinyFloat`).
- Registration of a thread can be refused while every id is free (`ThreadIds.RefusedWithRoom`). It is refused exactly
  when, for every id, the thread read the bit set or the word changed between its read and its swap
  (`ThreadIds.RefusedIff`); when no other thread comes in between, exactly when no id is free
  (`ThreadIds.UncontendedGetsLowest`).
- A thread that was refused goes on to call hooks without an epoch record, and a thread that has cleaned up goes on with
  a record that may be another's by then (`ThreadIds.RefusedHasNoRecord`, `ThreadIds.RecordIsShared`). A call is safe
  exactly when the thread holds an id (`ThreadIds.CallIsSafeIff`).
- When no memory is found for the next block of times, NULL is published in its place. A process in which that has
  happened can fault although memory is found ever after, and only such a process can (`PerfEpoch.CanFaultIff`).
- Destroying an output channel reads its stream id once more after the barrier that frees it; no freed channel is read
  exactly as long as no output channel has been destroyed (`ChannelRegistry.FreedIsNotReadIff`,
  `ChannelRegistry.OutputReadAfterFree`).
- A thread that cleans up before it registers never gives its id back (`ThreadIds.GivenBackIff`,
  `ThreadIds.CleanupFirstKeepsId`).
- A peer that is refused before it is listed is removed all the same, and the removal of a peer that is not listed leaves
  its epoch section open. From then on the control thread waits for itself at its next barrier: it is stuck exactly when
  a message that has to wait comes after one that was refused (`IpcControl.StuckIff`, `IpcControl.EndsIff`). One peer for
  which no region can be mapped keeps the next one from registering (`IpcControl.SecondPeerWaits`).
- A peer that goes down while it negotiates leaves all its regions mapped in the primary, and so does a peer whose
  context cannot be listed with its one region. Every mapped region belongs to a listed peer exactly when neither has
  happened (`IpcControl.EveryRegionHasAPeerIff`, `IpcControl.RemovalLeaves`).
- When the heap cannot be made in the agreed region, the secondary process keeps its mapping of it
  (`IpcRegistration.Register`).

## Model

| member | source | states |
|---|---|---|
| Mempool.Conservation | src/mem_mgmt/jbpf_mempool.c:141-246 | free and outstanding buffers (with the destroy marker) always add up to the size of the pool |
| Mempool.InvStep | src/mem_mgmt/jbpf_mempool.c:141-259 | every atomic step of alloc, share, free and destroy, of any thread, keeps the invariant and touches no released memory |
| Mempool.RunKeeps | src/mem_mgmt/jbpf_mempool.c:141-259 | the invariant holds after every interleaving |
| Mempool.FullMeansLast | src/mem_mgmt/jbpf_mempool.c:232-245 | the return that finds the ring full is the return of the last outstanding buffer of a destroyed pool |
| Mempool.ReleasedExactlyWhenDrained | src/mem_mgmt/jbpf_mempool.c:141-246 | in every interleaving the pool is released at most once, and exactly when destroy has run and no buffer is outstanding |
| Mempool.NoTouchAfterRelease | src/mem_mgmt/jbpf_mempool.c:141-259 | no step touches pool memory that was released |
| Mempool.BuffersAreInOnePlace | src/mem_mgmt/jbpf_mempool.c:171-259 | each buffer is in exactly one place, and its count is the number of references held |
| Mempool.CountIsLedger | src/mem_mgmt/jbpf_mempool.c:171-259 | in every interleaving the count of a buffer in use is the number of times it was allocated or shared less the number of times it was freed |
| Mempool.InFlightIsLedger | src/mem_mgmt/jbpf_mempool.c:171-194 | in every interleaving the allocations in flight are the reads of ring_alloc less the dequeues, whether these found a buffer or not |
| Mempool.Drain | src/mem_mgmt/jbpf_mempool.c:209-246 | from every state after destroy, finishing what is under way and giving references back releases the pool, and only references that were out are given back |
| Mempool.HeldKeepsPool | src/mem_mgmt/jbpf_mempool.c:209-246 | as long as one reference is not given back the pool is not released, whatever else happens |
| Mempool.ReleasableIff | src/mem_mgmt/jbpf_mempool.c:141-246 | a destroyed pool can be released by giving back references to some buffers exactly when those are all the buffers to which someone has, or is about to have, a reference |
| Mempool.AllocInFlightIsUnsafe | src/mem_mgmt/jbpf_mempool.c:150-185 | whenever an alloc is between reading ring_alloc and dequeuing, calling destroy can lead to a released pool with that alloc still to dequeue |
| Words.RoundUpPow2Spec | src/mem_mgmt/jbpf_mem_mgmt_utils.h:12-22 | rounding up yields a power of two at least the argument, and 0 exactly for 0 and above 2^31 |
| Words.RoundUpPow2Least | src/mem_mgmt/jbpf_mem_mgmt_utils.h:12-22 | no smaller power of two would do |
| MempoolObject.NumElemsSpec | src/mem_mgmt/jbpf_mempool.c:22-31 | below 2^30 the number of elements is one less than a power of two and at least the number asked for; from 2^30 on the int overflows and the ring size is negative, from 2^31 on it is -1 |
| MempoolObject.Pool.Create | src/mem_mgmt/jbpf_mempool.c:19-133 | the new pool has all its buffers free; creation fails exactly without memory or from 2^30 elements |
| MempoolObject.Pool.Alloc | src/mem_mgmt/jbpf_mempool.c:171-194 | hands out the oldest free buffer with one reference, or nothing when the pool is empty or destroyed, as a run of the machine |
| MempoolObject.Pool.Share | src/mem_mgmt/jbpf_mempool.c:248-259 | one reference more, and nothing else |
| MempoolObject.Pool.Free | src/mem_mgmt/jbpf_mempool.c:209-246 | one reference less; the last returns the buffer or releases the destroyed pool, as a run of the machine |
| MempoolObject.Pool.Destroy | src/mem_mgmt/jbpf_mempool.c:141-169 | releases the pool at once exactly when no buffer is out |
| MempoolObject.FreedSpec | src/mem_mgmt/jbpf_mempool.c:209-246 | freeing a held buffer is a legal run and returns it exactly with the last reference |
| MempoolObject.FreedMeans | src/mem_mgmt/jbpf_mempool.c:209-246 | a free takes one reference back and nothing else; the last of a buffer puts it at the end of the free ring, or gives the pool back when the ring is full |
| MempoolObject.ShareThenFree | src/mem_mgmt/jbpf_mempool.c:209-259 | sharing a buffer and freeing it changes nothing |
| MempoolObject.AllocThenFree | src/mem_mgmt/jbpf_mempool.c:171-246 | allocating hands out the oldest free buffer with one reference, and freeing that puts it last in the free ring |
| MempoolObject.DestroyedSpec | src/mem_mgmt/jbpf_mempool.c:141-169 | destroying a pool is a legal run that releases it exactly when nothing is held |
| Channel.PoolFits | src/io/jbpf_io_queue.c:38-58 | the ring of a queue has room for every buffer of its pool |
| Channel.InitIsNew | src/io/jbpf_io_queue.c:14-74 | for any number of threads, a queue for max_entries messages starts empty over a pool with one buffer more for each thread, and its ring holds them all |
| Channel.StepKeeps | src/io/jbpf_io_queue.c:115-205 | reserve, write, enqueue, clearing the slot, receive, share and release of any thread keep the channel's invariant |
| Channel.RunKeeps | src/io/jbpf_io_queue.c:115-205 | it holds after every interleaving |
| Channel.ReceivedIsPrefixOfSent | src/io/jbpf_io_queue.c:160-205 | what was received is a prefix of what was submitted, and the rest is in the ring in order |
| Channel.ReceivedBufferIsStable | src/io/jbpf_io_channel.c:770-798 | a received buffer keeps the contents it was submitted with, and is nowhere else, while a receiver holds it |
| Channel.EveryBufferHasOneOwner | src/io/jbpf_io_queue.c:115-205 | every buffer is free, returning, reserved by one thread, queued, or with receivers |
| Channel.SlotsAreReservationsIff | src/io/jbpf_io_queue.c:95-113 | every filled slot holds its thread's own reservation exactly when no thread is between enqueuing and clearing its slot |
| Channel.ReceivedFromFilledSlot | src/io/jbpf_io_queue.c:173-182 | a run after which a receiver has the buffer that the sender's slot still names |
| Channel.SubmitNeverFindsRingFull | src/io/jbpf_io_queue.c:160-184 | a thread with a reservation can always submit, and its message goes last |
| Channel.MaxEntriesAlwaysAccepted | src/io/jbpf_io_queue.c:36-50 | with fewer than max_entries messages unreceived or held, every thread that is not in the middle of a submission can reserve, whatever the others have reserved |
| Channel.WriteMeaning | src/io/jbpf_io_channel.c:679 | writing to a reserved buffer puts the data in its first bytes, keeps the later bytes and touches no other buffer, slot or message |
| Channel.WhatIsWrittenArrives | src/io/jbpf_io_channel.c:658-690 | whatever the other threads do between the write and the submission, and after it, the message is appended to those sent, it starts with what was written, and it is received as it was sent |
| Channel.EverythingCanBeReceived | src/io/jbpf_io_queue.c:186-205 | from every reachable state the messages sent and not yet received can be received, and then all that was sent has been received |
| Channel.ReleasedIsFree | src/io/jbpf_io_channel.c:770-798 | giving back every reference to a received buffer makes the buffer free again and touches no other |
| Channel.SharedOutlives | src/io/jbpf_io_channel.c:831-844 | a shared buffer outlives the references there were before: once they are released it is still with a receiver, with its contents, and not free |
| IoQueue.Queue.constructor | src/io/jbpf_io_queue.c:14-74 | a new queue is empty with no reservations |
| IoQueue.Queue.Reserve | src/io/jbpf_io_queue.c:115-147 | a thread's second reservation is its first; otherwise a new buffer or none, as a step of the channel |
| IoQueue.Queue.Enqueue | src/io/jbpf_io_queue.c:160-184 | -2 without a reservation, -1 for a full ring, otherwise the buffer is queued and the slot cleared, as the two steps of the channel |
| IoQueue.Queue.SendData | src/io/jbpf_io_channel.c:658-690 | -1 exactly when the data is longer than an element or no buffer is to be had; otherwise the last message sent starts with the data |
| IoQueue.Queue.Dequeue | src/io/jbpf_io_queue.c:186-205 | the oldest submitted buffer, or none |
| IoQueue.Queue.ReceiveBatch | src/io/jbpf_io_channel.c:770-798 | up to batch_size buffers, oldest first, and the messages received are exactly theirs |
| IoQueue.Queue.ReleaseAll | src/io/jbpf_io_queue.c:95-113 | every thread's reservation is given back and nothing else |
| IoQueue.Queue.Free | src/io/jbpf_io_queue.c:76-93 | the ring is emptied and the pool released at once exactly when only queued buffers were out |
| IoQueue.Queue.Close | src/io/jbpf_io.c:156-179 | the pool is released at once exactly when no receiver holds a buffer and reservations were released first or there were none; the references left are exactly those of receivers and of reservations not released |
| IoQueue.ReceiversReleaseIff | src/io/jbpf_io_queue.c:76-113 | after closing, the receivers can bring the pool to be released exactly when no reservation was left behind and no allocation is under way |
| HookList.ListIsStableSort | src/core/jbpf_hook.c:51-99 | after any registrations and removals the list is the stable sort by descending priority of what is registered, without duplicates, with at most one entry on a control hook |
| HookList.StableSortUnique | src/core/jbpf_hook.c:51-99 | that determines the list |
| HookList.RegisterThenRemove | src/core/jbpf_hook.c:130-170 | removing what was registered restores the list |
| HookList.RegistersIff | src/core/jbpf_hook.c:36-72 | after any updates a registration adds its codelet last to what is registered exactly when it has a function, no codelet of that function is registered, a control hook has none, and there is memory; otherwise nothing changes |
| HookList.RemovesIff | src/core/jbpf_hook.c:130-170 | a removal takes exactly the codelet of that function off what is registered, exactly when it is there and there is memory or no other is registered; otherwise nothing changes |
| HookObject.Hook.Scan | src/core/jbpf_hook.c:53-72 | finds the insertion position and whether the codelet is there |
| HookObject.Hook.RegisterCodelet | src/core/jbpf_hook.c:23-112 | succeeds exactly for a new non-NULL codelet that fits a control hook with memory; then the new array holds the inserted list, otherwise nothing changes |
| HookObject.Hook.RemoveCodelet | src/core/jbpf_hook.c:114-180 | succeeds exactly when the codelet is there and memory is found or the list becomes empty; then the codelet is gone and the order kept |
| HookObject.Hook.Run | src/core/jbpf_hook.h:72-78 | runs exactly the codelets of the list in order, each with its own time threshold |
| HookEpoch.RunKeeps | src/core/jbpf_hook.c:41-180 | the invariant of callers and one writer holds after every interleaving |
| HookEpoch.NoUseAfterFree | src/core/jbpf_hook.h:120-138 | no caller reads an array that was freed |
| HookEpoch.SectionRunsOneList | src/core/jbpf_hook.h:120-138 | a caller that leaves its section has run exactly, and in order, one list that was current during the section; one that skipped the hook did so for a list that was empty then |
| HookEpoch.UndisturbedRunsCurrent | src/core/jbpf_hook.h:120-138 | a caller in whose section no update publishes has run the current list |
| HookEpoch.CallerFinishes | src/core/jbpf_hook.h:72-138 | from every reachable state a caller's own steps take it to the end of its section |
| HookEpoch.CurrentIsReplay | src/core/jbpf_hook.c:23-180 | in every interleaving the current list is that of all updates so far, one after another, but for one that has the lock and has not published |
| HookEpoch.UpdateFinishes | src/core/jbpf_hook.c:101-180 | from every reachable state an update that has published can finish: the callers it waits for can leave, and nothing else is published |
| HookEpoch.IdleMeansCurrent | src/core/jbpf_hook.c:101-106 | while no update is under way callers run only codelets of the current list |
| HookEpoch.NullIffEmpty | src/core/jbpf_hook.c:74-101 | in every interleaving the hook's pointer is NULL exactly when no codelet is registered, and otherwise leads to an allocated array of the current list |
| HookEpoch.OneArrayWhenIdle | src/core/jbpf_hook.c:74-180 | no array is lost: when no update is under way the array of the current list is the only one allocated, and there is none without codelets |
| HookEpoch.WaitsIffReplaces | src/core/jbpf_hook.c:99-106 | an update of an empty hook waits for no caller; any other waits for exactly the callers that are inside once it has published |
| HookEpoch.RemovedCodeletNeverRuns | src/core/jbpf_hook.c:171-176 | once a remove has returned no caller is inside the codelet, then or later, until it is registered again |
| HookEpoch.EveryPublishedListIsSorted | src/core/jbpf_hook.c:51-101 | every list that callers see is sorted, without duplicates and NULLs |
| LinkedMaps.StepKeeps | src/core/jbpf.c:694-913 | linking, relocating, unmapping and dropping an alias keep the invariant of counts, data and nmap_reg |
| LinkedMaps.RunKeeps | src/core/jbpf.c:694-913 | it holds after any run of them |
| LinkedMaps.CountsAreExact | src/core/jbpf.c:782-913 | total_refs is the number of aliases in the table for the group, ref_count the number of those whose codelet has the map, 0 <= ref_count <= total_refs, and nmap_reg the number of data objects plus failed registrations |
| LinkedMaps.SharingIsLinking | src/core/jbpf.c:782-846 | two codelets use the same data exactly when their aliases are in one group, and then with the same definition |
| LinkedMaps.RelocationSucceedsIff | src/core/jbpf.c:694-847 | a relocation succeeds exactly when the codelet has the map, or it can be registered and is unlinked and creatable, or linked, no IO map, and either creatable as the first of its group or of the definition its group has |
| LinkedMaps.RelocationLeaves | src/core/jbpf.c:694-847 | a relocation that succeeds gives the codelet the map its group has, or a new one counted in nmap_reg exactly when there was none |
| LinkedMaps.CheckIsComplete | src/core/jbpf.c:1418-1444 | ref_count equals total_refs for all groups exactly when every alias has its map |
| LinkedMaps.CheckPassesIff | src/core/jbpf.c:1418-1444 | going over all aliases in any order passes exactly when every alias has its map |
| LinkedMaps.NeverFaultsIff | src/core/jbpf.c:1418-1444 | once every relocation has succeeded, the check meets no group without a map, in any order, exactly when every group is used |
| LinkedMaps.FreedWithLastUse | src/core/jbpf.c:875-912 | a data object is freed exactly with its last user and never before, a group record exactly with its last alias |
| LinkedMaps.RecordsExist | src/core/jbpf.c:887-903 | no alias leads to a freed record |
| LinkedMaps.NothingLeft | src/core/jbpf.c:1477-1505 | without codelets and aliases no record and no data object is left, and nmap_reg counts only the failed registrations |
| LinkedMaps.FailedRegistrationStays | src/core/jbpf.c:772-778 | the registration of an unlinked map that fails leaves nmap_reg one too high |
| LinkedMaps.FailedLinkedRegistration | src/core/jbpf.c:782-812 | when the first map of a group is created and cannot be registered nothing changes but that the group's record points to it |
| LinkedMaps.LinksJoinUnlessApart | src/core/jbpf.c:1180-1287 | a link puts its maps in one group exactly when earlier links had not put them in different groups |
| LinkedMaps.GroupsAreNotMerged | src/core/jbpf.c:1242-1262 | linking a-b, c-d, b-c leaves b and c in different groups |
| LinkedMaps.PairsOfLinks | src/core/jbpf.c:1180-1287 | the table holds the aliases of the links and no others, and each leads to a record |
| Linking.GroupIsConnected | src/core/jbpf.c:1180-1287 | maps put in one group are connected by a chain of links |
| Linking.AllJoinIff | src/core/jbpf.c:1180-1287 | every link puts its two maps in one group exactly when each link that finds both its maps linked already finds them connected |
| Linking.GroupsAreComponents | src/core/jbpf.c:1180-1287 | then the groups are the components of the graph of the links |
| Requests.ValidRequestCollides | src/core/jbpf.c:724-727 | a valid request whose only link is between two aliases with one key |
| LinkedMaps.KeysCollide | src/core/jbpf.c:724-727 | two aliases have one key exactly when the longer codelet name continues the shorter past an underscore and the map names make up the difference |
| AliasKeys.SameTableIff | src/core/jbpf.c:1180-1287 | the table under strings is the table under pairs, with the same records and counts, exactly when no two aliases of the links have one string |
| AliasKeys.CountsAreExactIff | src/core/jbpf.c:1240-1285 | total_refs of every record is the number of entries that lead to it exactly when each link with one string at both ends comes after another link that has it |
| AliasKeys.OneEntryTwoReferences | src/core/jbpf.c:1240-1285 | a link between two aliases with one string makes one entry and counts two references |
| AliasKeys.SharedKeyCounts | src/core/jbpf.c:1240-1285 | two links with colliding aliases after which all counts are right |
| LinkedMaps.KeysAreInjective | src/core/jbpf.c:724-727 | without underscores in codelet names keys are unique |
| Requests.CheckString | src/core/jbpf.c:240-272 | a string is valid exactly when it is set and shorter than its limit |
| Requests.GoodDescriptorIff | src/core/jbpf.c:315-459 | a codelet descriptor is good exactly when its texts have 1 to 255 characters, it does not link to itself, and no map of it is linked twice or linked to twice |
| Requests.WellFormedIff | src/core/jbpf.c:287-480 | a request is well-formed exactly when its name fits and it has 1 to 16 good descriptors of different names |
| Requests.Validate | src/core/jbpf.c:274-480 | a request is valid exactly when its strings are, it has 1 to 16 codelets with unique names, no codelet links to itself, and map names and linked pairs are unique in each codelet |
| Requests.AllLinksDistinct | src/core/jbpf.c:402-421 | a valid request links no map with itself |
| Requests.LinkPosition | src/core/jbpf.c:1185-1215 | link j of codelet i, between the codelet's map and the linked codelet's, is taken after all links of the codelets before and the j before it; the links taken are as many as the codelets have |
| Requests.LinkedIff | src/core/jbpf.c:1180-1287 | the table holds both ends of every link of every codelet, and nothing else |
| Requests.PopulateTable | src/core/jbpf.c:1180-1287 | the table is built from every link of every codelet in the order of the request, and holds exactly their ends |
| HookTable.HookUnhook | src/core/jbpf_hook.c:23-112 | hooking an absent codelet changes nothing once it is taken off again, with any others, in any order |
| HookTable.RestoredIffAllOff | src/core/jbpf_hook.c:114-180 | the hooks are as before exactly when all that was put on has been taken off |
| Codeletsets.PutMeaning | src/core/jbpf.c:1009-1038 | hooking a codelet puts it last among its priority, keeps the order of the rest and touches no other hook; unhooking it undoes that |
| Codeletsets.TakeMeaning | src/core/jbpf.c:1041-1065 | unhooking takes that entry off, keeps the order of the rest and touches no other hook |
| Codeletsets.PutsHooked | src/core/jbpf.c:1446-1476 | codelets hooked in any order are all there, and taking them off gives the hooks back |
| Codeletsets.HooksRestored | src/core/jbpf.c:1477-1491 | after a rollback the hooks are as before exactly when every hooked codelet was taken off |
| Codeletsets.RestoredIff | src/core/jbpf.c:1477-1491 | codelets hooked and then unhooked in some order leave the hooks as they were exactly when each, in its turn, has memory for the shorter list or empties its hook |
| Codeletsets.RestoredInEveryOrderIff | src/core/jbpf.c:1477-1491 | in every order, exactly when each has memory or is alone on its hook |
| Codeletsets.AlwaysRestoredIff | src/core/jbpf.c:1446-1491 | a load that cannot hook all its codelets restores the hooks, whatever the orders, exactly when each codelet it may have hooked by then has memory or is alone on its hook |
| Codeletsets.StopsOrAll | src/core/jbpf.c:1396-1416 | where creation stops says exactly whether all codelets can be created, and whether the first can |
| Codeletsets.NoLeakIff | src/core/jbpf.c:1396-1416 | a request leaks no map exactly when it creates all its codelets, or the first it cannot create is not available, or none of its relocations creates an unlinked map that cannot be registered |
| Codeletsets.FullIff | src/core/jbpf.c:1418-1444 | the check of linked maps passes exactly when both ends of every link of every codelet are relocations of codelets of the request |
| Codeletsets.LoadNeverFaultsIff | src/core/jbpf.c:1418-1436 | the check never faults, in any order of the table, exactly when every group has an alias its codelet uses |
| Codeletsets.UnusedLinkFaults | src/core/jbpf.c:1242-1262 | a valid request of two codelets linking maps that neither uses: both are created and the check faults |
| Codeletsets.LoadedLinksShare | src/core/jbpf.c:1180-1444 | in a loaded set, for every link of every codelet, both maps exist, and share one data object of one definition exactly when earlier links had not put them apart |
| Creation.AllCreateIff | src/core/jbpf.c:694-993 | all codelets can be created exactly when each is available and compiles, and each map it asks for can be had: it has it, or it can be registered, is no IO map if linked, and is creatable with room in nmap_reg when it is unlinked or the first use of its group, or has the definition of the first use otherwise; nmap_reg grows by the maps that had to be made |
| Creation.AllHookedIff | src/core/jbpf.c:1446-1476 | in any order all codelets are hooked exactly when each fits its hook as it was and no two of them clash |
| Creation.LoadsIff | src/core/jbpf.c:1396-1531 | an admitted load succeeds, in any order of its hash tables, exactly when all codelets can be created, every linked map is asked for and all codelets fit; it reports a failed creation exactly when some codelet cannot be created |
| Creation.SharersLoad | src/core/jbpf.c:814-846 | any number of codelets that link one map of one definition load if they fit on their hooks and there is room for one map, and one map is made |
| Creation.AllLinksShareIff | src/core/jbpf.c:1180-1444 | in a loaded set the maps of every link share their data exactly when no link comes too late |
| Creation.SharingIsConnection | src/core/jbpf.c:1180-1444 | then two maps of the set share their data exactly when a chain of links connects them |
| Codeletsets.FailureMeans | src/core/jbpf.c:1477-1507 | exactly when a failed load leaves hooks, nmap_reg and total_num_codelets as they were |
| Codeletsets.SoundPut | src/core/jbpf.c:1514-1531 | registering a set keeps total_num_codelets at least the codelets registered and at most 64, and nmap_reg exact |
| Codeletsets.SoundDrop | src/core/jbpf.c:1577-1597 | so does removing one |
| Agent.Agent.RelocateAll | src/core/jbpf.c:694-847 | the relocations of a codelet fail exactly when one of them does (each as `LinkedMaps.RelocationSucceedsIff` says), and leave exactly the maps, data and leaks of the relocations made |
| Agent.Agent.DestroyMaps | src/core/jbpf.c:852-913 | the codelet's maps are gone, the others' are untouched, and nmap_reg has followed the data |
| Agent.Agent.CreateCodelet | src/core/jbpf.c:915-993 | succeeds exactly when file, relocations and compilation do; after a failure the maps are those of the other codelets, and the leaks those of the relocations that were made |
| Agent.Agent.CreateAll | src/core/jbpf.c:1396-1416 | stops at the first codelet that cannot be created; total_num_codelets counts the created |
| Agent.Agent.CheckLinked | src/core/jbpf.c:1418-1444 | passes exactly when every alias has its map; otherwise stops at the first alias whose group is not complete, and faults there exactly when the group has no map |
| Agent.Agent.HookAll | src/core/jbpf.c:1446-1476 | hooks codelets in some order, all of them or up to one that cannot be hooked |
| Agent.Agent.TakeBack | src/core/jbpf.c:1477-1491 | unhooks the hooked codelets and destroys all, in any order |
| Agent.Agent.Undo | src/core/jbpf.c:1477-1507 | after the rollback no map, alias or data object of the set is left |
| Agent.Agent.Admit | src/core/jbpf.c:1299-1380 | each reason to refuse a request, in the order of the checks |
| Agent.Agent.Load | src/core/jbpf.c:1289-1531 | the whole outcome: a refused request or a loaded set changes nothing; it succeeds exactly when all codelets can be created, all linked maps are asked for and all codelets fit their hooks; success registers and hooks all codelets and counts them; failure leaves the registry as it was, and the hooks, nmap_reg and total_num_codelets exactly under conditions on the request and the state before; at most 64 codelets and 64 sets |
| Agent.Agent.Unload | src/core/jbpf.c:1533-1598 | the set leaves the registry with its codelets, hooks, maps and all its data; an unknown set changes nothing |
| Agent.Agent.LoadUnload | src/core/jbpf.c:1289-1598 | loading a new set and unloading it leaves registry, total_num_codelets and nmap_reg as they were, and the hooks exactly when each codelet comes off in its turn |
| Agent.Serve | src/core/jbpf.c:1289-1598 | whatever loads and unloads are served, the states the agent goes through in place are a run of them, up to its end or to a load that faults; so its counters and hooks are those of that run |
| Runs.RunIsFixed | src/core/jbpf.c:1289-1598 | a run is fixed by its first state, its operations and the orders in which hash tables are gone over |
| Runs.RunCounts | src/core/jbpf.c:1289-1598 | after every operation of a run the counters are what is registered and what the failed loads so far left counted |
| Runs.CountersOfRun | src/core/jbpf.c:1289-1598 | after any run total_num_codelets is at most 64, and the number of codelets registered exactly when no load of the run that failed had created one; nmap_reg is the number of data objects exactly when no load of the run that failed had leaked a map; at most 64 sets |
| Runs.HooksOfRun | src/core/jbpf.c:1289-1598 | after any run every hook is in order of priority without duplicates and has all registered codelets of it, and no other function exactly when each removal of the run found memory or emptied its hook |
| Agent.ReloadWhenFull | src/core/jbpf.c:1328-1342 | an agent with 64 sets answers the load of one of them with an error |
| Removals.NoneLeftIff | src/core/jbpf.c:1477-1491 | going over hooked codelets leaves nothing on the hooks exactly when each removal found memory or emptied its hook |
| Removals.ChangeKeeps | src/core/jbpf.c:1289-1598 | every load, failed load and unload keeps the lists in order, each registered codelet on its hook once, and nothing else there but what failed removals left |
| Removals.NoStrayIff | src/core/jbpf.c:1572-1583 | every function on a hook belongs to a registered codelet exactly when each removal so far found memory or emptied its hook |
| Removals.StrayAfterUnload | src/core/jbpf.c:1572-1583 | a codelet that shares its hook and is removed without memory leaves its function there |
| IpcControl.StuckIff | src/io/jbpf_io_ipc.c:161-235 | over any messages, the control thread is stuck exactly when one that has to wait came after one that was refused; until then the registrations are as if every message had been served to its end |
| IpcControl.EndsIff | src/io/jbpf_io_ipc.c:510-536 | a registration or removal ends exactly when no earlier peer was refused before being listed or there is nothing to wait for |
| IpcControl.ListedIff | src/io/jbpf_io_ipc.c:852-959 | after any messages at most 64 peers are listed, and a new one is listed exactly when fewer are, there is memory, its tables can be had, a region can be mapped and its context can be listed |
| IpcControl.AnsweredIff | src/io/jbpf_io_ipc.c:961-1069 | a negotiating peer is registered exactly when it mapped the region and the heap was made, asked again exactly when it did not, was asked fewer than ten times and a region can be mapped, and dropped otherwise; no other peer is touched |
| IpcControl.WaitsIff | src/io/jbpf_io_ipc.c:510-536 | the thread comes to a barrier exactly when a listed peer stops being listed or a new one finds room and memory, and leaves a section open exactly when a new peer is not listed or a peer leaves that is not |
| IpcControl.StuckLeaves | src/io/jbpf_io_ipc.c:510-536 | a message at which the thread gets stuck lists the same peers as if it were served to its end, but the region of a registered peer that leaves stays mapped |
| IpcControl.RefusedBlocksNext | src/io/jbpf_io_ipc.c:597-645 | after a refused peer no registration for which there is room, and no removal of a listed peer, ends |
| IpcControl.SecondPeerWaits | src/io/jbpf_io_ipc.c:640-641 | a peer for which no region can be mapped, and one for which everything is there: the second is never answered |
| IpcControl.LeftIff | src/io/jbpf_io_ipc.c:103-116 | a region is left behind exactly when a peer went down in mid-negotiation or a context could not be listed |
| IpcControl.EveryRegionHasAPeerIff | src/io/jbpf_io_ipc.c:103-116 | every mapped region belongs to exactly one listed peer exactly when none was left behind |
| IpcControl.RemovalLeaves | src/io/jbpf_io_ipc.c:510-536 | a removed peer leaves exactly its proposed regions mapped if it was negotiating, and nothing otherwise |
| IpcControl.Primary.Start | src/io/jbpf_io_ipc.c:852-959 | the first region is mapped and proposed, or the peer is refused; the thread gets past its barrier exactly when no section is open or there is no room; a refused peer leaves a region mapped exactly when its context could not be listed |
| IpcControl.Primary.HandleInit | src/io/jbpf_io_ipc.c:597-645 | a registration is answered exactly when the thread gets past the barrier; a refused peer is removed although it is not listed, which leaves a section open |
| IpcControl.Primary.HandleReply | src/io/jbpf_io_ipc.c:597-645 | the answer to a secondary, after which it is registered, asked again or removed |
| IpcControl.Primary.Accept | src/io/jbpf_io_ipc.c:987-1010 | of the peer's regions only the agreed one stays mapped; without a heap none does |
| IpcControl.Primary.Retry | src/io/jbpf_io_ipc.c:1011-1050 | another region is proposed with all earlier ones still mapped, or, after the tenth attempt or a failed mapping, none of the peer's stays mapped |
| IpcControl.Primary.FreeUnused | src/io/jbpf_io_ipc.c:1056-1064 | exactly the first n regions are unmapped |
| IpcControl.Primary.RemovePeer | src/io/jbpf_io_ipc.c:510-536 | a listed peer leaves with the region of its heap, if it has one, and its other regions stay; a peer that is not listed leaves a section open; the barrier is passed exactly when no section is open |
| IpcControl.Serve | src/io/jbpf_io_ipc.c:199-235 | the thread, working in place, does what the run of its messages says |
| IpcRegistration.Register | src/io/jbpf_io_ipc.c:1184-1250 | it ends exactly when no section is open or there is no room; then it succeeds, within ten attempts, exactly when the primary can take the peer, the secondary can map an offered region before the offers end and the heap can be made; then both share that one region, otherwise the primary keeps none but that of a context it could not list; a refused peer leaves a section open |
| IpcRegistration.Negotiate | src/io/jbpf_io_ipc.c:1186-1245 | the loop of offers and answers settles on the first region the secondary can map |
| IpcRegistration.NeverSettles | src/io/jbpf_io_ipc.c:1186-1188 | once the offers have run out no address settles the negotiation |
| ChannelRegistry.ReplayAgrees | src/io/jbpf_io_channel.c:287-483 | after any creations and destructions the hash table, the slot array and the channels agree, with at most 512 channels |
| ChannelRegistry.AddSpec | src/io/jbpf_io_channel.c:320-336 | a channel is refused exactly when the list is full or its stream is taken; a free slot is there otherwise |
| ChannelRegistry.ChannelList.Create | src/io/jbpf_io_channel.c:287-410 | adds the channel to table, array and counter exactly when there is room, the stream is new and it could be made; otherwise nothing changes |
| ChannelRegistry.ChannelList.Destroy | src/io/jbpf_io_channel.c:412-483 | the channel leaves table, array and counter and no other does |
| ChannelRegistry.FreedIsNotReadIff | src/io/jbpf_io_channel.c:412-483 | over any operations no freed input channel is read, and no freed output channel exactly as long as none has been destroyed |
| ChannelRegistry.OutputReadAfterFree | src/io/jbpf_io_channel.c:442-447 | an output channel made and destroyed is read after it is freed, an input channel is not |
| ChannelRegistry.ChannelList.DestroyAll | src/io/jbpf_io_ipc.c:82-102 | exactly the channels of the peer are destroyed |
| ChannelRegistry.Direction.AddPeer | src/io/jbpf_io_ipc.c:895-909 | a new peer has a table of its own, without channels |
| ChannelRegistry.Direction.CreateFor | src/io/jbpf_io_ipc.c:686-744 | a peer's new channel is registered and in the peer's table; an unknown peer gets none |
| ChannelRegistry.Direction.CreateLocal | src/io/jbpf_io_ipc.c:659-684 | a channel in the primary's own memory belongs to no peer |
| ChannelRegistry.Direction.DestroyFor | src/io/jbpf_io_ipc.c:815-850 | a peer's own channel leaves the registry and the peer's table |
| ChannelRegistry.Direction.RemovePeer | src/io/jbpf_io_ipc.c:510-536 | no registered channel is left in the memory of the removed peer, and everyone else's channels are untouched |
| ChannelRegistry.OnlyOwnChannels | src/io/jbpf_io_ipc.c:815-850 | the tables stay sound exactly when a peer destroys a channel of its own |
| ThreadIds.FreeSpec | src/core/jbpf_bitmap.h:46-55 | freeing clears that bit only, and index -1 changes nothing |
| ThreadIds.RunKeeps | src/core/jbpf_bitmap.h:29-55 | the invariant holds after every interleaving of registrations and cleanups |
| ThreadIds.IdsAreExclusive | src/core/jbpf.c:1954-1985 | an id taken and not given back is in range and no other thread has it |
| ThreadIds.SetBitsAreHeld | src/core/jbpf_bitmap.h:29-55 | a bit is set exactly when some thread took that id and has not given it back |
| ThreadIds.CallIsSafeIff | src/core/jbpf_hook.h:121-139 | in every interleaving a thread's records are there and set aside for it alone exactly when it holds an id |
| ThreadIds.RefusedHasNoRecord | src/core/jbpf.c:1953-1964 | a thread without an id has no epoch record and an index of times that is out of range |
| ThreadIds.RecordIsShared | src/core/jbpf.c:2218-2233 | a run after which a thread that has cleaned up and one that has taken its id have one record |
| ThreadIds.CleanupFirstKeepsId | src/core/jbpf.c:2218-2233 | a run in which a thread cleans up first, then takes the only id and never gives it back |
| ThreadIds.GivenBackIff | src/core/jbpf.c:2218-2233 | a thread that has an id can still give it back exactly when it did not clean up before it registered |
| ThreadIds.NoStepIsOutOfBounds | src/core/jbpf_bitmap.h:29-55 | whatever a thread is about to do, it can do within bounds |
| ThreadIds.RefusedWithRoom | src/core/jbpf_bitmap.h:32-43 | a run in which a thread is refused with every id free |
| ThreadIds.RefusedIff | src/core/jbpf_bitmap.h:29-44 | in every interleaving a registering thread is refused exactly when, for every id, it read the bit set or the word changed between its read and its swap |
| ThreadIds.UncontendedGetsLowest | src/core/jbpf_bitmap.h:29-44 | when no other thread comes in between, a registering thread gets the lowest free id and is refused exactly when there is none |
| ThreadIds.Bitmap.Allocate | src/core/jbpf_bitmap.h:29-44 | without other threads, the lowest free bit, or -1 exactly when there is none |
| ThreadIds.Bitmap.Free | src/core/jbpf_bitmap.h:46-55 | that bit is cleared and no other |
| SpscHashmap.NextProbe | src/core/jbpf_bpf_spsc_hashmap.h:115-120 | stepping with the mask visits the slots in circular order and is home again after exactly one turn |
| SpscHashmap.MissedIsAbsent | src/core/jbpf_bpf_spsc_hashmap.h:88-123 | a probe that ends at a free slot or after a turn shows that the key is not stored |
| SpscHashmap.InsertReflects | src/core/jbpf_bpf_spsc_hashmap.h:146-188 | storing a new key at the first free probe keeps every other key reachable |
| SpscHashmap.UsedCount | src/core/jbpf_bpf_spsc_hashmap.h:146-188 | a table without a free slot stores as many keys as it has slots |
| SpscHashmap.LayoutIsSound | src/core/jbpf_bpf_spsc_hashmap.h:103-117 | no two entries share a byte exactly when the last offset does not wrap at 32 bits |
| SpscHashmap.WriteIsLocal | src/core/jbpf_bpf_spsc_hashmap.h:163-178 | then writing the bytes of an entry changes what is read of that entry and of no other |
| SpscHashmap.WriteDisturbs | src/core/jbpf_bpf_spsc_hashmap.h:163-178 | otherwise there is an entry such that writing it while it is free changes what is read of entry 0 |
| SpscHashmap.ClearCovers | src/core/jbpf_bpf_spsc_hashmap.h:49-50 | clearing reaches every entry exactly when the table has fewer than 2^32 bytes |
| SpscHashmap.ClearOfNothing | src/core/jbpf_bpf_spsc_hashmap.h:49-50 | a soundly laid out table of which clearing zeroes nothing |
| SpscHashmap.Table.constructor | src/core/jbpf_bpf_spsc_hashmap.c:4-36 | a new table is empty, and stands for the empty map exactly for 1 to 2^31 entries whose offsets do not wrap |
| SpscHashmap.Table.Find | src/core/jbpf_bpf_spsc_hashmap.h:100-120 | over the bytes of the table, the probe loop ends at the key's slot, at a free slot, or after a full turn of a full table |
| SpscHashmap.Table.Lookup | src/core/jbpf_bpf_spsc_hashmap.h:88-123 | in a table whose entries do not overlap, finds a value exactly for the keys stored, and the one stored last |
| SpscHashmap.Table.Reset | src/core/jbpf_bpf_spsc_hashmap.h:125-143 | the value of a stored key becomes zero |
| SpscHashmap.Table.Update | src/core/jbpf_bpf_spsc_hashmap.h:146-188 | in a table whose entries do not overlap, full exactly when the key is new and max_entries are stored; otherwise the key has the value and nothing else changes, and the entries still do not overlap |
| SpscHashmap.Table.Clear | src/core/jbpf_bpf_spsc_hashmap.h:39-53 | the entries that begin within the bytes cleared are freed and no others; nothing is stored exactly when those are all the used ones |
| Lookup3.MixIsBijection | src/core/jbpf_lookup3.c:64-118 | mix is reversible |
| Lookup3.FinalIsBijection | src/core/jbpf_lookup3.c:120-165 | final is reversible |
| Lookup3.RotSwaps | src/core/jbpf_lookup3.c:62 | a rotation by k swaps the top k bits of a word with the rest |
| Lookup3.RotTwice | src/core/jbpf_lookup3.c:62 | rotating by k and by 32 - k gives the word back |
| Lookup3.RotBit | src/core/jbpf_lookup3.c:62 | bit i of a word rotated by k is bit i - k of the word, counted around |
| Lookup3Vectors.FourScoreVector | src/core/jbpf_lookup3.c:1267-1268 | the hash of "Four score and seven years ago" with seeds 0 and 0 is 17770551 and ce7226e6 |
| Lookup3Vectors.EmptyVectors | src/core/jbpf_lookup3.c:1261-1266 | the three vectors of the empty key |
| Lookup3.AbsorbInjective | src/core/jbpf_lookup3.c:299-548 | for a given key different start states end in different states |
| Lookup3.OneBlockDiffers | src/core/jbpf_lookup3.c:299-548 | keys of one length that differ within one 12-byte block have different final states |
| Lookup3Code.Absorb32 | src/core/jbpf_lookup3.c:312-432 | the word reads with masked tails give the byte-by-byte definition |
| Lookup3Code.Absorb16 | src/core/jbpf_lookup3.c:433-490 | so do the half-word reads |
| Lookup3Code.Absorb8 | src/core/jbpf_lookup3.c:491-545 | so do the byte reads |
| Lookup3Code.HashLittle | src/core/jbpf_lookup3.c:299-548 | the hash depends on the key's bytes only, not on their alignment or what follows them |
| Lookup3Code.HashLittle2 | src/core/jbpf_lookup3.c:560-823 | two words of the same final state, for any alignment |
| Lookup3Code.HashWord | src/core/jbpf_lookup3.c:186-222 | agrees with hashlittle on the bytes of the words |
| Lookup3Code.HashWord2 | src/core/jbpf_lookup3.c:232-271 | agrees with hashlittle2 on the bytes of the words |
| FixedPoint.FixedToPattern | src/core/jbpf_helper_utils.h:472-566 | the bit pattern is the normalised one of the bits of \|x\| that the shift keeps |
| FixedPoint.PatternValue | src/core/jbpf_helper_utils.h:472-566 | the pattern denotes exactly that number of 256ths |
| FixedPoint.ExactExactlyInRange | src/core/jbpf_helper_utils.h:472-566 | the result is x/256 exactly when no high bit is lost |
| FixedPoint.DoubleIsExact | src/core/jbpf_helper_utils.h:472-516 | fixed_to_double is exact for \|x\| < 2^20 and no other x |
| FixedPoint.FloatIsExact | src/core/jbpf_helper_utils.h:523-566 | fixed_to_float is exact for \|x\| < 2^17 and no other x |
| FixedPoint.RoundTrip | src/core/jbpf_helper_utils.h:472-635 | converting to floating point and back yields the number itself |
| FixedPoint.Converts | src/core/jbpf_helper_utils.h:573-635 | where the shift is defined, the result is the truncated 256ths exactly when these fit an int32, and their low 32 bits otherwise |
| FixedPoint.Truncates | src/core/jbpf_helper_utils.h:573-635 | every number below 2^23 whose conversion is defined is truncated to 256ths toward zero |
| FixedPoint.ExponentIff | src/core/jbpf_helper_utils.h:573-635 | the exponent field is at least e exactly when the magnitude is at least 2^(e - bias) |
| FixedPoint.FloatDefinedIff | src/core/jbpf_helper_utils.h:573-602 | the shift of float_to_fixed is defined exactly for exponent fields 111 to 173, magnitudes from 2^-16 below 2^47 |
| FixedPoint.DoubleDefinedIff | src/core/jbpf_helper_utils.h:605-635 | the shift of double_to_fixed is defined exactly for exponent fields 1004 to 1130, magnitudes from 2^-19 below 2^108 |
| FixedPoint.MaskedAgrees | src/core/jbpf_helper_utils.h:569-596 | where the shift is defined, a processor that masks shift amounts computes the same |
| FixedPoint.TinyFloat | src/core/jbpf_helper_utils.h:589-596 | with masked shifts the float 2^-17 becomes 32768; 0.0 is not defined either |
| Perf.Elapsed | src/core/jbpf_perf.h:58-66 | the difference of two clock values is right across one wrap of the 64-bit clock |
| Perf.BinSpec | src/core/jbpf_perf.h:114-118 | bin k counts exactly the times from 2^k up to 2^(k+1) |
| Perf.LogIsSummary | src/core/jbpf_perf.h:100-132 | after logging any times, number, minimum, maximum and every bin are those of the non-zero times logged |
| Perf.MergedReportIsOneLog | src/core/jbpf_perf.c:137-156 | merging the threads' statistics gives what one thread logging all their times would have |
| Perf.ThreadStats.LogTime | src/core/jbpf_perf.h:100-132 | one time logged in place; -1 exactly for a zero difference |
| Perf.Report | src/core/jbpf_perf.c:137-156 | the nested merging loops compute the merge of all threads |
| PerfEpoch.EverySampleCountedOnce | src/core/jbpf_perf.c:97-160 | while hooks run, every time logged is in exactly one report or still pending, and each report equals the log of all its times in one stream |
| PerfEpoch.EverySampleIsLogged | src/core/jbpf_perf.c:97-160 | while memory is found, the times the callers of a run log are those reported and those pending, and there is a report for each collection |
| PerfEpoch.EverythingCanBeReported | src/core/jbpf_perf.c:97-160 | while memory is found, from every state whatever was logged can be reported in full |
| PerfEpoch.NoLogIntoFreedBlock | src/core/jbpf_perf.c:97-160 | a block is freed only when no caller can still log into it; what a caller holds is a block unless it is NULL, which it is never as long as each swap found memory |
| PerfEpoch.CanFaultIff | src/core/jbpf_perf.c:97-160 | a process that has not faulted can still fault with memory found for every further block exactly when some swap so far found none |

## Left out

- Memory ordering: steps on shared memory are sequentially consistent; ck_ring, ck_epoch and ck_ht are taken to be what they promise.
- A reservation on a channel is one step of the channel machine, the steps inside it are those of the pool machine; a submission is two, the enqueue and the clearing of the slot.
- Counters are unbounded (reference counts, sample counts, the hash map's count), below the width at which they wrap.
- jbpf_bpf_spsc_hashmap_delete_elem, restructure and dump, and the other map types (arrays, jbpf_bpf_hashmap): not modelled.
- jbpf_io_channel_recv_data_copy, serialisation and packing of messages: not modelled.
- The eBPF virtual machine, its JIT, ELF loading and helper registration: whether a codelet loads and compiles, and which relocations its loading makes, are parameters of a request. A relocation whose symbol is too short for a map definition changes nothing and is not listed among them.
- Whether a map, a channel, a hook array or a region can be allocated is a parameter, as are the addresses mmap returns.
- Names are compared in full; truncation at their maximal lengths cannot happen for valid requests. Alias keys are pairs of names except in `LinkedMaps.KeysCollide` and `AliasKeys`.
- Messages between processes are delivered, or the connection is down; a response that cannot be sent is such a connection. Epoll is not modelled.
- A barrier of the peer list waits for every open section of the control thread; sections of other threads end and are not modelled. Requests for channels leave no section open and are not among the messages of `IpcControl`.
- A listed peer that sends REG_INIT again, or a registered one that goes on negotiating, is not modelled; no secondary does.
- The number of threads that log times is the default 32.
- Conversion of clock ticks to nanoseconds: not modelled.
- hashbig, the sanitizer branches of the hash functions and the transcendental fixed-point functions: not modelled.
- Hook declaration macros beyond running the list, the LCM command-line interface, logging and the verifier's glue: not modelled.
- Signed overflow: negating the least fixed-point number, the int size of a pool from 2^30 elements and negating a converted -2^31 are not defined in C; they are taken to wrap.
- FixedPoint.Converts: leaves out infinities and NaN.
- Agent.Agent.Load: after a fault of the linked-map check it promises nothing.
- Agent.Agent.HookAll: the order in which a hash table is iterated is arbitrary, so the order among equal priorities after a load is one of several.
- IpcRegistration.Register: no message of another peer comes between the messages of one registration; in `IpcControl` they interleave freely. An unknown message, which the primary answers by dropping the peer, is not sent by a secondary and not modelled.
