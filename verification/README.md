# A verified model of the character-device and container modules

This project models the stateful kernel modules of the Linux Device Driver Development Cookbook in
Dafny and proves what they promise. `dafny verify dfyconfig.toml` checks everything.

## What is modelled

**The interrupt-fed device** (`Chapter07/chrdev/chrdev_irq.c`). `Cbuf` holds the circular-buffer
helpers and the ring as a value; `IrqDevice` is the device as a class whose methods update `buf`,
`head` and `tail` in place, one uninterrupted call at a time; `CharSource` is the letter generator.
`IrqMachine` is the same device under every interleaving: the timer handler is split at its full
test, its store and its head move (the reader moves `tail` outside the spinlock, so it can come in
between), and each of any number of readers and pollers is split at every lock operation, the wake-up
test, the memcpy, the copy to user space and the tail move. `IrqTheorems`, `IrqCalls`,
`IrqBlocking`, `IrqSafety` and `IrqSystem` prove statements about all runs: FIFO delivery, true answers to every call, the protection of a slice in flight, recoverability,
who waits behind a sleeping reader, conservation and the exact drop bound, the exact request sizes for which the memcpy stays inside the
ring and inside its temporary, and the content of the byte streams of several devices sharing the generator.

**The seekable memory device** (`Chapter07/chrdev/chrdev.c` with `add_mutex_to_chrdev.patch`).
`MemSpec` says what one atomic call means, proves the driver's wrapping 64-bit clamp and seek equal to
their meaning over the integers, and proves what serial runs and chunked transfers do; `Mmap` does the
same for the bounds tests of mmap. `MemDevice` is the driver and the test program
(`Chapter03/chrdev_test.c`) as classes and loops. `MuxMachine` runs any number of
concurrent calls with byte-by-byte copies under the mutex and keeps one history of all of them, refused
ones included. `MuxTheorems` proves that every reply is the one the history gives run atomically,
`MuxHistory` that the history holds every call once and respects real time, `MuxFlag` what exactly the
read-only test before the mutex costs, and `MuxWitness` that it can cost serializability.

**The registry and its driver** (`register`, `unregister` in both device files, `chrdev-req.c`).
`Registry` keeps the kernel's books as a ledger: every release demands that the resource is held, and
freeing a buffer demands that no armed timer uses it, so double frees and expiries on freed buffers are
excluded at every call, not just at the end. A label that fills its 32-byte array is stored without a
terminator; what `strcmp` then reads behind it is a parameter.

**The containers** (`Chapter06`). `OrderedSpec` defines ordered insertion and first-match deletion on
sequences; `OrderedList` is the circular doubly linked list, with its pointer updates proved to be those
operations; `HashTable` is the bucketed table with its `pprev` links, proved to be one newest-first list
cut into buckets.

Findings where the code does not do what one would like:

- The reader's single straight memcpy ignores wrapping (`cbuf_count_to_end` returns the whole
  occupancy) and the size of its temporary. `IrqSafety.SafeRequestSizes` proves that it stays inside the
  ring in every run with requests of at most c bytes if and only if c is at most 1 or the ring has two
  slots, and `SafeForTheTemporary` that it stays inside the temporary if and only if c is at most 256 or
  the ring has at most 257 slots. The machine stops at the first memcpy that leaves either.
- With the mutex patch a write tests `read_only` before it takes the mutex.
  `MuxFlag.SerialExactlyWhenNeverLate` proves that the results are those of whole calls served in mutex
  order if and only if no write began its turn with the mutex while the flag was set.
  `MuxWitness.OvertakenWriteCommits` is a run with such a write that no serial order at all explains.
- A label of `NAME_LEN` or more characters is registered without its terminator.
  `Registry.RegisterThenUnregister`: the same label then unregisters the slot if and only if it goes on
  beyond the array with exactly what lies behind it. `Registry.OverlongLabelStays` is a label that does
  not, and `Registry.RestoresWhateverFails` the exact condition on the device tree for probe and remove
  to be safe.
- A blocking reader of an empty ring sleeps with the mutex in its hands, so O_NONBLOCK reads and polls
  block behind it (`IrqBlocking.NonblockingCallWaits`).
- The test program's write loop never ends when the data does not fit (`MemDevice.WriteLoop`), and its
  `lseek` arguments are swapped, which is harmless because both are 0.

Assumptions: memory is sequentially consistent; copies to and from user space are complete; requests
are below 2^63 bytes; one call per handle at a time, and `*ppos` is the handle's `f_pos`; no handle is
open across register or unregister; labels contain no NUL; nobody stores through an mmap mapping. The
last matters: mmap looks at neither `read_only` nor the mutex, so stores through a mapping would escape
`MemSpec.ReadOnlyIsInert`, `MemSpec.CellsHoldLastWrite` and `MuxTheorems.Linearizable`.

## Model

| member | source | states |
|---|---|---|
| Cbuf.OccupancyIsModular | Chapter07/chrdev/chrdev_irq.c:51-76 | the branchy count is (head - tail) mod len; empty and full are count 0 and len - 1, full is space 0 |
| Cbuf.SpaceToEnd | Chapter07/chrdev/chrdev_irq.c:70-76 | count plus space is len - 1 |
| Cbuf.RingMoves | Chapter07/chrdev/chrdev_irq.c:56-81 | slots and both pointer moves are single steps around the ring |
| Cbuf.StoreThenPublishAppends | Chapter07/chrdev/chrdev_irq.c:98-102 | on a non-full ring the store disturbs no buffered byte and the head move appends exactly the stored one |
| Cbuf.DropRemovesPrefix | Chapter07/chrdev/chrdev_irq.c:191 | the tail move forgets exactly the n oldest bytes |
| Cbuf.StraightIsPrefix | Chapter07/chrdev/chrdev_irq.c:176-178 | the straight slice at tail is the FIFO prefix whenever tail + n is at most len |
| Cbuf.WhenStraightFits | Chapter07/chrdev/chrdev_irq.c:176-178 | one byte of a non-empty ring always fits; everything fits exactly when the ring is unwrapped or head is 0 |
| CharSource.NextIsLetter | Chapter07/chrdev/chrdev_irq.c:37-45 | the i-th call yields 'A' + i mod 26 |
| CharSource.CharGenerator.GetNewChar | Chapter07/chrdev/chrdev_irq.c:37-45 | the static character advances once per call through the cyclic alphabet |
| IrqDevice.RingDevice.TimerHandler | Chapter07/chrdev/chrdev_irq.c:87-105 | appends one generated byte, or at len - 1 bytes drops the expiry and leaves ring and generator alone |
| IrqDevice.RingDevice.Poll | Chapter07/chrdev/chrdev_irq.c:127-144 | reports readable exactly when a byte is buffered |
| IrqDevice.RingDevice.CopyOut | Chapter07/chrdev/chrdev_irq.c:178 | the memcpy yields the straight slice at tail |
| IrqDevice.RingDevice.TakeOldest | Chapter07/chrdev/chrdev_irq.c:172-191 | with data buffered, returns and removes the oldest min(count, occupancy) bytes, or stops before an ill-fitting memcpy, exactly when it would leave the ring or the temporary |
| IrqDevice.RingDevice.Read | Chapter07/chrdev/chrdev_irq.c:146-199 | on an empty ring leaves by O_NONBLOCK or a signal with nothing changed, or waits for the next expiry and returns its byte; otherwise as TakeOldest |
| IrqMachine.StepKeepsInv | Chapter07/chrdev/chrdev_irq.c:127-199 | every reader and poller step keeps locking, in-flight slice, FIFO and conservation invariants |
| IrqMachine.StoreKeepsInv | Chapter07/chrdev/chrdev_irq.c:98-99 | a store between any two reader steps keeps them |
| IrqMachine.PublishKeepsInv | Chapter07/chrdev/chrdev_irq.c:101-105 | so does the head move, even when the tail moved since the full test |
| IrqMachine.RunKeepsInv | Chapter07/chrdev/chrdev_irq.c:87-199 | every run of any interleaving keeps them |
| IrqTheorems.DeliveryIsFifo | Chapter07/chrdev/chrdev_irq.c:87-199 | in every run the bytes of returned reads in mutex order are a prefix of the accepted bytes, and with the ring contents all of them when nobody is inside; no read returns more than the size it carries, nor nothing if that is positive (that it is the size asked for is CallsAreAnswered) |
| IrqCalls.CallsAreAnswered | Chapter07/chrdev/chrdev_irq.c:127-199 | in every run each thread's read and poll calls are answered one by one in order, at most the last being in progress: a read of count bytes with at most count and, if count is positive, at least one; EAGAIN only with O_NONBLOCK, interruption only without; a poll with a mask |
| IrqCalls.AnswersWereTrue | Chapter07/chrdev/chrdev_irq.c:127-199 | in every run the answer of a call was true of the ring at an earlier moment of that call: the data were the oldest min(count, buffered) bytes, a call without data found the ring empty, a mask told whether it was |
| IrqCalls.RunIsTrace | Chapter07/chrdev/chrdev_irq.c:87-199 | the states that AnswersWereTrue speaks of are those of the run, action by action |
| IrqTheorems.SeenDataStays | Chapter07/chrdev/chrdev_irq.c:158-178 | a reader that saw data still finds data at its copy |
| IrqTheorems.CopiedSlotsAreFrozen | Chapter07/chrdev/chrdev_irq.c:98-102 | between a reader's memcpy and its tail move no sequence of other actions moves tail or changes a copied slot |
| IrqTheorems.DropsExactlyWhenFull | Chapter07/chrdev/chrdev_irq.c:56-60 | an action drops exactly when it is an expiry at occupancy len - 1 |
| IrqTheorems.DropBound | Chapter07/chrdev/chrdev_irq.c:98-102 | ticks, accepted, dropped, delivered and occupancy balance in every reachable state, and a run drops nothing if and only if ticks never exceed the bytes passed by tail by more than len - 1 |
| IrqTheorems.AlwaysRecoverable | Chapter07/chrdev/chrdev_irq.c:135-177 | with a call in progress either a thread can step, or the mutex owner waits for data or for the spinlock and at most one expiry lets it step |
| IrqTheorems.OwnerAlwaysReleases | Chapter07/chrdev/chrdev_irq.c:158-196 | from every reachable state the mutex owner gets, with no help but the timer's, to its unlock or to a memcpy that does not fit (for requests that always fit see SmallReadersRelease) |
| IrqTheorems.UninterruptedExpiry | Chapter07/chrdev/chrdev_irq.c:87-105 | the split handler, run through, is the whole handler |
| IrqTheorems.UninterruptedRead | Chapter07/chrdev/chrdev_irq.c:172-198 | the split read, run through, returns and removes the oldest bytes |
| IrqTheorems.EmptyHandedRead | Chapter07/chrdev/chrdev_irq.c:161-170 | a read of an empty ring leaves by O_NONBLOCK or signal with ring and delivery untouched and the mutex released |
| IrqTheorems.PollIsTruthful | Chapter07/chrdev/chrdev_irq.c:135-141 | poll reports exactly whether bytes are buffered, and reported bytes are still there when it returns |
| IrqBlocking.SleeperHoldsEveryoneUp | Chapter07/chrdev/chrdev_irq.c:158-167 | while the mutex owner sleeps on an empty ring, without an expiry or signal nothing can happen but new calls, and every reader and poller at the mutex stays there |
| IrqBlocking.NonblockingCallWaits | Chapter07/chrdev/chrdev_irq.c:127-167 | for every n a run in which an O_NONBLOCK read, or a poll, takes no step during n further actions, being able to step exactly when the mutex is free |
| IrqSafety.SafeRequestSizes | Chapter07/chrdev/chrdev_irq.c:176-178 | all runs with requests of at most c bytes copy inside the ring if and only if c is at most 1 or len is 2 |
| IrqSafety.SafeForTheTemporary | Chapter07/chrdev/chrdev_irq.c:150-178 | all such runs copy inside the 256-byte temporary if and only if c is at most 256 or len is at most 257 |
| IrqSafety.SmallReadersRelease | Chapter07/chrdev/chrdev_irq.c:158-196 | with requests of at most one byte, or two slots, whoever holds the mutex in any run gets to its unlock with no help but the timer's |
| IrqSafety.WrappedReadOverruns | Chapter07/chrdev/chrdev_irq.c:176-178 | for every len of at least 3 and c of at least 2, a run whose memcpy reads past the end of the ring, and not past the temporary |
| IrqSafety.LongReadOverflows | Chapter07/chrdev/chrdev_irq.c:150-178 | for every len of at least 258 and c of at least 257, a run whose memcpy writes past the temporary, though not past the ring |
| IrqSystem.StreamsAreTheAlphabet | Chapter07/chrdev/chrdev_irq.c:37-45 | with any number of devices the merged acceptance log is the cyclic alphabet and each device delivers a prefix of its own part |
| IrqSystem.OneDeviceReadsTheAlphabet | Chapter07/chrdev/chrdev_irq.c:37-45 | with one device byte k delivered is 'A' + k mod 26, whatever was dropped |
| MemSpec.Clamp | Chapter07/chrdev/chrdev.c:149-150 | the unsigned wrapping clamp is min(count, room) at every reachable position |
| MemSpec.Llseek | Chapter07/chrdev/chrdev.c:113-136 | the wrapping seek is granted exactly when the ideal target is a cell of the buffer, for all 64-bit offsets and origins |
| MemSpec.SeekMoves | Chapter07/chrdev/chrdev.c:113-136 | SEEK_SET leads to the offset, SEEK_CUR that far from the old position, SEEK_END that far from the end, each granted and reported exactly when that cell exists; other origins are refused; nothing else changes |
| MemSpec.TellKeepsPosition | Chapter07/chrdev/chrdev.c:118-120 | Seek(0, SEEK_CUR) keeps the position and reports it, except at the very end, where it is refused |
| MemSpec.SeekEndThenRead | Chapter07/chrdev/chrdev.c:122-161 | seeking k back from the end and reading k bytes returns the last k bytes |
| MemSpec.RelativeSeeksAdd | Chapter07/chrdev/chrdev.c:118-120 | two granted relative seeks lead where their sum leads |
| MemSpec.Commit | Chapter07/chrdev/chrdev.c:139-188 | every call keeps every position within 0..BUF_LEN and moves no other handle |
| MemSpec.OneRead | Chapter07/chrdev/chrdev.c:139-161 | a read returns the min(count, room) cells from the position on and moves on by as many; the buffer stays |
| MemSpec.OneWrite | Chapter07/chrdev/chrdev.c:163-188 | a write to a writable device stores its first min(count, room) bytes from the position on, moves on by as many and returns that number |
| MemSpec.CellsHoldLastWrite | Chapter07/chrdev/chrdev.c:139-188 | after any serial run each cell holds the byte of the last successful write covering it, or its initial byte |
| MemSpec.ReadsSeeLastWrites | Chapter07/chrdev/chrdev.c:139-161 | after any serial run a read returns exactly those bytes |
| MemSpec.ReadOnlyIsInert | Chapter07/chrdev/chrdev.c:172-173 | while read-only no run without SET_RDONLY writes anything |
| MemSpec.FlagIsLastSet | Chapter07/chrdev/chrdev.c:89-96 | after any serial run the flag is the value of the last SET_RDONLY among the calls, or the initial one |
| MemSpec.LastSetDecides | Chapter07/chrdev/chrdev.c:80-96 | after any serial run a write is refused if and only if that value is not 0, and GETINFO reports it |
| MemSpec.SetThenWrite | Chapter07/chrdev/chrdev.c:89-96 | SET_RDONLY changes the flag only; a write right after it is refused if and only if its value is not 0 |
| MemSpec.StrangeIoctlsChangeNothing | Chapter07/chrdev/chrdev.c:66-100 | commands of other drivers and unknown ones are refused without effect, each with its own code |
| MemSpec.WriteSplit | Chapter07/chrdev/chrdev.c:163-188 | data written in any split is stored as one write of as much as fits |
| MemSpec.ReadSplit | Chapter07/chrdev/chrdev.c:139-161 | reads in any split return the contiguous cells from the position on |
| MemSpec.ChunkingRoundTrip | Chapter07/chrdev/chrdev.c:128-188 | written, sought back and read in any splits, data comes back and all other bytes are unchanged |
| Mmap.Remap | Chapter07/chrdev/chrdev.c:32-42 | the shifted and wrapped tests accept exactly when pgoff * PAGE_SIZE + size is at most BUF_LEN over the integers |
| Mmap.GrantedMapsTheBuffer | Chapter07/chrdev/chrdev.c:36-54 | an accepted non-empty whole-page range is the one page at offset 0, and the mapping reaches the buffer exactly when it starts on a page |
| Mmap.WrapTestIsNeeded | Chapter07/chrdev/chrdev.c:36-42 | the second test alone would wrongly accept exactly the page numbers past the last page whose wrapped offset fits; the first test rejects exactly those past the last page |
| MemDevice.ChrDevice.Read | Chapter07/chrdev/chrdev.c:139-161 | the copying driver code does what the atomic call says, to buffer, position and user memory |
| MemDevice.ChrDevice.Write | Chapter07/chrdev/chrdev.c:163-188 | likewise, with EINVAL and no change when read-only |
| MemDevice.ChrDevice.Seek | Chapter07/chrdev/chrdev.c:105-137 | the position and return value are 0, the old position or the length, plus the offset, exactly when that cell exists; otherwise EINVAL and no change; this is what the atomic call says |
| MemDevice.ChrDevice.SetReadOnly | Chapter07/chrdev/chrdev.c:89-96 | the flag becomes the value given, and nothing else changes |
| MemDevice.ChrDevice.Ioctl | Chapter07/chrdev/chrdev.c:59-103 | the return codes, the flag reported by GETINFO and the flag left behind, for every command |
| MemDevice.WriteLoop | Chapter03/chrdev_test.c:46-56 | the loop ends with every byte stored exactly when the device is writable and has room; otherwise it fails (read-only) or is still spinning after any number of rounds |
| MemDevice.ReadLoop | Chapter03/chrdev_test.c:58-71 | the loop always ends, with a full buffer or at the end of the device |
| MemDevice.TestProgram | Chapter07/chrdev/modify_lseek_to_chrdev_test.patch:9-16 | on a fresh open, with its one buffer, the program finishes exactly when the data fits a writable device, fails exactly on a read-only one, and otherwise spins; reading back restores the buffer |
| MuxMachine.CopiesStayInside | Chapter07/chrdev/add_mutex_to_chrdev.patch:97-151 | in every reachable state each copied byte is inside the buffer |
| MuxMachine.InsideKeepsPartly | Chapter07/chrdev/add_mutex_to_chrdev.patch:97-151 | each owner step carries its call further towards the atomic outcome and no further |
| MuxMachine.NextKeepsInv | Chapter07/chrdev/add_mutex_to_chrdev.patch:61-151 | every step of every call keeps the store and all replies explained by the history, and every refusal justified at its place |
| MuxTheorems.Linearizable | Chapter07/chrdev/add_mutex_to_chrdev.patch:61-151 | in every interleaving each call of the history has the reply that running the history atomically gives it (only the mutex owner's may be outstanding), and so has the store whenever no call is under way |
| MuxTheorems.OwnerAlwaysReleases | Chapter07/chrdev/add_mutex_to_chrdev.patch:49-149 | the owner is never blocked and each step brings it nearer to its unlock, on every exit path |
| MuxHistory.HistoryGrows | Chapter07/chrdev/add_mutex_to_chrdev.patch:61-151 | entries and replies of the history never change or disappear |
| MuxHistory.EveryCallIsLogged | Chapter07/chrdev/add_mutex_to_chrdev.patch:61-151 | the history holds each handle's calls completely, once each and in the order made, except a latest one that is not decided yet |
| MuxHistory.CallsAreDecidedInTime | Chapter07/chrdev/add_mutex_to_chrdev.patch:97-151 | every call enters the history during that very call, at its refusing test or at its first step under the mutex |
| MuxHistory.RepliesAreReturns | Chapter07/chrdev/add_mutex_to_chrdev.patch:61-151 | every reply is given by the return from that very call |
| MuxHistory.RealTimeOrder | Chapter07/chrdev/add_mutex_to_chrdev.patch:61-151 | a call that returned before another began precedes it in the history |
| MuxFlag.FixedFlagIsSerial | Chapter07/chrdev/add_mutex_to_chrdev.patch:61-151 | with read_only left alone, set or clear, every interleaving is a serial run of whole calls: same store, and the same return value for every call, refused or not |
| MuxFlag.SerialExactlyWhenNeverLate | Chapter07/chrdev/add_mutex_to_chrdev.patch:124-128 | in any behaviour at rest, store and replies are those of whole calls in mutex order if and only if no write began its turn with the mutex while the flag was set |
| MuxFlag.FlagIsLastInHistory | Chapter07/chrdev/add_mutex_to_chrdev.patch:25-53 | at every moment of every behaviour the flag is the value of the last SET_RDONLY in the history, or the initial one |
| MuxFlag.EveryCommitSawClear | Chapter07/chrdev/add_mutex_to_chrdev.patch:124-128 | every committing write saw the flag clear at an earlier moment of the same call |
| MuxFlag.EveryRefusalSawSet | Chapter07/chrdev/add_mutex_to_chrdev.patch:124-128 | every refused write saw the flag set at a moment of its call, and returned EINVAL |
| MuxWitness.NeverLateIsSerializable | Chapter07/chrdev/add_mutex_to_chrdev.patch:124-128 | without a late write some serial order of whole calls looks the same to every handle |
| MuxWitness.OvertakenWriteCommits | Chapter07/chrdev/add_mutex_to_chrdev.patch:124-128 | on every writable device with two handles at the same cell, and for every byte other than the one in it, there is a run with a late write of that byte such that no serial order of whole calls looks the same to both handles |
| Registry.DeviceArray.Register | Chapter07/chrdev/chrdev_irq.c:239-317 | for labels of any length: returns 0 exactly when number, slot and acquisitions allow, and then the slot is busy under its label; else nothing changes and the code is EINVAL, EBUSY, ENOMEM or the error of the acquisition that failed; the kernel's books agree with the slots |
| Registry.RegisterCodes | Chapter07/chrdev/chrdev.c:229-294 | EINVAL means exactly a number out of range, EBUSY exactly a busy slot, ENOMEM exactly a failed allocation, unless an acquisition itself reports that code |
| Registry.DeviceArray.Unregister | Chapter07/chrdev/chrdev_irq.c:320-355 | returns 0 exactly when the slot was busy under this label, and then it is free; else EINVAL and nothing changes; the timer is cancelled before its buffer is freed and the books agree with the slots |
| Registry.DeviceArray.BusyMeansHeld | Chapter07/chrdev/chrdev_irq.c:239-355 | slot by slot: busy exactly when cdev and device are held and the timer (if any) armed, and then its own buffer is held and the timer works on it |
| Registry.TakenSlotIsHeld | Chapter07/chrdev/chrdev.c:250-291 | a fully acquired slot accounts for exactly one more buffer, cdev, device and timer |
| Registry.ReleasedSlotIsFree | Chapter07/chrdev/chrdev.c:315-328 | a released slot accounts for exactly one less of each |
| Registry.DeviceArray.AllFreeHoldsNothing | Chapter07/chrdev/chrdev.c:297-329 | with no slot busy the kernel holds nothing: no leak |
| Registry.DeviceArray.Probe | Chapter07/chrdev/chrdev-req.c:20-63 | returns 0 exactly for 1 to MAX_DEVICES children, -ENODEV exactly for none, -ENOMEM exactly for more, in both cases without any change; the loop over children, with labels of any length, registers as specified, skipping incomplete children and ignoring failures |
| Registry.DeviceArray.Remove | Chapter07/chrdev/chrdev-req.c:65-95 | the loop over children unregisters as specified and stops at an incomplete child |
| Registry.RemoveFreesNamed | Chapter07/chrdev/chrdev-req.c:65-95 | remove frees exactly the busy slots that are named by number and label by a child before the first incomplete one, and stops early exactly if there is an incomplete one |
| Registry.ProbeFillsForChildren | Chapter07/chrdev/chrdev-req.c:33-60 | probe disturbs no busy slot and fills a free one only for a child with its number, whose label it then bears |
| Registry.ProbeThenRemove | Chapter07/chrdev/chrdev-req.c:20-95 | for any children, labels and failures: one run of probe and then remove restores the registry if and only if the children before the first incomplete one name no previously busy slot and do name every slot that probe filled |
| Registry.RestoresWhateverFails | Chapter07/chrdev/chrdev-req.c:20-95 | probe and then remove restores the registry whatever fails, if and only if the device tree is safe: among the children before the first incomplete one none names a busy slot, and for each child that may fill a free slot there is one with the label it leaves there |
| Registry.FittingLabelsAreSafe | Chapter07/chrdev/chrdev-req.c:20-95 | with complete children and labels shorter than NAME_LEN every run restores the registry if and only if no busy slot is named, so an all-free registry is all free again |
| Registry.RegisterThenUnregister | Chapter07/chrdev/chrdev.c:229-330 | a label just registered unregisters its slot if and only if it is shorter than NAME_LEN or goes on beyond it with exactly what lies behind the array |
| Registry.OverlongLabelStays | Chapter07/chrdev/chrdev.c:229-330 | a label of NAME_LEN characters, with the busy bit behind it, is registered by probe on an all-free registry and survives remove |
| Registry.FirstChildWins | Chapter07/chrdev/chrdev-req.c:33-60 | without failures a free slot goes to the first child with its number, and bears its label as stored |
| OrderedSpec.AddAllSorts | Chapter06/list/list.c:20-33 | additions to an empty list sort it in descending order, equal keys in arrival order |
| OrderedSpec.StableSortIsUnique | Chapter06/list/list.c:20-33 | only one arrangement has that property |
| OrderedSpec.AddThenDelete | Chapter06/list/list.c:25-46 | adding x and deleting its value restores the values, and the entries exactly when the value was new |
| OrderedSpec.RunsAreSortedQueues | Chapter06/list/list.c:20-47 | after any run the list is descending and each value's entries form a FIFO queue |
| OrderedList.ListAddTail | Chapter06/list/list.c:28-32 | the four pointer updates insert one place into the circle and keep prev and next inverse |
| OrderedList.ListDel | Chapter06/list/list.c:43 | unlinking removes one place from the circle and poisons the node |
| OrderedList.DataList.FirstSmaller | Chapter06/list/list.c:25-31 | the loop stops at the first smaller entry or the sentinel |
| OrderedList.DataList.AddOrderedEntry | Chapter06/list/list.c:20-33 | refines ordered insertion and keeps the circle descending |
| OrderedList.DataList.FirstMatch | Chapter06/list/list.c:40-45 | the loop stops at the first equal entry or the sentinel |
| OrderedList.DataList.DelEntry | Chapter06/list/list.c:35-47 | refines first-match removal |
| OrderedList.DataList.Perform | Chapter06/list/list.c:20-47 | any run of adds and deletes on the heap, adding only entries not in the list at the time, yields the list of that run |
| OrderedList.DataList.PrintEntries | Chapter06/list/list.c:49-55 | prints every entry once, in non-increasing order |
| OrderedList.WalksAreReverse | Chapter06/list/list.c:9-14 | the forward walk from the sentinel is a finite cycle and the backward walk its reverse |
| HashTable.HashFunc | Chapter06/hashtable/hashtable.c:16-19 | the remainder truncates toward zero, for negative data too |
| HashTable.OneBucketIsEnough | Chapter06/hashtable/hashtable.c:32-43 | a search of one bucket finds an entry exactly when the whole table holds one |
| HashTable.RemoveInBucket | Chapter06/hashtable/hashtable.c:32-43 | deleting from one bucket is deleting the first match of the whole newest-first list |
| HashTable.RemoveTakesOne | Chapter06/hashtable/hashtable.c:37-42 | a delete takes away one copy of the value or nothing |
| HashTable.AddHead | Chapter06/hashtable/hashtable.c:29 | the pointer updates of hash_add put the node first and keep next and pprev inverse |
| HashTable.DelInit | Chapter06/hashtable/hashtable.c:39 | the pointer updates of hash_del remove one node, at the bucket head or inside |
| HashTable.DataHash.AddNode | Chapter06/hashtable/hashtable.c:25-30 | the entries grow by the new one at the front, each in the bucket its data selects |
| HashTable.DataHash.EntriesStayInTheirBuckets | Chapter06/hashtable/hashtable.c:16-29 | every entry is in the bucket that the C remainder of its data selects, and in no other |
| HashTable.DataHash.FindNode | Chapter06/hashtable/hashtable.c:37-38 | the one-bucket search misses nothing |
| HashTable.DataHash.DelNode | Chapter06/hashtable/hashtable.c:32-43 | removes the most recently added match or nothing |
| HashTable.RunsAreStacks | Chapter06/hashtable/hashtable.c:21-43 | after any run of adds and deletes each value's entries form a stack: a delete takes the most recently added |
| HashTable.DataHash.Perform | Chapter06/hashtable/hashtable.c:21-43 | any run of adds and deletes on the heap, adding only nodes not in the table at the time, yields the entries of that run |
| HashTable.DataHash.PrintNodes | Chapter06/hashtable/hashtable.c:45-52 | the walk visits bucket after bucket, each from its newest entry on, and every entry exactly once |

## Left out

- IrqDevice.RingDevice.TakeOldest: what an out-of-bounds memcpy does is not modelled; a test that the driver does not have stops the model just before it.
- IrqDevice.RingDevice.Read: in this uninterrupted call the timer fires only while the reader waits; everything else that can happen meanwhile is in IrqMachine.
- IrqMachine.StepKeepsInv: the read path that finds the ring empty under O_NONBLOCK stores its error in a variable that is not returned; the model claims nothing about that return value.
- Fault returns of copy_to_user, copy_from_user and get_user: copies are complete.
- Positional reads and writes, and opens or reads that overlap register or unregister.
- Hardware time, timer forwarding, SIGIO delivery, wait-queue internals and weak memory; the generator call is one atomic step.
- Kernel internals of cdev, device, class and page tables: they are tokens that may fail to be acquired. The kernel's hash mixing is an arbitrary function into the two buckets.
- The label copied out by GETINFO, and register's reset of head and tail: the first is plain data, the second is the RingDevice constructor.
- Chapter05, the remaining Chapter06 modules, and the earlier versions of the device in Chapter03 and Chapter04: they hold no state comparable to that of the modules above.
