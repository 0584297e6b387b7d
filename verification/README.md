# Verified model of the CTRLxT kernel's shared state

This project models the parts of the CTRLxT kernel module that own shared mutable state, a
protocol or arithmetic, and proves what they keep. To verify: `dafny verify dfyconfig.toml`.

| file | what it models |
|---|---|
| `CInt.dfy` | 32-bit `atomic_t` and 64-bit `size_t` arithmetic, error numbers |
| `Sequences.dfy`, `Sums.dfy`, `Runs.dfy` | searching, collecting and counting in sequences; sums over threads and lists; runs of a step function |
| `QMemSpec.dfy` | one call of the quantum memory manager on values, and whole sequential runs |
| `QMemHeap.dfy` | the same calls on a circular doubly linked list of heap nodes, updated in place |
| `QMemThreads.dfy` | the same manager under any number of threads, one memory access per step |
| `QMemSolo.dfy` | a call nobody interrupts in the threaded model is the sequential call |
| `QMemProgress.dfy` | every threaded call returns |
| `QMemSerial.dfy` | every threaded run is a sequential run of its committed operations |
| `QMemQuota.dfy`, `QMemMachine.dfy` | how far threads can pass the quota; when the machine's counters are exact and the maximum is kept |
| `QMemRefs.dfy` | how many references the 32-bit reference count can take |
| `Region.dfy`, `MemoryManager.dfy` | the bump allocator of `kernel/mm`, its page counters and its region list |
| `OpenProtocol.dfy`, `QuantumDevice.dfy`, `DeviceHeap.dfy` | exclusive open, the ioctl commands on values, and the device object |
| `GateTrace.dfy`, `QcInterface.dfy`, `ErrorCorrection.dfy` | the encoder, the measurement loop, the controlled operation, error correction |
| `NestedLocks.dfy` | the interface and error correction under any number of threads and two locks |
| `NestedSerial.dfy` | every run of those threads is a sequential run of the two objects |
| `NestedSolo.dfy` | what one uninterrupted call of each kind does and returns, argument by argument |
| `QecStats.dfy` | the error correction statistics, which read two counters without a lock |

## How the concurrent code is modelled

Each thread has a program counter, and a step is one access to shared memory. A run is any
sequence of events, each naming a thread; an event whose thread cannot act (it waits for a
held lock, or the call is not a legal one) changes nothing, so the theorems quantify over
every schedule without side conditions. Accesses are sequentially consistent.

In `QMemThreads` the quota test is two separate atomic reads, in either order, because C leaves the
order open; the check of the maximum in `ctrlxt_qmem_set_max_qubits` and its write are separate as
well; every list, counter and deallocation step of the critical sections is a step of its own; and
`ctrlxt_qmem_get` increments the count without the lock. The rule for callers is that `get`,
`put` and `free` are called on a block the caller holds a reference to: a call takes one reference out
of a pool shared by all clients, which lets references be handed from thread to thread.
Nothing else keeps a step from touching freed memory: a step that does sets `fault`.

In `NestedLocks` a call carries its data and what every gate and measurement call it makes will return,
so a run ranges over all outcomes. The shared buffer, the logs of gates and calls seen by the device, and the
32-bit counters are fields of the state, as are unbounded counts of the rounds measured and corrected; `history` lists the calls in the order in which their effect became complete.

The memory manager's steps take the arithmetic as a parameter: unbounded integers (`EXACT`) or 32-bit and 64-bit
cells (`MACHINE`). `MachineIsExact` carries what is proved of the first to the second within its ranges, and
`MaximumHoldsIff`, `MaximumFitsIff` and `RefcountSafeIff` say how far these reach. The region allocator and
error correction are modelled on machine words throughout.

Outcomes of code that is not in the repository (`kzalloc`, `quantum_state_alloc`, gate and measurement
calls, `copy_from_user`, `__get_free_pages`) are parameters. `quantum.h` is not part of this model: gates
are opaque calls that succeed or fail and leave a trace. The C does not compile as it stands (a
struct defined twice, `atomic_t` fields assigned as ints, `quantum_memory_stats` likewise); the model follows the evident
meaning of each line.

## Where the code does not do what it says

- "Maximum total qubits" (`kernel/include/quantum_memory.h:16`) is not a maximum with more than one
  thread: 1024 + 64(N-1) is reached by N threads, and never exceeded (`QuotaBound`, `QuotaBoundReached`).
  Even without any overshoot the maximum in force can end below the qubits in use, in two ways. From two threads on a
  change of the maximum races with an allocation (`SetMaxRaceBelowUse`); and an accepted argument that does not fit an
  int is truncated when stored (`Truncated`). With arguments that fit it is respected in every run iff there is at most
  one thread (`MaximumHoldsIff`), and with one thread iff they fit (`MaximumFitsIff`).
- `ctrlxt_qmem_set_max_qubits` accepts an unsigned long and stores an int: an accepted argument whose low 32 bits are
  2^31 or more becomes negative and lets every later request through (`SetMaxTruncates`, `MachineTestExact`).
- `ref_count` is safe for up to 2^32 references to one block and no more: with one more, the last of 2^32 gets and a put
  free the block under 2^32 holders (`RefcountSafeIff`, `RefcountOverflow`).
- After an ALLOC ioctl that failed, a FREE ioctl or unloading the module treats the error code as a block; a run goes
  wrong iff some FREE follows a failed ALLOC (`FaultIffCareless`, `BadAllocThenFree`). An ALLOC ioctl
  overwrites the pointer without freeing (`LeakedIffOverwritten`).
- `quantum_memory_alloc` never compares with the end of the region: it refuses nothing, hands out bytes beyond the end and
  never takes such a block back (`PastTheEnd`), and where the sum wraps at 2^64 it hands out the same bytes again
  (`WrapOverlaps`).
- A free of a region block leaves the live blocks protected iff the range test fails, or the size is at most the bytes
  above the topmost live block, or the size exceeds `start`; in the last case the subtraction wraps and `start` jumps
  forward, past the region (`FreeHarmlessIff`). A second free of the top block passes the test unless its size exceeds
  its address, and can hand out bytes of a live block (`SecondFree`, `DoubleFreeOverlaps`). A free out of order is lost
  for good (`IgnoredFreeIsPermanent`), and `mm_exit` then frees the wrong address (`ExitReturnsPages`).
- The open protocol stops being exclusive at 2^31 threads (`ExclusiveIff`), and from two threads on an open can be
  rejected although nobody holds the device (`BusyWithoutHolder`, `FreeDeviceOpensIff`).
- `ctrlxt_qec_get_stats` can report a success rate that is none, in two ways. It takes no lock, so from two threads on
  it can report more than 100 per cent (`RateRaceExceeds100`, `PercentagesIff`). And its product is a 32-bit int: one
  thread alone, after 21,474,837 rounds that were all corrected, gets 4294967197 (`OverflowAlone`, `RoundsIff`); up to
  21,474,836 corrections a call during which `correction_count` does not move stores the rate meant (`QuietRatesArePercentages`).
- It divides by zero until the first syndrome has been measured, and again at every multiple of 2^32 measured rounds
  (`UninterruptedDivision`, `StatsSafeIff`, `DivisionComesBack`).
- The gates a failed conversion leaves behind are a complete encoding of other data (`FailureLeavesPrefix`).

## Model

| member | source | states |
|---|---|---|
| QMemSpec.MachineTestExact | kernel/quantum/quantum_memory.c:72-73 | the mixed int/size_t quota test is the integer comparison exactly if the sum and the maximum have the same sign |
| QMemSpec.SetMaxTruncates | kernel/quantum/quantum_memory.c:152-159 | an accepted maximum is installed as given iff it is at most 2^31-1, and no request is refused any more, whatever the counter, iff its low 32 bits are 2^31 or more |
| QMemSpec.SequentialQuota | kernel/quantum/quantum_memory.c:63-159 | in every sequential run with maxima that fit an int both 32-bit counters equal the qubits in use, stay within the maximum, and free + allocated = max with free >= 0 |
| QMemSpec.AllocAnswers | kernel/quantum/quantum_memory.c:63-107 | after every sequential run with maxima that fit an int a request is granted iff it is for 1 to 64 qubits that fit under the maximum beside the blocks in the list and both kernel allocations succeed; the new block is first with the size and flags asked for and one reference, and both counters take its size; else nothing changes and the code is -22 for a bad size, -12 otherwise |
| QMemSpec.SetMaxAnswers | kernel/quantum/quantum_memory.c:152-159 | after every such run a new maximum is refused with -22 and no effect iff it is below the qubits of the blocks in the list, and is in force otherwise |
| QMemSpec.StatsAnswers | kernel/quantum/quantum_memory.c:140-149 | after every such run the statistics are the qubits of the blocks in the list, twice, the last maximum accepted (1024 before that), and their difference |
| QMemThreads.ExecInv | kernel/quantum/quantum_memory.c:63-137 | the full invariant (lock holder, requests, reference counts, list, freed blocks, counters) holds in every reachable state of any number of threads |
| QMemThreads.HeldIsAlive | kernel/quantum/quantum_memory.c:120-134 | a block some thread holds a reference to is allocated, has a positive count, and is not being taken apart, although get runs unlocked |
| QMemThreads.RefcountSafety | kernel/quantum/quantum_memory.c:95-178 | over all interleavings, on unbounded counts, ref_count is the number of outstanding references, no step touches freed memory, and each block and its state are freed exactly once, when the last reference is gone |
| QMemRefs.MachineRefcountSafety | kernel/quantum/quantum_memory.c:95-178 | the same on 32-bit counts, each holding the number of references modulo 2^32, in every run in which no block has more than 2^32 references and the maxima are in range |
| QMemRefs.RefcountOverflow | kernel/quantum/quantum_memory.c:119-167 | from every state in which an idle thread holds the only reference to a block and the lock is free, 2^32 legal gets and one put free the block while 2^32 references to it are outstanding |
| QMemRefs.RefcountSafeIff | kernel/quantum/quantum_memory.c:95-178 | 32-bit reference counting is safe in every run with at most k references to a block (maxima in range) iff k is at most 2^32 |
| QMemThreads.Conservation | kernel/quantum/quantum_memory.c:97-136 | both counters equal the qubits linked in the list plus a correction fixed by the lock holder's position; with the lock free all three are equal |
| QMemThreads.ListIsAlive | kernel/quantum/quantum_memory.c:98-122 | whenever the lock is free the used list is exactly the allocations still referenced, newest first |
| QMemProgress.DeadlockFree | kernel/quantum/quantum_memory.c:75-136 | in every reachable state with an unfinished call some thread in a call can step |
| QMemProgress.CallsReturn | kernel/quantum/quantum_memory.c:63-178 | under every schedule at most 8 steps per thread are left, and where nobody can step every call has returned and the lock is free |
| QMemSolo.SoloAlloc | kernel/quantum/quantum_memory.c:63-107 | an allocation nobody interrupts is the sequential allocation, for both orders of the two reads, and hands out a reference iff it succeeds |
| QMemSolo.AllocEnters | kernel/quantum/quantum_memory.c:68-73 | whatever other threads do, an idle thread's request for 1 to 64 qubits enters the call with its first operand read, and any other is refused at once |
| QMemSolo.SoloGranted | kernel/quantum/quantum_memory.c:63-107 | in every reachable state with the lock free an uninterrupted allocation hands out a reference to a new block of the size and flags asked for iff the request is for 1 to 64 qubits that fit under the maximum beside the used list and both kernel allocations succeed; otherwise the state is as before |
| QMemSolo.SoloFree | kernel/quantum/quantum_memory.c:110-137 | a free or put nobody interrupts consumes its reference and is the sequential free |
| QMemSolo.SoloGet | kernel/quantum/quantum_memory.c:162-169 | a get nobody interrupts is the sequential get and adds one reference |
| QMemSolo.SoloSetMax | kernel/quantum/quantum_memory.c:152-159 | a change of the maximum nobody interrupts is the sequential one |
| QMemSerial.Serializable | kernel/quantum/quantum_memory.c:63-178 | over all interleavings the list and the counters, with the lock holder's operation completed, are those left by the committed operations one after the other: allocations and frees in lock order, gets and maxima where they were written; with the lock free they are exactly those; each get and free finds its block in the list at its turn |
| QMemSerial.MachineSerializable | kernel/quantum/quantum_memory.c:63-178 | the same of 32/64-bit arithmetic with the lock free, within the ranges of MachineIsExact and with no block at 2^31 references at that moment |
| QMemQuota.QuotaBound | kernel/quantum/quantum_memory.c:63-107 | for N threads and every interleaving, allocated qubits plus requests past the test and not yet counted never exceed M + 64(N-1), M bounding every maximum installed |
| QMemQuota.QuotaBoundReached | kernel/quantum/quantum_memory.c:68-102 | for every N a run from initialization that never changes the maximum ends, all calls returned, with exactly 1024 + 64(N-1) qubits allocated |
| QMemQuota.SoleThreadKeepsQuota | kernel/quantum/quantum_memory.c:68-102 | with one thread the maximum in force is never exceeded, requests in progress included |
| QMemQuota.SetMaxRaceBelowUse | kernel/quantum/quantum_memory.c:152-159 | for every N >= 2, every legal request, every maximum below its size and either arithmetic: a run that ends, all calls returned, with that maximum in force and the request allocated |
| QMemMachine.MaximumHoldsIff | kernel/quantum/quantum_memory.c:68-159 | in 32/64-bit arithmetic, the maximum in force is respected in every reachable state of every run whose requested maxima fit an int and whose blocks have at most 2^32 references iff there is at most one thread |
| QMemMachine.MaximumFitsIff | kernel/quantum/quantum_memory.c:68-159 | with one thread it is respected in all such runs with requested maxima of at most v iff v is at most 2^31-1: truncation is the second way to fail |
| QMemMachine.MachineIsExact | kernel/quantum/quantum_memory.c:72-157 | if requested maxima are at most M, M + 64(N-1) is below 2^31 and no block has more than 2^32 references, the run on 32/64-bit arithmetic is the run on integers with each reference count stored in an int; no other counter wraps, and none at all where no block has 2^31 references |
| QMemHeap.ListAdd | kernel/quantum/quantum_memory.c:98 | head insertion keeps next and prev mutually inverse around the ring and prepends the node |
| QMemHeap.ListDel | kernel/quantum/quantum_memory.c:122 | unlinking the k-th block keeps the ring well-formed on the remaining blocks and poisons the node's links |
| QMemHeap.QMem.Init | kernel/quantum/quantum_memory.c:37-60 | an empty ring, zero counters, maximum 1024; -ENOMEM and no pool iff the pool allocation fails |
| QMemHeap.QMem.Alloc | kernel/quantum/quantum_memory.c:63-107 | refines the sequential allocation: new block first in the list, counters in 32 bits; with the counters equal to the qubits in use, a block is returned iff the request is for 1 to 64 qubits that fit under the maximum and both kernel allocations succeed, else -22 for a bad size and -12 otherwise |
| QMemHeap.QMem.AllocLocked | kernel/quantum/quantum_memory.c:75-106 | past the tests: the block is made, linked first and counted iff both kernel allocations succeed, else nothing changes |
| QMemHeap.QMem.Insert | kernel/quantum/quantum_memory.c:92-102 | linking and counting a filled-in block |
| QMemHeap.QMem.Free | kernel/quantum/quantum_memory.c:110-178 | refines the sequential free; at the last reference the block and its state are freed once, NULL does nothing |
| QMemHeap.QMem.DropReference | kernel/quantum/quantum_memory.c:119-134 | the count falls by one and the block goes exactly when it reaches zero |
| QMemHeap.QMem.Discard | kernel/quantum/quantum_memory.c:121-133 | unlink, free state, uncount, free block; every other block stays as it was |
| QMemHeap.QMem.Get | kernel/quantum/quantum_memory.c:162-169 | refines the sequential get and returns its argument |
| QMemHeap.QMem.SetMaxQubits | kernel/quantum/quantum_memory.c:152-159 | refines the sequential change of the maximum; refused with -22 iff below the qubits in use |
| QMemHeap.QMem.Stats | kernel/quantum/quantum_memory.c:140-149 | reports the qubits in use twice, the maximum in force, and the difference |
| QMemHeap.QMem.Exit | kernel/quantum/quantum_memory.c:187-209 | every linked block and its state is freed exactly once in list order whatever its count, no link is read from a freed node, the ring is empty, the pool is freed |
| QMemHeap.QMem.FreeAll | kernel/quantum/quantum_memory.c:194-200 | the deleting walk with a saved next pointer: terminates, visits each linked block once in list order, reads no freed node |
| QMemHeap.QMem.DeleteFirst | kernel/quantum/quantum_memory.c:195-199 | one turn of the walk: the first block is unlinked and freed, the saved pointer is the new first block |
| Region.GuardExact | kernel/mm/memory.c:147-151 | for a block that ends at or below start the range test passes iff it ends at start and begins within the region |
| Region.RefinesStack | kernel/mm/memory.c:122-156 | for every run of allocations and frees in any order whose sums do not wrap at 2^64, within the region or past its end, the allocator is a stack on which only freeing a top that begins within the region takes effect |
| Region.LiveBlocksDisjoint | kernel/mm/memory.c:122-156 | in every such run live blocks are pairwise disjoint and lie in [base, start) |
| Region.PastTheEnd | kernel/mm/memory.c:122-156 | in every such run an allocation of any size is handed out at start whatever is left of the region, and no later value of start takes back a block that begins past the end |
| Region.WrapOverlaps | kernel/mm/memory.c:130-131 | where the sum wraps at 2^64 two live blocks share bytes, for all sizes and bases with room for both |
| Region.FreeTakesEffectIffTop | kernel/mm/memory.c:148-150 | in every such run the test passes for a live block iff it is the top of the stack and begins within the region |
| Region.IgnoredFreeIsPermanent | kernel/mm/memory.c:148-151 | a cell freed out of order and everything below it stays on the stack in every continuation |
| Region.BytesAccounted | kernel/mm/memory.c:130-150 | start - base is the live bytes plus the bytes of all ignored frees, and is zero iff nothing is live and nothing was ignored |
| Region.FreeHarmlessIff | kernel/mm/memory.c:141-156 | for every such run and every address and size: all live blocks stay below start iff the test fails, or the subtraction wraps and start moves forward, or the size is at most the bytes above the topmost live block; otherwise the next allocation of that size overlaps a live block |
| Region.SecondFree | kernel/mm/memory.c:148-150 | for every such run and every block whose first free takes effect: a second free passes the test iff its size is at most its address, leaves start == addr - size, and spares the live blocks iff the gap below it is at least its size |
| Region.DoubleFreeOverlaps | kernel/mm/memory.c:122-150 | two blocks of any sizes from the base, the second freed twice and allocated again: it overlaps the first, which is live |
| MemoryManager.PageCounts | kernel/mm/memory.c:64-115 | without wrap of the byte count total_pages is the RAM size iff that fits an int, and then quantum_pages is a hundredth of it rounded down |
| MemoryManager.GetOrderCovers | kernel/mm/memory.c:101-173 | the order asked for and given back is the least whose pages cover the size |
| MemoryManager.RegionSizes | kernel/mm/memory.c:64-119 | for every RAM size without wrap the quantum region is a hundredth of the bytes of RAM rounded down to a byte, the normal region all of them, and the order given back at exit is the least whose pages cover the quantum region (52 without RAM) |
| MemoryManager.OneQuantumRegion | kernel/mm/memory.c:128-174 | on the list initialization leaves, the walks of alloc, free and exit act on the one quantum region |
| MemoryManager.WalksFollowRuns | kernel/mm/memory.c:122-156 | each client call on that list is the step of the one-region runs the stack results are about |
| MemoryManager.ExitReturnsPages | kernel/mm/memory.c:93-174 | mm_exit gives back the address init obtained iff the stack is empty, and the same address and order iff the stack is empty |
| MemoryManager.Manager.RegisterMemoryRegions | kernel/mm/memory.c:59-85 | adds the normal region at the head, with no quantum flags, and both page counters, or fails and changes nothing |
| MemoryManager.Manager.InitQuantumMemory | kernel/mm/memory.c:88-119 | adds the quantum region at the head, flagged coherent, of a hundredth of the bytes of RAM, and quantum_pages, asking for the least order of pages that covers it; or fails on either allocation and changes nothing |
| MemoryManager.Manager.Init | kernel/mm/memory.c:31-56 | succeeds iff all three allocations do, leaving the quantum region before the normal one and the page counts; on failure says which regions and counts the completed step leaves |
| MemoryManager.Manager.Alloc | kernel/mm/memory.c:122-138 | the walk advances exactly the first quantum region and returns its old start; NULL and no change if there is none |
| MemoryManager.Manager.Free | kernel/mm/memory.c:141-156 | the walk retracts exactly the first region whose test passes |
| MemoryManager.Manager.Exit | kernel/mm/memory.c:165-178 | one call to free_pages per quantum region, in order, with its current start and the order of what is left; the list is empty after |
| OpenProtocol.OpenIsExclusive | kernel/drivers/quantum/quantum_device.c:34-53 | for fewer than 2^31 threads and every interleaving at most one holds the device and open_count is the holders plus the openers still on their way |
| OpenProtocol.OpenSucceedsIffQuiet | kernel/drivers/quantum/quantum_device.c:38-44 | an uninterrupted open succeeds iff every other thread is idle |
| OpenProtocol.BusyWithoutHolder | kernel/drivers/quantum/quantum_device.c:34-53 | for every N >= 2 a run after which nobody holds the device and the open of every thread but the one being rejected fails |
| OpenProtocol.FreeDeviceOpensIff | kernel/drivers/quantum/quantum_device.c:34-53 | whenever nobody holds the device an idle thread can open it, in every run, iff there is at most one thread |
| OpenProtocol.OpenAlone | kernel/drivers/quantum/quantum_device.c:38-44 | an uninterrupted open takes the device, or leaves the count and every thread as they were |
| OpenProtocol.TwoHolders | kernel/drivers/quantum/quantum_device.c:38-41 | with 2^31 threads or more the count wraps in some run and two threads hold the device |
| OpenProtocol.ExclusiveIff | kernel/drivers/quantum/quantum_device.c:34-53 | the protocol is exclusive in every run iff there are fewer than 2^31 threads |
| QuantumDevice.PointerIsLastCommand | kernel/drivers/quantum/quantum_device.c:78-94 | where no FREE follows a failed ALLOC, dev->memory is what the last ALLOC or FREE command left in it |
| QuantumDevice.AllocAnswers | kernel/drivers/quantum/quantum_device.c:78-104 | after every run without a fault an ALLOC whose parameters are copied returns 0 iff it leaves a block in the pointer, iff it is for 1 to 64 qubits that fit under 1024 beside those in use with memory to be had; otherwise the code is -22 for a bad size and -12 otherwise, is in the pointer, and nothing else changes |
| QuantumDevice.StateAnswers | kernel/drivers/quantum/quantum_device.c:60-104 | state and gate commands return what their call returns, failed copies -14, unknown commands -25; only a result of 0 is counted and nothing else changes |
| QuantumDevice.FreeAnswers | kernel/drivers/quantum/quantum_device.c:89-104 | a FREE that does not fault returns 0, leaves the pointer NULL and is counted |
| QuantumDevice.OperationsCounted | kernel/drivers/quantum/quantum_device.c:60-104 | over whole runs the operation count is, modulo 2^32, the number of commands that took effect: state and gate calls that returned 0, ALLOCs that left a block in the pointer, FREEs that did not fault |
| QuantumDevice.FaultIffCareless | kernel/drivers/quantum/quantum_device.c:78-94 | a whole run of commands uses an error code as a block iff some FREE follows a failed ALLOC; the first such FREE does it |
| QuantumDevice.FaultIffAllocFailed | kernel/drivers/quantum/quantum_device.c:78-210 | a FREE, or module exit, uses an error code as a block iff the last ALLOC or FREE command was an ALLOC that failed; no other command can |
| QuantumDevice.BadAllocThenFree | kernel/drivers/quantum/quantum_device.c:78-210 | after every such run an ALLOC of a bad size makes the next FREE, or module exit, fault |
| QuantumDevice.ReleasedIffNextIsFree | kernel/drivers/quantum/quantum_device.c:78-94 | the block of a successful ALLOC is released iff the next ALLOC or FREE command is a FREE |
| QuantumDevice.LeakedIffOverwritten | kernel/drivers/quantum/quantum_device.c:78-212 | after module exit exactly the blocks whose next ALLOC or FREE command was an ALLOC are still linked |
| QuantumDevice.QubitsAccounted | kernel/drivers/quantum/quantum_device.c:78-94 | used qubits are the current block's plus those of every block an ALLOC overwrote, within the quota |
| DeviceHeap.Device.constructor | kernel/drivers/quantum/quantum_device.c:116-179 | a successful initialization leaves no block, nobody holding the device and no operation counted |
| DeviceHeap.Device.Open | kernel/drivers/quantum/quantum_device.c:34-45 | refused with -EBUSY iff the incremented count is above 1, and then the increment is undone |
| DeviceHeap.Device.Release | kernel/drivers/quantum/quantum_device.c:47-53 | the count falls by one |
| DeviceHeap.Device.Ioctl | kernel/drivers/quantum/quantum_device.c:55-105 | refines the command on values: return code, pointer, memory manager, operation count, and the crash on an error pointer; an ALLOC returns 0 iff the pointer is a block, else the negative code in the pointer; -14 for a failed copy, -25 for an unknown command |
| DeviceHeap.Device.Dispatch | kernel/drivers/quantum/quantum_device.c:60-99 | the switch, before the operation is counted |
| DeviceHeap.Device.AllocMemory | kernel/drivers/quantum/quantum_device.c:83-85 | refines the ALLOC command: returns 0 and the pointer is the block, or the negative code that is in the pointer |
| DeviceHeap.Device.FreeMemory | kernel/drivers/quantum/quantum_device.c:89-94 | refines the FREE command: the block is released and the pointer reset, nothing happens without one, an error code crashes |
| DeviceHeap.Device.Exit | kernel/drivers/quantum/quantum_device.c:199-213 | refines module exit: only the block still named is released, an error code crashes |
| GateTrace.RoundTrip | kernel/quantum/quantum_classical.c:85-103 | the decoder recovers the low bits of every input from its gates and accepts exactly the traces of the encoder |
| GateTrace.TraceAt | kernel/quantum/quantum_classical.c:85-103 | entry by entry: the gates of byte i begin after one Hadamard per earlier byte and one phase gate per earlier odd byte; they are a Hadamard on qubit i and, iff the byte is odd, a phase gate on it; nothing else is in the trace |
| GateTrace.SameTraceIff | kernel/quantum/quantum_classical.c:85-103 | two inputs emit the same gates iff they have the same length and low bits |
| GateTrace.PrefixDecodes | kernel/quantum/quantum_classical.c:89-102 | every prefix of a trace is the trace of the vector cut short, its last bit possibly cleared, and a proper prefix of another vector |
| QcInterface.FailureLeavesPrefix | kernel/quantum/quantum_classical.c:89-108 | a conversion returns 0 iff its whole trace went through; otherwise a proper prefix did, which decodes to other data |
| QcInterface.CallIs | kernel/quantum/quantum_classical.c:70-109 | no data or more than 1024 bytes: nothing is emitted and -22 is returned; else the trace up to the first failing gate call, that call's result or 0, and counted iff none fails |
| QcInterface.Interface.ClassicalToQuantum | kernel/quantum/quantum_classical.c:70-109 | over any history of calls the gates are those of each call in order up to its first failure, conversion_count is the number of complete traces, the lock is free; each call emits, returns, counts and copies as said for its data and results, -22 and nothing for no data or more than 1024 bytes |
| QcInterface.Interface.ConvertLocked | kernel/quantum/quantum_classical.c:79-108 | every path releases the lock; the count moves iff the trace is complete |
| QcInterface.Interface.Convert | kernel/quantum/quantum_classical.c:84-103 | the loop emits exactly the specified trace up to the first failing gate call and returns that call's error |
| QcInterface.Interface.ConvertByte | kernel/quantum/quantum_classical.c:86-102 | a Hadamard and, iff the low bit is set, a phase gate, in this order, stopping at a failure |
| QcInterface.Interface.CopyIn | kernel/quantum/quantum_classical.c:82 | the copy fills the front of the buffer and leaves the rest |
| QcInterface.Interface.QuantumToClassical | kernel/quantum/quantum_classical.c:112-136 | the results before the first failing measurement are stored, the rest of the data is untouched, the count moves iff all succeed |
| QcInterface.Interface.MeasureAll | kernel/quantum/quantum_classical.c:122-129 | the loop stores the results before the first failing measurement, leaves the rest, and returns that measurement's error |
| QcInterface.Interface.ControlledOperation | kernel/quantum/quantum_classical.c:139-166 | error correction runs iff the gate succeeds, with the effect of a direct apply, and both locks are free on every path |
| ErrorCorrection.Qec.Apply | kernel/quantum/error_correction.c:68-96 | over any history of calls the calls made are those of each round up to its first failure, error_count is the rounds measured, correction_count the rounds corrected, and the lock is free |
| ErrorCorrection.RoundIs | kernel/quantum/error_correction.c:68-152 | one round makes CNOTs on 0, 1, 2, the measurement and the gate of the syndrome, up to the first that fails, whose result is returned; error_count moves iff the first four succeed, correction_count iff all do |
| ErrorCorrection.CorrectionIs | kernel/quantum/error_correction.c:126-152 | syndromes 1 to 3 select X on qubits 0 to 2, 4 to 6 select Z on qubits 0 to 2, 7 selects Y on qubit 0, every other int nothing |
| ErrorCorrection.CorrectionsDiffer | kernel/quantum/error_correction.c:126-152 | a syndrome in 1..7 shares its correction with no other syndrome |
| ErrorCorrection.Qec.ApplyLocked | kernel/quantum/error_correction.c:76-95 | one round: its calls up to the first failure, error_count iff measured, correction_count iff all succeeded; the lock is released on every path |
| ErrorCorrection.Qec.MeasureSyndrome | kernel/quantum/error_correction.c:99-123 | CNOTs on qubits 0, 1, 2 and the measurement, in this order up to the first that fails, whose result is returned; error_count iff all four succeed |
| ErrorCorrection.Qec.ApplyCorrection | kernel/quantum/error_correction.c:126-152 | X on qubit s-1 for syndromes 1 to 3, Z on s-4 for 4 to 6, Y on 0 for 7, if the gate call succeeds, and its result; nothing and 0 for every other syndrome |
| NestedLocks.ExecInv | kernel/quantum/quantum_classical.c:79-106 | in every reachable state each lock has the one holder the program counters say, the buffer holds the data of the conversion reading it, and every thread's progress agrees with its calls' results |
| NestedLocks.DeadlockFree | kernel/quantum/quantum_classical.c:79-163 | for any number of threads idle threads hold no lock, the inner lock's holder never waits, a thread waiting for the outer lock holds none, and some unfinished thread can always step |
| NestedLocks.CallsReturn | kernel/quantum/quantum_classical.c:70-166 | under every schedule the steps left are bounded, and where nobody can step every call has returned and both locks are free |
| NestedSerial.Serializable | kernel/quantum/quantum_classical.c:70-166 | over all interleavings the gate log is the accepted prefix of each completed conversion, in lock order, then a prefix of the one in progress, likewise for controlled gates and error-correction calls; with the locks free the shared state is that of the sequential objects after the completed calls, and every call returns what it returns alone |
| NestedSerial.EveryCallOnce | kernel/quantum/quantum_classical.c:70-166 | as multisets, the calls begun are those in the history plus those of the threads whose call is still open |
| NestedSerial.SoloCall | kernel/quantum/quantum_classical.c:70-166 | a call that finds the locks free and is not interrupted has the sequential effect, whatever its gate calls return, and returns |
| NestedSolo.SoloControl | kernel/quantum/quantum_classical.c:139-166 | an uninterrupted controlled operation changes nothing without control data or if the gate fails; otherwise the gate is logged and one round of error correction follows: its calls up to the first failure, error_count iff four go through, correction_count iff all do |
| NestedSolo.SoloConvert | kernel/quantum/quantum_classical.c:70-109 | an uninterrupted conversion emits the trace up to the first failing gate call and is counted iff none fails; nothing for no data or more than 1024 bytes |
| NestedSolo.SoloMeasure | kernel/quantum/quantum_classical.c:112-136 | an uninterrupted measurement is counted iff the data is not NULL, size is at most 1024 and no measurement fails; nothing else changes |
| NestedSolo.SoloApply | kernel/quantum/error_correction.c:68-152 | an uninterrupted apply is one round, or nothing without a state |
| NestedSolo.CallEnters | kernel/quantum/quantum_classical.c:70-148 | whatever other threads do, an idle thread's call waits for the lock of its kind iff its arguments are good; otherwise it is over, having touched no lock, buffer or shared state |
| NestedSolo.ReturnCodes | kernel/quantum/quantum_classical.c:70-166 | alone, a call returns -22 for bad arguments, else the result of the first of its gate and measurement calls that fails, else 0 |
| NestedSolo.CallsReturnCodes | kernel/quantum/quantum_classical.c:70-166 | over all interleavings a thread about to give back a lock has good arguments and returns the result of the first of its calls that fails, else 0 |
| NestedSerial.CorrectionAccounting | kernel/quantum/error_correction.c:68-123 | over all interleavings the rounds measured less those corrected are the rounds that failed after measurement plus at most one thread between the increments; error_count and correction_count are these numbers modulo 2^32, and the other counters the number of completed calls that went all the way modulo 2^32 |
| QecStats.StoredIsMeantIff | kernel/quantum/error_correction.c:160-162 | for counts read at one moment the 32-bit rate is the rate meant iff correction_count is at most 21474836, and is a percentage iff the stored product plus error_count is positive |
| QecStats.RateIsPercentageIff | kernel/quantum/error_correction.c:155-163 | in every reachable state, after any number of rounds: the rate a reader past its first read stores next is a percentage iff the 32-bit product lies within the margins of the errors read |
| QecStats.QuietRatesArePercentages | kernel/quantum/error_correction.c:155-163 | over all runs of up to 2^31-1 measured rounds the rate of a call during which correction_count did not move is the rate meant iff that count is at most 21474836, is then in 0..100, and 100 iff all errors read were corrected; above that it is a percentage iff the product is not too negative; in general iff within the margins |
| QecStats.OverflowAlone | kernel/quantum/error_correction.c:160-162 | one thread: after 21474837 rounds, all corrected, an uninterrupted call stores 4294967197 |
| QecStats.RateRaceExceeds100 | kernel/quantum/error_correction.c:160-162 | for every N >= 2 an apply completing between the two unlocked reads yields a rate of 200 |
| QecStats.PercentagesIff | kernel/quantum/error_correction.c:155-163 | every rate of every run of at most 21474836 corrections and 2^31-1 measured rounds is a percentage iff there is at most one thread |
| QecStats.RoundsIff | kernel/quantum/error_correction.c:155-163 | with one thread every rate of every run of at most k corrections and 2^31-1 measured rounds is a percentage iff k is at most 21474836 |
| QecStats.UninterruptedDivision | kernel/quantum/error_correction.c:160-162 | an uninterrupted call divides by zero iff the rounds measured are a multiple of 2^32 |
| QecStats.StatsSafeIff | kernel/quantum/error_correction.c:160-162 | from a reachable state with an idle thread no continuation divides by zero before the rounds measured reach the next multiple of 2^32, iff error_count is not zero and no pending reader read a zero |
| QecStats.DivisionComesBack | kernel/quantum/error_correction.c:160-162 | from every reachable state with an idle thread and both locks free some continuation divides by zero |

## Left out

- Quantum meaning of gates, measurement and the syndrome: the primitives are not in the repository.
- `kernel/quantum/quantum.c`, `kernel/arch`, `kernel/init/main.c`: stubs, logging and plumbing.
- `kernel/fs`, `kernel/net`, `kernel/drivers/uhal`: plumbing over kernel interfaces that are not shown.
- `kernel/security`, `kernel/performance`: getters, setters and a simpler copy of the reference counting modelled here.
- Character-device registration and the error unwinding of `ctrlxt_quantum_device_init`, logging, and the interrupt state of spinlocks.
- Concurrent ioctls on one open file: `quantum_ioctl` takes no lock, so the ownership results are for one thread.
- The contents of `memory_pool`, which nothing uses, the unused `free_blocks`, and header declarations without a body.
- Calls with a NULL block in the threaded model (they touch nothing); `QMemHeap.QMem.Free` and `QMemHeap.QMem.Get` cover them.
- `ctrlxt_qmem_get_stats` in the threaded model: four independent reads that touch nothing; `QMemHeap.QMem.Stats` covers the uncontended call.
- QMemThreads.ExecInv: the steps that fill in a new block before it is linked (lines 78 to 95) are one step, since no other thread can see the block yet.
- QMemThreads.RefcountSafety: reference counts are unbounded integers; `QMemRefs.RefcountSafeIff` says how far the 32-bit counts follow them.
- QMemSerial.Serializable: on unbounded integers; `QMemSerial.MachineSerializable` carries it to the machine within the ranges of `QMemMachine.MachineIsExact`.
- Weak memory ordering: steps of different threads are interleaved one access at a time.
- DeviceHeap.Device.constructor: a successful `ctrlxt_quantum_device_init` only; its failing registrations and their unwinding are not modelled.
- DeviceHeap.Device.Ioctl: using an error code as a block has no defined result in C; the model stops there (`crashed`).
- QMemHeap.QMem.Exit: the counters stay as they are, and the pool pointer is not reset, as in the C.
- QecStats.StoredIsMeantIff: a signed product beyond 32 bits is taken to wrap, as the kernel is compiled; ISO C leaves it, and the quotient of -2^31 and -1, undefined.
- QecStats.StatsSafeIff: a run goes on after a division by zero, which would stop the kernel; what it says of the runs before that is unaffected.
- MemoryManager.Manager: the region list is a sequence of region objects, without the links of `list_head`, which `QMemHeap.dfy` models.
- QcInterface.Interface.QuantumToClassical: a failing measurement is taken to store nothing.
