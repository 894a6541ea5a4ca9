# Verified models of the charging module and the headers it ships with

The repository is a kernel module that rewrites charging parameters on one device, together with the
kernel headers it is built against. Most headers only declare things, but some hold complete
algorithms. This project models those algorithms and the module itself in Dafny and proves what they
are for. `dafny verify dfyconfig.toml` checks everything.

| file | what it models |
|---|---|
| words.dfy | machine words as numbers: wrap-around, shifts, `&`, `\|`, `^`, powers of two |
| div64.dfy | division of a 64-bit word by a 32-bit constant through a reciprocal multiplication |
| spinlock.dfy, qrwlock.dfy, atomic.dfy, threads.dfy | ticket lock, queued reader/writer lock, compare-and-swap loops; every interleaving of atomic accesses |
| padding.dfy, chunks.dfy, blockbuffer.dfy, sha256_base.dfy, sha512_base.dfy, digest.dfy | the streaming hash drivers (SHA-224/256, SHA-1, SM3, SHA-384/512) over any compression function |
| ctr.dfy | counter mode over a chunked walk, any block cipher |
| aria.dfy, aria_key.dfy | the rounds and the round keys of ARIA, any four byte substitutions |
| gf128mul.dfy | doubling in GF(2^128) in three bit orders |
| wordatatime.dfy | searching a zero byte a word at a time, both byte orders |
| xorblocks.dfy | the block exclusive-or routines |
| mshyperv.dfy, vpset.dfy | the resumable hypercall and the sparse processor set of Hyper-V |
| tlb.dfy | tracking of pending TLB flushes |
| mmiowb.dfy | the I/O barrier pending under a spinlock |
| scatterwalk.dfy | the walk over a scatter list |
| chargemodule.dfy, chargerun.dfy, probes.dfy | the charging hooks, runs of them, and the registration of their probes |

How the models are built:

- Words are numbers and every wrap is written out; only wordatatime.dfy and the row masks of aria.dfy
  use bit vectors. Paths below are those of the headers under `kheaders/include`.
- Structures the C code updates are classes or arrays, and their methods are proved against functions
  of the old state. Protocols are state machines over those functions: one step is one atomic access by
  one thread, memory is sequentially consistent, and the statements hold for every schedule. A class
  beside each machine (`Machine`, `Device`, `Teardown`, `Processor`) makes its steps by calling the
  code, and its contract says that they are the steps of the machine.
- What is only declared in the headers is a parameter: the compression function and the block cipher,
  the answers of the hypervisor, the chunks of a cipher walk, the verdicts of the kernel on probe
  registrations, flushes and barriers (recorded in a log), module parameters and sensor readings.

Where the code does not do what one might expect, the exact condition is a theorem:

- The ticket lock excludes for up to 2^16 threads and not one more; `arch_spin_is_contended` answers
  no again from 2^15 threads in line on (`TicketLock.CrowdLooksUncontended`); the reader/writer lock
  excludes for up to 2^23 threads; the I/O barrier counter works for fewer than 2^16 nested locks.
- `__tlb_adjust_range` takes its size as `unsigned int` while its callers pass `unsigned long`. After
  any run the flush reaches a pending removal exactly if everything is flushed or some pending
  removal's recorded end, computed from the truncated size, is not before its end
  (`TlbGather.FlushReachesExactly`). So sizes below 4 GiB are always reached, and a 16 GiB huge page
  in an empty gather is not flushed.
- `hv_do_rep_hypercall` does not check its arguments: the fields of its control words survive exactly
  when the count is below 2^12 and the header size below 2^10. It need not end if the hypervisor
  reports no progress.
- The little-endian zero flags above the first zero byte may be wrong; the search result is not.
- The hash update's test for a full block is right exactly when `partial + len` stays below 2^32.
- The updates of SHA-1, SM3 and SHA-384/512 count whole blocks in an `int`, and move the input pointer
  by its product with the block size, which wraps in `int` (the build uses `-fno-strict-overflow`,
  line 120 of scripts/build_k100pm_chg_runtime.sh). They take in their chunk exactly if less than 2^31
  bytes follow the top-up of the buffer or these are a whole number of blocks
  (`Chunks.TakenRightIffInReach`, `Chunks.InReachBelow2G`, for whole runs `Chunks.RunRightIffInReach`).
  The last byte of a chunk of 2^31 + 1 bytes is read from before the chunk (`Chunks.LongChunkMisread`).
  SHA-224/256 counts in an `unsigned int` and is not affected.
- A rotation amount of 160 or more makes `aria_gsrk` index outside its key
  (`AriaKeys.IndicesInRangeBelow160`).
- The band test of the charging module is unsigned, so a reading below 0 degrees counts as above 58
  degrees.
- The charging hooks are meant to go by the unmodified reading (line 31 of the repository's
  README.md). Both temperature getters clamp in place what they take for the reading, and they may be
  given the address of one variable. The hooks go by what the gauge last stored exactly if no getter
  of that variable clamped it since (`ChargingRuns.RawIsSensorUnlessLowered`); a second getter in a
  row makes 60 degrees count as 36 (`ChargingRuns.TwoGettersHideHeat`). That the gauge stores a fresh
  reading before each getter is up to vendor code, which is not part of this model.
- The table in the repository's README.md (lines 33 to 39) shows an 18 to 23 degree band with its own
  14.27 A target and a voltage of its own from 48 to 55 degrees. The code has no such bands: below 55
  degrees it uses one set of maps (`Charging.CoolBandsAlike`), and it leaves a value that no map lists.
  `Charging.DocumentedTableExactly` says for each row and column which values end where the table says,
  and `Charging.DocumentedTableFails` has an input for each row but the last that ends elsewhere.

## Model

| member | source | states |
|---|---|---|
| `Div64.XProd64` | kheaders/include/asm-generic/div64.h:89-127 | equals floor((m*n + (bias ? m : 0)) / 2^64) for all 64-bit m and n: no carry is lost in either overflow-test branch and the last sum does not wrap |
| `Div64.CarryDetected` | kheaders/include/asm-generic/div64.h:104-121 | comparing the high half of a wrapped sum with that of an addend recovers exactly the carry it lost |
| `Div64.LowBlock` | kheaders/include/asm-generic/div64.h:98-108 | the first partial sum is the exact carry out of the low word, in all three forms |
| `Div64.CrossBlock` | kheaders/include/asm-generic/div64.h:110-122 | the cross products are added with no carry lost, in both forms |
| `Div64.ComputeUp` | kheaders/include/asm-generic/div64.h:33-37 | the setup leaves the rounded-up multiplier without an intermediate wrap |
| `Div64.ComputeDown` | kheaders/include/asm-generic/div64.h:60-63 | and the rounded-down one |
| `Div64.ReductionShift` | kheaders/include/asm-generic/div64.h:66-76 | the shift derived from the inverted bits is at most the number of trailing zeros of the multiplier |
| `Div64.ProbeProduct` | kheaders/include/asm-generic/div64.h:43-48 | the inlined product is floor(m*x / 2^64) |
| `Div64.DivConst32` | kheaders/include/asm-generic/div64.h:26-85 | returns n / b for every 64-bit n and every 32-bit b >= 1 |
| `Div64.ChooseMultiplier` | kheaders/include/asm-generic/div64.h:52-79 | whichever of the three branches is taken, multiplier, shift and bias satisfy the exactness condition for the dividend that branch uses |
| `Div64.ProbeMeaning` | kheaders/include/asm-generic/div64.h:40-50 | at x = q*b - 1 the rounded-up multiplier gives the right quotient exactly when its scaled error there stays below p * 2^64 |
| `Div64.ProbeDecides` | kheaders/include/asm-generic/div64.h:40-50 | if so at the one dividend probed, the error stays small enough at every 64-bit dividend |
| `Div64.ProbeFailureBoundsError` | kheaders/include/asm-generic/div64.h:58-63 | if not, the rounded-down multiplier is within p of exact |
| `Div64.Probe` | kheaders/include/asm-generic/div64.h:40-50 | the inlined product with its own carry test decides exactly whether the probe passes |
| `Div64.ReduceMultiplier` | kheaders/include/asm-generic/div64.h:66-76 | multiplier and scale are divided exactly by one common power of two, so neither becomes zero |
| `Div64.FactorOfMax` | kheaders/include/asm-generic/div64.h:52-57 | when a number divides 2^64 - 1, the exact reciprocal with bias divides every 64-bit dividend by it |
| `Div64.BiasedBranch` | kheaders/include/asm-generic/div64.h:58-63 | when the probe disagrees, the rounded-down multiplier with bias gives n / b for every n |
| `Div64.UnbiasedBranch` | kheaders/include/asm-generic/div64.h:64-79 | when it agrees, the rounded-up multiplier gives n / b for every n, reduced by any common factor |
| `Div64.DoDiv` | kheaders/include/asm-generic/div64.h:135-157 | every path of the dispatch leaves the quotient in n and returns the remainder |
| `Div64.RemainderFromLowWords` | kheaders/include/asm-generic/div64.h:145-149 | the remainder computed from the low 32-bit words is n mod b |
| `TicketLock.StepKeepsInv` | kheaders/include/asm-generic/spinlock.h:11-40 | every atomic access of any thread keeps the lock word equal to the ticket and release counts modulo 2^16, and the holder at the front of the queue |
| `TicketLock.SafeExactlyUpTo65536Threads` | kheaders/include/asm-generic/spinlock.h:11-40 | at most one thread holds the lock in every interleaving if and only if there are at most 2^16 threads |
| `TicketLock.FirstComeFirstServed` | kheaders/include/asm-generic/spinlock.h:11-22 | in every interleaving the lock is granted in the order the tickets were drawn |
| `TicketLock.Machine.Step` | kheaders/include/asm-generic/spinlock.h:11-40 | one call of a method of the lock is one step of the state machine, for every thread and access |
| `TicketLock.Machine.Perform` | kheaders/include/asm-generic/spinlock.h:11-40 | so a schedule run on the lock ends where the state machine does, and with at most 2^16 threads nobody shares the lock after any part of it |
| `TicketLock.ReleaseStore` | kheaders/include/asm-generic/spinlock.h:34-40 | the half-word release store passes the lock to the next in line and loses no ticket drawn since its read |
| `TicketLock.TakeFreeLock` | kheaders/include/asm-generic/spinlock.h:24-32 | trylock enters only when nobody holds or waits, even if the word came round between its read and its exchange |
| `TicketLock.WaiterIsNext` | kheaders/include/asm-generic/spinlock.h:16-21 | a waiter sees its number only at the front of the queue and after the previous holder left |
| `TicketLock.ValueUnlockedMeaning` | kheaders/include/asm-generic/spinlock.h:42-47 | true exactly when nobody holds or waits (or, with 2^16 threads, when all of them do) |
| `TicketLock.IsContendedMeaning` | kheaders/include/asm-generic/spinlock.h:56-61 | with up to 2^16 threads, in every reachable state: true exactly when the queue holds at least 2 and fewer than 2^15 threads |
| `TicketLock.CrowdLooksUncontended` | kheaders/include/asm-generic/spinlock.h:56-61 | for every number of threads in line from 2^15 to 2^16 a schedule that puts them there, after which the lock says it is not contended |
| `TicketLock.FrontOfQueueEnters` | kheaders/include/asm-generic/spinlock.h:16-21 | a free lock with waiters is entered by the next turn of the front of the queue and by no other waiter |
| `TicketLock.LockExactly` | kheaders/include/asm-generic/spinlock.h:11-22 | lock puts an idle thread at the end of the line, and inside at once exactly if nobody was in it |
| `TicketLock.TryReadExactly` | kheaders/include/asm-generic/spinlock.h:24-30 | the read of trylock goes on if and only if nobody holds or waits |
| `TicketLock.TryLockTakesFreeLock` | kheaders/include/asm-generic/spinlock.h:24-32 | undisturbed trylock takes a lock with nobody in line |
| `TicketLock.TryExchangeExactly` | kheaders/include/asm-generic/spinlock.h:31 | its exchange takes the lock exactly if the word is still the one read, and otherwise leaves the thread idle and all else as it was |
| `TicketLock.UnlockReleases` | kheaders/include/asm-generic/spinlock.h:34-40 | from every state and whatever others do between its two accesses, unlock leaves the holder idle, the queue without its front, and one more release |
| `TicketLock.SpinLock.Lock` | kheaders/include/asm-generic/spinlock.h:11-22 | the first access of a lock draws a ticket and enters at once exactly when it is being served |
| `TicketLock.SpinLock.UnlockStore` | kheaders/include/asm-generic/spinlock.h:34-40 | the store changes the serving half only |
| `TicketLock.SpinLock.TryExchange` | kheaders/include/asm-generic/spinlock.h:31 | draws a ticket exactly when the word is still the one read |
| `TicketLock.InvExcludes` | kheaders/include/asm-generic/spinlock.h:11-40 | the invariant implies mutual exclusion |
| `QueuedRwLock.StepKeepsInv` | kheaders/include/asm-generic/qrwlock.h:26-87 | every access keeps cnts equal to 512 times the counted readers plus 0xff for a writer, and writers alone |
| `QueuedRwLock.SafeExactlyUpTo2To23Threads` | kheaders/include/asm-generic/qrwlock.h:26-87 | a writer never coexists with another holder in any interleaving if and only if there are at most 2^23 threads |
| `QueuedRwLock.WordIsPlainSum` | kheaders/include/asm-generic/qrwlock.h:26-87 | with fewer than 2^23 threads the word is that sum without any wrap, in every reachable state |
| `QueuedRwLock.Machine.Step` | kheaders/include/asm-generic/qrwlock.h:26-87 | one call of a method of the lock is one step of the state machine, for every thread and access |
| `QueuedRwLock.Machine.Perform` | kheaders/include/asm-generic/qrwlock.h:26-87 | so a schedule run on the lock ends where the state machine does, and with at most 2^23 threads a writer is alone after every part of it |
| `QueuedRwLock.AddSeesWriter` | kheaders/include/asm-generic/qrwlock.h:32-36 | the word returned by a reader's addition shows a writer exactly when one holds |
| `QueuedRwLock.ExchangeKeepsInv` | kheaders/include/asm-generic/qrwlock.h:41-51 | the writer's exchange from zero succeeds only with no reader counted and no writer |
| `QueuedRwLock.WriteUnlockKeepsInv` | kheaders/include/asm-generic/qrwlock.h:84-87 | the byte-wide unlock keeps the reader count |
| `QueuedRwLock.TryReadTestExactly` | kheaders/include/asm-generic/qrwlock.h:30-31 | the test of the read trylock goes on if and only if no writer holds |
| `QueuedRwLock.TryReadAddExactly` | kheaders/include/asm-generic/qrwlock.h:32-36 | its addition counts the thread and makes it a reader if and only if no writer holds then |
| `QueuedRwLock.FailedTryReadUndone` | kheaders/include/asm-generic/qrwlock.h:35-38 | a read trylock that met a writer ends idle and uncounted, whatever others do in between |
| `QueuedRwLock.ReadLockExactly` | kheaders/include/asm-generic/qrwlock.h:53-63 | the read lock counts the thread and makes it a reader if and only if no writer holds |
| `QueuedRwLock.ReaderLeaves` | kheaders/include/asm-generic/qrwlock.h:77-81 | a reader that unlocks is idle and no longer counted; everybody else stays as he was |
| `QueuedRwLock.TryWriteTestExactly` | kheaders/include/asm-generic/qrwlock.h:45-47 | the test of the write trylock goes on if and only if no reader is counted and no writer holds |
| `QueuedRwLock.WriteExchangeExactly` | kheaders/include/asm-generic/qrwlock.h:49-74 | its exchange, and the write lock, make the thread the writer if and only if no reader is counted and no writer holds, and otherwise change nothing else |
| `QueuedRwLock.WriteUnlockExactly` | kheaders/include/asm-generic/qrwlock.h:84-87 | the write unlock leaves the thread idle, no writer, and the counted readers |
| `QueuedRwLock.RwLock.ReadAdd` | kheaders/include/asm-generic/qrwlock.h:32-36 | adds one reader and tells from the sum whether a writer holds |
| `QueuedRwLock.RwLock.ReadSub` | kheaders/include/asm-generic/qrwlock.h:77-81 | takes one reader away |
| `QueuedRwLock.RwLock.WriteExchange` | kheaders/include/asm-generic/qrwlock.h:66-74 | takes the lock exactly when the word is zero |
| `QueuedRwLock.RwLock.WriteUnlock` | kheaders/include/asm-generic/qrwlock.h:84-87 | clears the writer byte only |
| `QueuedRwLock.RunKeepsInv` | kheaders/include/asm-generic/qrwlock.h:26-87 | so the invariant holds after every schedule |
| `AtomicOps.Cell.Perform` | kheaders/include/asm-generic/atomic.h:13-45 | the loop applies its operation once to the value it finds at its successful exchange, whatever other threads store in between: add and sub modulo 2^32, and, or and xor bit by bit; a Return gives the counter left, a Fetch the value found |
| `AtomicOps.EffectsMake` | kheaders/include/asm-generic/atomic.h:13-45 | in every schedule each effect makes that of the counter |
| `AtomicOps.ResultsOfEffects` | kheaders/include/asm-generic/atomic.h:13-45 | and each finished call returned the value before or after its own effect |
| `AtomicOps.UndisturbedCall` | kheaders/include/asm-generic/atomic.h:13-45 | a call with no access in between finishes at its first exchange, with that effect and result |
| `AtomicOps.Machine.Step` | kheaders/include/asm-generic/atomic.h:13-45 | one read or exchange of a thread on the shared word is one step of the state machine |
| `AtomicOps.RunIsLinearizable` | kheaders/include/asm-generic/atomic.h:13-45 | in every interleaving the counter is the result of the completed operations run one by one, and each returned the value around its own step |
| `AtomicOps.EffectExactlyAtFinish` | kheaders/include/asm-generic/atomic.h:13-45 | an operation takes effect at its successful exchange and at no other access |
| `AtomicOps.RetryMeansInterference` | kheaders/include/asm-generic/atomic.h:19-20 | an exchange fails only if another thread changed the counter since the last read |
| `AtomicOps.NothingLost` | kheaders/include/asm-generic/atomic.h:13-45 | with additions and subtractions only, the counter is the initial value plus all completed operands modulo 2^32 |
| `AtomicOps.StepKeepsInv` | kheaders/include/asm-generic/atomic.h:13-45 | every access of any thread keeps the history linear and each thread consistent with its own read |
| `AtomicOps.SequentialSum` | kheaders/include/asm-generic/atomic.h:13-45 | a linear history of additions and subtractions ends at the sum of its operands |
| `Sha256Base.Digest` | kheaders/include/crypto/sha256_base.h:33-100 | for every message and every split into updates, the compression function is fed exactly the blocks of the padded message in order (section 5.1.1 of FIPS 180-4) |
| `Sha256Base.DigestSigned` | kheaders/include/crypto/sha1_base.h:31-90 | SHA-1 and SM3: it is fed the padding of what the updates took in, which is the message if every chunk is in reach |
| `Chunks.TakenRightIffInReach` | kheaders/include/crypto/sha1_base.h:41-64 | an update takes in the bytes it is given, whatever lies around them, if and only if the block count is unsigned, or no block or less than 2^31 bytes of blocks follow the top-up, or nothing is left over |
| `Chunks.RunRightIffInReach` | kheaders/include/crypto/sha512_base.h:64-87 | the updates of a run take in the message if and only if every chunk is so |
| `Chunks.InReachBelow2G` | kheaders/include/crypto/sha512_base.h:77-83 | for blocks of 64 and 128 bytes: less than 2^31 bytes after the top-up, or a whole number of blocks |
| `Chunks.LongChunkMisread` | kheaders/include/crypto/sha512_base.h:77-87 | the last byte of a first chunk of 2^31 + 1 bytes is read from 2^31 bytes before the chunk |
| `Sha256Base.Context.Update` | kheaders/include/crypto/sha256_base.h:33-68 | appends what it takes in, with an unsigned count always the chunk: buffer, count and chaining value stay consistent |
| `Sha256Base.Context.Finalize` | kheaders/include/crypto/sha256_base.h:80-100 | absorbs the padding of the whole message, whether it takes one block or two |
| `Sha256Base.LengthField` | kheaders/include/crypto/sha256_base.h:96 | the length field is the bit length modulo 2^64 even if the byte count wrapped |
| `Sha256Base.FullBlockTestIsRight` | kheaders/include/crypto/sha256_base.h:42 | the test for a full block is right exactly when the unsigned sum does not wrap |
| `BlockBuffers.BlockBuffer.Update` | kheaders/include/crypto/sha1_base.h:41-64 | for both types of block count: fills, flushes and keeps the partial block so that the absorbed prefix and the buffer always make up what was taken in, with the tail read from where the wrapped product moves the pointer |
| `BlockBuffers.BlockBuffer.Finalize` | kheaders/include/crypto/sm3_base.h:71-92 | one or two final blocks, as the space left demands, are the padded tail |
| `BlockBuffers.BlockBuffer.CompleteBlock` | kheaders/include/crypto/sha256_base.h:45-53 | fills the partial block with the head of the data and absorbs it |
| `BlockBuffers.BlockBuffer.TakeBlocks` | kheaders/include/crypto/sha256_base.h:55-62 | absorbs all whole blocks of the data |
| `BlockBuffers.BlockBuffer.Keep` | kheaders/include/crypto/sha256_base.h:64-65 | keeps the rest as the new partial block |
| `BlockBuffers.BlockBuffer.FlushZeros` | kheaders/include/crypto/sha256_base.h:88-93 | fills a block that has no room for the length with zeros and absorbs it |
| `BlockBuffers.BlockBuffer.FlushLength` | kheaders/include/crypto/sha256_base.h:95-97 | absorbs the last block, zeros and length |
| `Sha512Base.Digest` | kheaders/include/crypto/sha512_base.h:52-114 | for 128-byte blocks and the 128-bit length (section 5.1.2 of FIPS 180-4): fed the padding of what the updates took in, which is the message if every chunk is in reach |
| `Sha512Base.CarryCounts` | kheaders/include/crypto/sha512_base.h:60-62 | the carry keeps the two-word byte count exact modulo 2^128 |
| `Sha512Base.Context.AddToCount` | kheaders/include/crypto/sha512_base.h:60-62 | the two fields afterwards hold the new total |
| `Sha512Base.Context.Update` | kheaders/include/crypto/sha512_base.h:52-90 | appends what it takes in, which is the chunk if that is in reach |
| `Sha512Base.Context.Finalize` | kheaders/include/crypto/sha512_base.h:92-114 | absorbs the padding of the whole message |
| `Sha512Base.LengthField` | kheaders/include/crypto/sha512_base.h:109-110 | the two length words, with three bits moved between them, are the bit length modulo 2^128 |
| `Padding.PadIsWholeBlocks` | kheaders/include/crypto/sha256_base.h:83-97 | the padding ends on a block boundary and is shorter than a block and the length field |
| `Padding.PadValue` | kheaders/include/crypto/sha256_base.h:87-97 | as a number the padded message is (2m + 1) * 2^(8d - 1) + the length in bits, d the bytes appended: the message, a one bit, zero bits and the length (section 5.1 of FIPS 180-4) |
| `Padding.PadIsShortest` | kheaders/include/crypto/sha256_base.h:87-97 | no whole number of blocks with room for the bit and the length field is shorter |
| `Padding.ChainingValues` | kheaders/include/crypto/sha256_base.h:55-62 | each chaining value follows from the one before by the next block, and the last is what the data comes to (section 6.2.2 of FIPS 180-4) |
| `Padding.PadInjective` | kheaders/include/crypto/sha256_base.h:87-97 | different messages have different paddings as long as the length field does not wrap |
| `Padding.AbsorbConcat` | kheaders/include/crypto/sha256_base.h:55-62 | absorbing whole blocks in two parts is absorbing them in one |
| `Digests.Hash256` | kheaders/include/crypto/sha256_base.h:25-121 | SHA-224/256 from init through updates and finalize to finish: the output starts with the first words of the padded message's chaining value, big-endian, the rest of it stays, and chaining value, buffer and count are cleared |
| `Digests.HashCounted` | kheaders/include/crypto/sha1_base.h:16-103 | SHA-1 and SM3: the same for what the updates took in, which is the message if every chunk is in reach |
| `Digests.Hash512` | kheaders/include/crypto/sha512_base.h:32-128 | SHA-384/512: likewise, with 128-byte blocks, 8-byte words and the two-word count |
| `Digests.Finish256` | kheaders/include/crypto/sha256_base.h:110-121 | writes the first words big-endian and clears all of the context |
| `Digests.FinishCounted` | kheaders/include/crypto/sha1_base.h:92-103 | the same with a loop that counts the words up |
| `Digests.Finish512` | kheaders/include/crypto/sha512_base.h:116-128 | the same, both words of the count included |
| `Digests.DigestDeterminesWords` | kheaders/include/crypto/sha512_base.h:116-128 | equal digests come from equal state words |
| `Digests.DigestByte` | kheaders/include/crypto/sha256_base.h:116-117 | byte k of word i, most significant first, is byte i * wordBytes + k of the digest |
| `Digests.LongerDigest` | kheaders/include/crypto/sha256_base.h:116-117 | a shorter digest of a state is the beginning of a longer one |
| `CtrMode.EncryptWalk` | kheaders/include/crypto/ctr.h:16-59 | for every chunking and every failure of the walk: up to where the walk ends output byte i is input byte i exclusive-or key-stream byte i, the rest of the output is as it was, the IV is advanced by the blocks used (section 6.5 of NIST SP 800-38A), and the walk's last answer is returned; a block size that is no power of two is refused and nothing changes |
| `CtrMode.WalkWithoutError` | kheaders/include/crypto/ctr.h:30-58 | a walk that never fails ends at the end of the data with 0, so all the output is the mode's |
| `CtrMode.OneChunk` | kheaders/include/crypto/ctr.h:35-54 | the inner loop over one chunk keeps the walk at its place, with the partial block only at the end |
| `CtrMode.CtrTwice` | kheaders/include/crypto/ctr.h:16-59 | a second run from the same IV restores the input |
| `CtrMode.CtrBytes` | kheaders/include/crypto/ctr.h:46-49 | output byte i is input byte i exclusive-or byte i mod n of the cipher at a counter block whose value is iv + i / n modulo its range |
| `CtrMode.CounterIsSum` | kheaders/include/crypto/ctr.h:49 | k increments of the IV add k modulo the IV size |
| `CtrMode.IncrementIsPlusOne` | kheaders/include/crypto/ctr.h:49 | one increment of a big-endian counter adds one modulo its size |
| `CtrMode.OneBlock` | kheaders/include/crypto/ctr.h:43-54 | one turn encrypts the counter, exclusive-ors a block or less and advances |
| `CtrMode.BlocksForMultiple` | kheaders/include/crypto/ctr.h:43-54 | the number of counter blocks a length uses is the length rounded up |
| `Aria.SubstDiffOdd` | kheaders/include/crypto/aria.h:402-408 | equals the first substitution layer followed by the diffusion map A of section 2.4.3 of RFC 5794 |
| `Aria.SubstDiffEven` | kheaders/include/crypto/aria.h:411-417 | equals the second substitution layer followed by the same A, despite other tables and another byte permutation |
| `Aria.LayerByte` | kheaders/include/crypto/aria.h:329-370 | which box each of the sixteen bytes passes in the two substitution layers (section 2.4.2 of RFC 5794) |
| `Aria.DiffuseIsInvolution` | kheaders/include/crypto/aria.h:373-390 | A is its own inverse |
| `Aria.RoundUndone` | kheaders/include/crypto/aria.h:402-417 | with x1 and x2 inverse to s1 and s2, each round is undone by A and the other layer |
| `Aria.MergedTablesAreM` | kheaders/include/crypto/aria.h:323-348 | aria_m applied to plainly substituted bytes is what the merged tables look up |
| `Aria.DiffWord` | kheaders/include/crypto/aria.h:373-382 | each word ends as the sum of three of the old ones |
| `Aria.DiffByte` | kheaders/include/crypto/aria.h:385-390 | permutes the bytes inside the three words named |
| `Aria.SboxLayer1` | kheaders/include/crypto/aria.h:329-348 | each word becomes the sum of its four table entries |
| `Aria.SboxLayer2` | kheaders/include/crypto/aria.h:351-370 | the same in the other table order |
| `Aria.OddMergedBytes` | kheaders/include/crypto/aria.h:329-348 | each byte of the looked-up word is the sum of three of the four substituted bytes |
| `Aria.RotateHalvesMoves` | kheaders/include/crypto/aria.h:388 | the rotation by 16 exchanges the halves |
| `Aria.SquareIsIdentity` | kheaders/include/crypto/aria.h:373-390 | the square of the matrix of A is the identity |
| `Aria.SwapPairsMoves` | kheaders/include/crypto/aria.h:387 | the masked shifts exchange neighbouring bytes |
| `Aria.SwapBytesMoves` | kheaders/include/crypto/aria.h:305-311 | bswap32 reverses the bytes |
| `AriaKeys.Gsrk` | kheaders/include/crypto/aria.h:420-437 | the round key is x exclusive-or y rotated right by n modulo 128 as 128-bit numbers, for every n below 160 that is no multiple of 32 |
| `AriaKeys.IndicesInRangeBelow160` | kheaders/include/crypto/aria.h:422-436 | the indices stay inside the key if and only if n is below 160 |
| `AriaKeys.WordsThenFunnels` | kheaders/include/crypto/aria.h:422-436 | moving words and funnelling bits between neighbours rotates the 128-bit number |
| `AriaKeys.FunnelsRotate` | kheaders/include/crypto/aria.h:425-436 | taking bits in from the neighbour rotates by fewer than 32 bits |
| `AriaKeys.WordsRotate` | kheaders/include/crypto/aria.h:422-436 | moving words rotates by multiples of 32 bits |
| `Gf128.DoublingIsTimesX` | kheaders/include/crypto/gf128mul.h:21-62 | i doublings multiply by x^i modulo x^128 + x^7 + x^2 + x + 1 |
| `Gf128.ModulusCoefficients` | kheaders/include/crypto/gf128mul.h:27-62 | the modulus has exactly the coefficients of x^0, x^1, x^2, x^7 and x^128 |
| `Gf128.BbeTimesPower` | kheaders/include/crypto/gf128mul.h:39-49 | i calls of x_bbe multiply the block by x^i modulo that polynomial |
| `Gf128.LleTimesPower` | kheaders/include/crypto/gf128mul.h:27-37 | i calls of x_lle do the same to the block with its bits reversed |
| `Gf128.BbeDoubles` | kheaders/include/crypto/gf128mul.h:39-62 | the word code of x_bbe and x_ble doubles the polynomial of the block |
| `Gf128.LleDoublesReversed` | kheaders/include/crypto/gf128mul.h:27-37 | x_lle is the same doubling conjugated by the reversal of all 128 bits (block convention of section 6.3 of NIST SP 800-38D) |
| `Gf128.MulXLle` | kheaders/include/crypto/gf128mul.h:27-37 | the sixteen bytes stored are that doubling of the sixteen bytes read, even in place |
| `Gf128.MulXBbe` | kheaders/include/crypto/gf128mul.h:39-49 | the same in big-endian order |
| `Gf128.MulXBle` | kheaders/include/crypto/gf128mul.h:52-62 | does to the sixteen bytes read backwards what x_bbe does to them forwards, and so doubles the little-endian polynomial |
| `Gf128.DivisionLaw` | kheaders/include/crypto/gf128mul.h:39-49 | every polynomial is quotient times modulus plus remainder |
| `Gf128.ReverseTwice` | kheaders/include/crypto/gf128mul.h:27-37 | reversing a block twice gives it back |
| `Gf128.DoubleLinear` | kheaders/include/crypto/gf128mul.h:39-49 | doubling is linear over exclusive or |
| `Gf128.DoubleInjective` | kheaders/include/crypto/gf128mul.h:39-49 | doubling loses nothing |
| `Gf128.RemainderUnique` | kheaders/include/crypto/gf128mul.h:39-49 | the remainder modulo the polynomial is the only one of degree below 128 |
| `Gf128.MaskSelects` | kheaders/include/crypto/gf128mul.h:21-25 | for each of the 64 bits the mask keeps all of a constant or nothing, as that bit says |
| `LittleEndianZero.PipelineFindsFirstZero` | kheaders/include/asm-generic/word-at-a-time.h:65-108 | whenever a byte is zero the pipeline returns the index of the first one in memory order |
| `LittleEndianZero.HasZero` | kheaders/include/asm-generic/word-at-a-time.h:84-89 | nonzero exactly when some byte is zero |
| `LittleEndianZero.FlagsExactly` | kheaders/include/asm-generic/word-at-a-time.h:84-89 | which bytes are flagged: zero bytes, and bytes equal to 1 just above a flagged one |
| `LittleEndianZero.MaskIsLeadingBytes` | kheaders/include/asm-generic/word-at-a-time.h:97-101 | the mask covers exactly the bytes before the first zero |
| `LittleEndianZero.CountOfLeadingBytes` | kheaders/include/asm-generic/word-at-a-time.h:65-68 | multiplying a mask of k leading bytes counts them |
| `LittleEndianZero.CountOfLeadingBytes32` | kheaders/include/asm-generic/word-at-a-time.h:73-79 | the 32-bit count, without a multiplication, does the same |
| `LittleEndianZero.FlaggedIffZero` | kheaders/include/asm-generic/word-at-a-time.h:84-89 | some flag is up exactly when some byte is zero |
| `LittleEndianZero.FalseFlag` | kheaders/include/asm-generic/word-at-a-time.h:84-89 | a word with a flag on a byte that is not zero |
| `BigEndianZero.FindFirstZero` | kheaders/include/asm-generic/word-at-a-time.h:18-47 | big-endian: tells whether a byte is zero and the index of the first |
| `BigEndianZero.PrepIsExact` | kheaders/include/asm-generic/word-at-a-time.h:18-22 | the prepared flags are 0x80 in each zero byte and 0 elsewhere |
| `BigEndianZero.HasZero` | kheaders/include/asm-generic/word-at-a-time.h:42-47 | nonzero exactly when some byte is zero |
| `BigEndianZero.SameTest` | kheaders/include/asm-generic/word-at-a-time.h:42-47 | both byte orders test the same bits |
| `BigEndianZero.FindZero` | kheaders/include/asm-generic/word-at-a-time.h:26-40 | the binary search finds the highest flagged byte of any nonzero mask |
| `BigEndianZero.ZeroBytemask` | kheaders/include/asm-generic/word-at-a-time.h:49-51 | the byte mask covers exactly the bytes before the first zero |
| `XorBlocks.Xor8Regs` | kheaders/include/asm-generic/xor.h:6-96 | for L >= 1 lines and any sources: the first 8L words become the exclusive or, nothing else changes, the body runs L times |
| `XorBlocks.Xor32Regs` | kheaders/include/asm-generic/xor.h:98-304 | the same with registers |
| `XorBlocks.Xor8RegsPrefetch` | kheaders/include/asm-generic/xor.h:306-438 | the same where the count starts one lower and a backward goto runs the body once more |
| `XorBlocks.Xor32RegsPrefetch` | kheaders/include/asm-generic/xor.h:440-694 | the same with registers and goto |
| `XorBlocks.RegisterIsMemoryForm` | kheaders/include/asm-generic/xor.h:98-304 | taking the sources in one after the other gives what combining them first gives |
| `XorBlocks.MemoryLine` | kheaders/include/asm-generic/xor.h:12-24 | one line of eight words in memory |
| `XorBlocks.RegisterLine` | kheaders/include/asm-generic/xor.h:104-134 | one line of eight words in registers, stored when all sources are in |
| `XorBlocks.CombinedOfUpdate` | kheaders/include/asm-generic/xor.h:6-694 | replacing one source changes the sum by the difference |
| `XorBlocks.XoredTwice` | kheaders/include/asm-generic/xor.h:6-694 | applying a routine twice restores the destination |
| `XorBlocks.ParityRecovers` | kheaders/include/asm-generic/xor.h:6-694 | the parity of the sources, put in the place of any one of them, gives that one back |
| `HyperV.FirstControlDecodes` | kheaders/include/asm-generic/mshyperv.h:93-98 | code, header size and count are read back from the first control word, with the reserved bits clear, if and only if count < 2^12 and header size < 2^10 |
| `HyperV.EveryControlDecodes` | kheaders/include/asm-generic/mshyperv.h:100-111 | so they are from every later control word, which starts at the repetitions reported by the call before |
| `HyperV.NextControlDecodes` | kheaders/include/asm-generic/mshyperv.h:107-108 | replacing the start field changes no other field |
| `HyperV.CompletedGrows` | kheaders/include/asm-generic/mshyperv.h:100-111 | with progress each further call starts later than the one before |
| `HyperV.DoRepHypercall` | kheaders/include/asm-generic/mshyperv.h:90-114 | stops at the first failure or when the reported repetitions reach the count, after at most count + 1 calls if each makes progress; the last status, field by field, shows an error or all repetitions |
| `HyperV.StatusFields` | kheaders/include/asm-generic/mshyperv.h:82-87 | repetitions and result are read from bits 43:32 and 15:0 of the status, whatever the other bits |
| `HyperV.GoesOnExactly` | kheaders/include/asm-generic/mshyperv.h:100-111 | on a status with those fields the loop goes round again if and only if the result is 0 and the repetitions are fewer than asked for |
| `HyperV.EachRepetitionOnce` | kheaders/include/asm-generic/mshyperv.h:100-111 | every repetition reported done was done by exactly one call |
| `HyperV.TooManyNeverFinish` | kheaders/include/asm-generic/mshyperv.h:105-111 | a count of 2^12 or more is never reached, so such a call never returns success |
| `HyperV.NoProgressNoEnd` | kheaders/include/asm-generic/mshyperv.h:100-111 | without progress the loop goes on for ever |
| `VpSets.VpSet.FromCpuMask` | kheaders/include/asm-generic/mshyperv.h:185-216 | 0 if the banks cannot cover all numbers, -1 exactly if an unskipped processor has none, otherwise 1 + the highest used bank, a mask of that many ones, and banks that decode to exactly the wanted numbers |
| `VpSets.WantedMeaning` | kheaders/include/asm-generic/mshyperv.h:200-210 | a number is wanted if and only if some processor in the mask has it whom the given function, if any, does not skip |
| `VpSets.VpSet.FillBanks` | kheaders/include/asm-generic/mshyperv.h:200-213 | the loop stops at -1 exactly if an unskipped processor has no number, and otherwise fills the banks with exactly the wanted numbers |
| `VpSets.VpSet.AddVp` | kheaders/include/asm-generic/mshyperv.h:207-210 | adds one number to the set the banks hold |
| `VpSets.VpSet.ClearBanks` | kheaders/include/asm-generic/mshyperv.h:197-198 | leaves the banks holding the empty set |
| `VpSets.OnesTest` | kheaders/include/asm-generic/mshyperv.h:214 | a number of k ones has bits 0 to k-1 set and no other |
| `VpSets.SetBitTests` | kheaders/include/asm-generic/mshyperv.h:209-210 | setting a bit sets that bit and no other |
| `VpSets.LowMaskIsOnes` | kheaders/include/asm-generic/mshyperv.h:214 | the mask of valid banks is the low ones |
| `TlbGather.RunKeepsInv` | kheaders/include/asm-generic/tlb.h:146-223 | in every run of removals of any size, table frees and flushes the pending range is the hull of the pending starts and recorded ends, and a level flag is up exactly when such a removal is pending |
| `TlbGather.FlushReachesExactly` | kheaders/include/asm-generic/tlb.h:214-223 | after any run of removals of any size the flush leaves nothing pending, and reaches a pending removal if and only if the whole address space goes, a full flush was requested, or some pending removal's recorded end is not before its end |
| `TlbGather.FlushNoWider` | kheaders/include/asm-generic/tlb.h:187-223 | it issues at most one flush, none if nothing is pending, and a ranged one starts at a pending start (or the end of the address space) and ends at a pending recorded end |
| `TlbGather.FlushCarriesArea` | kheaders/include/asm-generic/tlb.h:187-199 | a ranged flush is marked executable exactly if the area last started is, and likewise huge |
| `TlbGather.AreaEnds` | kheaders/include/asm-generic/tlb.h:299-309 | the end of an area flushes exactly if the area last started maps page frames or areas are not merged, and the address space stays |
| `TlbGather.RequestsOfRun` | kheaders/include/asm-generic/tlb.h:187-201 | everything is to be flushed exactly if the caller asked for it |
| `TlbGather.FlushReachesAllPending` | kheaders/include/asm-generic/tlb.h:214-223 | if every removal was below 4 GiB the flush reaches every pending one |
| `TlbGather.Teardown.Step` | kheaders/include/asm-generic/tlb.h:146-309 | one call of a method of the gather is one step of the state machine |
| `TlbGather.Teardown.Perform` | kheaders/include/asm-generic/tlb.h:146-309 | so a run on the gather ends where the state machine does |
| `TlbGather.UnmapShiftIsSmallest` | kheaders/include/asm-generic/tlb.h:268-280 | the unmap shift is the smallest pending level |
| `TlbGather.RecordedExactlyBelow4G` | kheaders/include/asm-generic/tlb.h:146-152 | one call records its range if and only if the size is below 2^32 or the pending range ends late enough |
| `TlbGather.HugeEntryIsNotFlushed` | kheaders/include/asm-generic/tlb.h:146-152 | a 16 GiB entry in an empty gather leaves no flush |
| `TlbGather.GranuleWithinHugeEntry` | kheaders/include/asm-generic/tlb.h:367-379 | the unmap granule after recording a huge entry never exceeds that entry |
| `TlbGather.LevelIsLargest` | kheaders/include/asm-generic/tlb.h:367-379 | the level of a huge entry is the largest whose entries are no larger |
| `TlbGather.FreedTableFlags` | kheaders/include/asm-generic/tlb.h:405-439 | which flag each kind of freed table raises |
| `TlbGather.MmuGather.FreeTable` | kheaders/include/asm-generic/tlb.h:405-439 | freeing a table pends a page one level up, except at the top level, and marks tables freed |
| `TlbGather.MmuGather.FlushTlbOnly` | kheaders/include/asm-generic/tlb.h:187-223 | what is flushed and the state left behind |
| `TlbGather.MmuGather.EndVma` | kheaders/include/asm-generic/tlb.h:299-309 | flushes exactly when ranges may not be merged with the next area |
| `TlbGather.MmuGather.FlushLevelRange` | kheaders/include/asm-generic/tlb.h:312-338 | widens the range by the truncated size and sets the flag of the level |
| `TlbGather.MmuGather.RemoveHuge` | kheaders/include/asm-generic/tlb.h:367-379 | records a huge entry at the level its size belongs to |
| `TlbGather.MmuGather.ResetRange` | kheaders/include/asm-generic/tlb.h:154-170 | an empty range and no flags, or the whole space for a full teardown |
| `TlbGather.MmuGather.StartVma` | kheaders/include/asm-generic/tlb.h:288-297 | takes over the flags of the area unless everything is torn down |
| `TlbGather.MmuGather.Flush` | kheaders/include/asm-generic/tlb.h:187-201 | which flush is issued |
| `TlbGather.StepKeepsInv` | kheaders/include/asm-generic/tlb.h:146-223 | each operation keeps the invariant |
| `Mmiowb.SafeExactlyBelow65536` | kheaders/include/asm-generic/mmiowb.h:21-45 | every unlock leaves all I/O writes ordered, in every balanced run, if and only if fewer than 2^16 locks can nest |
| `Mmiowb.UnlockOrdersWrites` | kheaders/include/asm-generic/mmiowb.h:35-45 | an unlock orders all writes made under locks and issues a barrier only if one was not ordered |
| `Mmiowb.WriteAtDepth` | kheaders/include/asm-generic/mmiowb.h:21-45 | a write under n locks is ordered exactly when n is no multiple of 2^16 |
| `Mmiowb.RunKeepsInv` | kheaders/include/asm-generic/mmiowb.h:21-45 | below 2^16 the counter is the depth and a barrier is pending exactly when a write needs one |
| `Mmiowb.Processor.Step` | kheaders/include/asm-generic/mmiowb.h:21-45 | one call of the code is one step of the state machine, a write being ordered by the barrier the code issues |
| `Mmiowb.MmiowbState.SetPending` | kheaders/include/asm-generic/mmiowb.h:21-27 | notes a write made under a lock |
| `Mmiowb.MmiowbState.SpinUnlock` | kheaders/include/asm-generic/mmiowb.h:35-45 | issues a barrier exactly when one is pending |
| `Scatterwalk.Walk.Read` | kheaders/include/crypto/scatterwalk.h:22-85 | clamp, advance and done deliver exactly the next bytes of the list in order, across entries of any length |
| `Scatterwalk.Walk.PageLen` | kheaders/include/crypto/scatterwalk.h:22-27 | a chunk is the smaller of what is left of the entry and of the page, so it stays within one page and is empty only at the end of the entry |
| `Scatterwalk.Walk.Done` | kheaders/include/crypto/scatterwalk.h:79-85 | its test never hides a move to the next entry that pagedone would make |
| `Scatterwalk.Walk.PageDone` | kheaders/include/crypto/scatterwalk.h:65-77 | moves to the next entry exactly at the end of this one and when more follows |
| `Scatterwalk.Walk.Advance` | kheaders/include/crypto/scatterwalk.h:36-40 | drops the bytes used from what is ahead |
| `Scatterwalk.Walk.ReadChunk` | kheaders/include/crypto/scatterwalk.h:22-85 | one turn delivers a prefix of what is ahead and makes progress |
| `Scatterwalk.RestOfPage` | kheaders/include/crypto/scatterwalk.h:25 | offset_in_page(~offset) + 1 is what is left of the page |
| `Probes.ProbeTable.Init` | src/K100PM_CHG_RUNTIME.c:637-666 | for every pattern of verdicts: a failed load returns the first error with nothing registered, a successful one has all probes registered, an unarmed one none |
| `Probes.ProbeTable.Exit` | src/K100PM_CHG_RUNTIME.c:668-676 | unregisters each registered probe, last first |
| `Probes.EachProbeOnce` | src/K100PM_CHG_RUNTIME.c:637-676 | over load and unload every registered probe is unregistered exactly once and no other is |
| `Probes.LoadAndUnload` | src/K100PM_CHG_RUNTIME.c:637-676 | running load and then, if it succeeded, unload: the log is that of a life, each probe before the first refused one is registered and unregistered once, and no other is |
| `Probes.RollbackAt` | src/K100PM_CHG_RUNTIME.c:655-656 | unregistration goes in reverse order |
| `Probes.ProbeTable.UnregisterAll` | src/K100PM_CHG_RUNTIME.c:670-671 | keeps the counted probes exactly the registered ones at each step |
| `Probes.ProbeTable.Register` | src/K100PM_CHG_RUNTIME.c:651-659 | likewise for a registration |
| `Charging.ChargeModule.FastCurveEntry` | src/K100PM_CHG_RUNTIME.c:330-350 | rewrites the register to its target and bumps one counter, exactly when they differ |
| `Charging.ChargeModule.DivEntry` | src/K100PM_CHG_RUNTIME.c:352-416 | the same for the six divider voters |
| `Charging.ChargeModule.CurrMaxEntry` | src/K100PM_CHG_RUNTIME.c:418-443 | the same for the current cap |
| `Charging.ChargeModule.IchgEntry` | src/K100PM_CHG_RUNTIME.c:294-310 | the same for the buck current, in the other register |
| `Charging.ChargeModule.CvEntry` | src/K100PM_CHG_RUNTIME.c:312-328 | the same for the voltage |
| `Charging.ChargeModule.ThermalEntry` | src/K100PM_CHG_RUNTIME.c:445-461 | the same for the thermal voter |
| `Charging.ChargeModule.TemperatureReturn` | src/K100PM_CHG_RUNTIME.c:472-494 | keeps the raw reading and clamps what the caller sees |
| `Charging.ChargeModule.ApplyCutoff` | src/K100PM_CHG_RUNTIME.c:502-534 | replaces valid thresholds that differ from the configured ones, and no others |
| `Charging.VendorBandUntouched` | src/K100PM_CHG_RUNTIME.c:80-91 | the top band is exactly the readings of at least 580 and the negative ones, and in it no charge register is rewritten |
| `Charging.CutoffIsIdempotent` | src/K100PM_CHG_RUNTIME.c:496-534 | applying the cutoff twice is applying it once, even for configured values that are not valid |
| `Charging.CoolBandsAlike` | README.md:33-37 | the code has one set of targets for all readings below 550, so none of its own for 180 to 229 or 480 to 549 |
| `Charging.ClampIsMinimum` | src/K100PM_CHG_RUNTIME.c:482-489 | with the clamp on the caller sees the smaller of the reading and the ceiling as an int, otherwise the reading |
| `Charging.CutoffExactly` | src/K100PM_CHG_RUNTIME.c:496-534 | thresholds are replaced exactly if the cutoff is on and all three are between 2500 and 3300 |
| `Charging.TablesListed` | src/K100PM_CHG_RUNTIME.c:93-292 | the values of the two long tables |
| `Charging.CoolTargets` | src/K100PM_CHG_RUNTIME.c:148-461 | below 550: which values each hook replaces and by what, all others being kept |
| `Charging.CurveKeepsOrder` | src/K100PM_CHG_RUNTIME.c:191-221 | boost raises every step of the fast-charging curve and keeps them in order |
| `Charging.DocumentedTableExactly` | README.md:35-39 | for each row and column of the documented table exactly which values of which hook end where it says |
| `Charging.DocumentedTableFails` | README.md:35-38 | for each of those rows an input that ends elsewhere at every reading of the row, with everything switched on |
| `ChargingRuns.RawIsSensorUnlessLowered` | src/K100PM_CHG_RUNTIME.c:472-494 | in every run, after a getter of a cell the reading the hooks go by is what the gauge last stored there if and only if no getter of that cell has clamped it since; otherwise it is no higher |
| `ChargingRuns.TwoGettersHideHeat` | src/K100PM_CHG_RUNTIME.c:472-494 | a run with two getters of one cell after which 60 degrees count as 36 and a charge current is raised |
| `ChargingRuns.CellOfRun` | src/K100PM_CHG_RUNTIME.c:482-489 | in every run a cell holds what the gauge last stored or, exactly if a getter clamped that since, less |
| `ChargingRuns.WritesAllowed` | src/K100PM_CHG_RUNTIME.c:80-461 | in every run each parameter replaced obeys the band of the reading gone by: none from 580 on or below 0, 4140 or 4120 from 550 on, and below that a higher value of at most 22000 |
| `ChargingRuns.WritesObeyGauge` | src/K100PM_CHG_RUNTIME.c:80-494 | after a getter of an unclamped cell all parameters replaced obey the band of the gauge's own reading |
| `ChargingRuns.VendorBandStopsCharging` | src/K100PM_CHG_RUNTIME.c:80-494 | while getters only return unclamped readings of the top band, no parameter is replaced and no charge counter moves |
| `ChargingRuns.CountersCountWrites` | src/K100PM_CHG_RUNTIME.c:74-534 | in every run the counters (the two for currents together) grow by exactly the number of values replaced, modulo 2^32 |
| `ChargingRuns.PpsCounter` | src/K100PM_CHG_RUNTIME.c:342-437 | which of the two current counters a replaced current is counted on |
| `ChargingRuns.Device.Pass` | src/K100PM_CHG_RUNTIME.c:294-461 | a hook called on a register file leaves its target in the low half of its register |
| `ChargingRuns.Device.Step` | src/K100PM_CHG_RUNTIME.c:294-555 | one call of a hook is one step of the run |
| `ChargingRuns.Device.Perform` | src/K100PM_CHG_RUNTIME.c:294-555 | so a list of calls ends where the run does |

## Left out

- Barriers, prefetches, preemption and interrupt masking: memory is sequentially consistent and a step is one atomic access.
- The slow paths of the reader/writer lock, the hash block functions, `crypto_inc`, `skcipher_walk_*` and `hv_do_hypercall` are not part of this model; they are parameters or contracts.
- The 64-bit branch of `do_div` and the declared `__div64_32`: plain division, taken as a contract.
- The non-SMP forms of the atomic operations, which disable interrupts around one statement.
- The 256-entry tables of ARIA: the four substitutions are parameters, with the visible pattern of zero bytes.
- `gf128mul` multiplication tables and `gf128mul_lle`, which the header only declares.
- The 32-bit forms of the zero-byte search, except the byte count.
- Parameter writes and other hooks in the middle of one hook: each hook is one step of a run, parameters may be written between steps.
- Logging, the kretprobe mechanism, module parameters as files, packaging and build scripts.
- Page-size changes, page batching and rmap flushes of the gather; `flush_cache_range`.
- ACPI, DRM, EDID and Hyper-V message layouts, crypto request accessors: declarations without algorithms.
- CtrMode.EncryptWalk: every chunk but the last has at least one block; a shorter one would advance the IV without output, and the walk never yields it. A failing walk leaves no bytes to handle and has stored the chunks before.
- XorBlocks.Xor8Regs: sources are values, so the destination does not alias them, as `__restrict` demands; at least one line, as with no line the C body would still run once.
- Sha256Base.Context.Update: `partial + len` stays below 2^32, the condition of Sha256Base.FullBlockTestIsRight; past it the C code would copy beyond its buffer. Addresses themselves do not wrap.
- AriaKeys.Gsrk: amounts that are multiples of 32, for which C does not define the shift by 32.
- Digests.Finish256: the digest size is a whole number of words, as for every hash that uses it; otherwise the C loop would not end.
- VpSets.VpSet.FromCpuMask: on -1 the banks hold part of the set, about which nothing is promised.
- Probes.ProbeTable.Init: `maxactive` and the log messages.
