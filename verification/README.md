# Verified model of the rk322x NAND stack

The repository brings mainline Linux to an RK3229 box whose NAND flash is driven by a
closed flash translation layer (FTL). Around that FTL it has a block driver, a read-only
FTL of its own, a netconsole port and a set of Python tools that build boot images and
rebuild the logical image of the flash. This project models the parts of it that carry
real obligations and proves what they promise.

| file | models |
|---|---|
| `RequestQueue.dfy` | the request list of the block driver, its spinlock and the contexts that work on it, as a step machine |
| `FtlMutex.dfy` | the mutex in front of the FTL: request contexts, garbage collection, flushes, suspend/resume and module exit, interleaved |
| `Provision.dfy`, `ProvisionLog.dfy` | the provisioning thread, with arbitrary answers of the FTL: what it may do, and what it must have done |
| `Teardown.dfy` | unregister and shutdown, interleaved with provisioning and the GC thread |
| `BlkTransfer.dfy` | one request between its segments and the FTL, directly or through the bounce buffer |
| `Crc.dfy`, `CrcNumbers.dfy` | the Rockchip CRC-32 in its bitwise and its table-driven form, on bits and on 32-bit numbers |
| `RkParam.dfy` | the parameter block: text format, build, inspect |
| `Rc4.dfy`, `Rc4Key.dfy` | RC4, what its key schedule does with a key, and a way to check a claimed schedule |
| `IdBlock.dfy`, `IdKey.dfy` | the idblock header built and inspected with RC4, and the key stream of the tool's own key |
| `LoaderUpload.dfy` | the chunked upload of an idblock to the kernel |
| `L2pScan.dfy`, `L2pImage.dfy` | the newest-wins scan of the page metadata, the map file and the extracted image |
| `RkFtl.dfy` | the read-only FTL: address decode, two-level map, one-page cache |
| `Netconsole.dfy` | fragmentation of extended console messages, and a receiver |
| `Bits.dfy`, `Bytes.dfy`, `Buffers.dfy`, `Wrappers.dfy` | bit strings, little-endian packing, writing into buffers, Option and Result |
| `Runs.dfy` | runs of a step machine, their invariants and their length |

`dafny verify dfyconfig.toml` checks everything.

Main results:

- In every interleaving of request contexts each request is in exactly one place, requests
  start in order of arrival, nothing is left behind when the contexts have returned, and
  the queue drains within a computed number of steps (`FtlMutex.EveryRunConserves`,
  `FtlMutex.NeverStuck`, `FtlMutex.DrainBound`). Whenever the device is awake a request
  handed in can be completed (`FtlMutex.RequestCompletes`).
- The FTL mutex excludes all its users, the whole suspended span included, in every
  interleaving in which it was never released unheld (`FtlMutex.Exclusive`,
  `FtlMutex.SuspendedSpan`). It can only be if a resume finds the initialised flag set where
  its suspend found it clear (`FtlMutex.NoBadUnlock`), and then exclusion can fail
  (`FtlMutex.ExclusionLost`). A resume is clean exactly when the flag is what the suspend saw
  (`FtlMutex.ResumeCleanIff`, `FtlMutex.FlagChangeBreaksResume`).
- A low-level format is always preceded by what it needs, no FTL user comes up before a
  capacity was seen, and unregister, entered at any point of provisioning, ends on every way
  on and releases everything once (`Teardown.ProvisioningOrdered`,
  `Teardown.UnregisterReleasesAll`, `Teardown.UnregisterInevitable`).
- A provisioning thread that ended without being told to stop left nothing out: it formatted
  what stayed blank, tried the disk if there was a capacity, and with the disk every other
  user (`Teardown.ProvisioningThorough`).
- Any corruption confined to 32 consecutive bits changes the CRC; in any 33 consecutive bits
  of any message some change does not (`Crc.BurstDetected`, `Crc.ThirtyThreeBitsCanPass`).
  The parameter inspector therefore rejects the former (`RkParam.CorruptionRejected`). On
  every text the CRC is the number that the tools' integer arithmetic gives
  (`CrcNumbers.CrcIsNumber`).
- The parameter text determines its partition list among all lists whose names have no entry
  inside them; among lists with any names it does so exactly for the empty list and for one
  partition of that kind (`RkParam.BuildTextInjective`, `RkParam.UniqueIff`).
- The RC4 schedule depends on every byte of the repeated key (`Rc4Key.ScheduleReadsKey`). The
  tool's key turns the idblock's magic into the word that the upload tool asks for, so
  everything that is built is accepted, and stored by the kernel exactly up to 253456 bytes
  (`IdKey.FirstWord`, `LoaderUpload.BuiltThenUploaded`).
- The direct and the bounce path of a transfer are the same operation, for segments that may
  share memory; they hold what was read exactly when it agrees at shared addresses
  (`BlkTransfer.DoRequest`, `BlkTransfer.GatherScatterIff`).
- The one-page cache is invisible exactly on media whose failed reads are harmless
  (`RkFtl.CacheInvisibleIff`).
- The scan keeps the newest page whatever the order inside a version window; in general its
  result is independent of the order exactly when one version is unbeaten; and on the 8 GiB
  default it maps only the upper half of the device (`L2pScan.NewestWins`,
  `L2pScan.OrderDoesNotMatter`, `L2pScan.OrderFreeIff`, `L2pScan.UpperHalfOnly`).
- Datagrams of a split console message, in any order and with repetitions, give the body
  back (`Netconsole.MessageReassembles`), and all of them can be decoded exactly when every
  field sent is complete (`Netconsole.DecodesIffFieldsFit`).

Where the code falls short of what one would expect of it, the code is modelled as it is:

- `rknand_dev_exit` clears the initialised flag before it calls `nand_blk_unregister`, which
  then returns at once (`Teardown.DevExitReleasesNothing`). The results about teardown are
  about `nand_blk_unregister` entered with the flag set.
- `write_loader` accepts images up to 256000 bytes; the documented offset cap of the kernel
  handler admits exactly those up to 253456 (`LoaderUpload.UploadSucceedsIff`).
- A console message of exactly 1000 bytes with a release loses its last character
  (`Netconsole.SingleExactIff`). A message that has to be split and has no ';' among the
  bytes that fit behind the release makes the header copy leave its buffer
  (`Netconsole.OverrunIff`).
- On the 8 GiB default `l2p-extract.py` writes the data of one page for the metadata of
  another (`L2pImage.WrongHalfExtracted`).
- A refused read through the bounce buffer still copies the buffer's old contents to the
  request (`BlkTransfer.DoRequest`).
- `docs/rknand-re/ftl-l2p-algorithm.md` line 28 says that pages with version 0xFFFFFFFF are
  to be skipped. `tools/l2p-scan.py` does not skip them, and neither does `L2pScan`. The two
  maps agree at a logical page exactly when its newest version is another one
  (`L2pScan.DocumentedIff`, `L2pScan.ErasedVersionTaken`).

## Model

| member | source | states |
|---|---|---|
| RequestQueue.LockKept | drivers/nand-rk322x/rknand-port/rk_nand_blk.c:306-356 | every step keeps: queue_lock is held exactly by the context that looks at rq_list, and by at most one |
| RequestQueue.FifoKept | drivers/nand-rk322x/rknand-port/rk_nand_blk.c:291-304 | every step keeps: the started requests followed by the listed ones are the arrivals in order, none twice |
| RequestQueue.HandKept | drivers/nand-rk322x/rknand-port/rk_nand_blk.c:306-332 | every step keeps: a started request is completed once or in the hands of the one context that took it |
| RequestQueue.AttendedKept | drivers/nand-rk322x/rknand-port/rk_nand_blk.c:306-356 | every step keeps: as long as a request is listed, the context that appended it is still in the loop and will look again |
| RequestQueue.ArrivedKept | drivers/nand-rk322x/rknand-port/rk_nand_blk.c:345-349 | every step keeps: a request handed in is appended, or its context is about to append it |
| RequestQueue.Kept | drivers/nand-rk322x/rknand-port/rk_nand_blk.c:291-356 | the five invariants together survive every step of every context |
| RequestQueue.Conservation | drivers/nand-rk322x/rknand-port/rk_nand_blk.c:291-356 | each arrived request is on the list, held by exactly one context, or completed, and never in two of these |
| RequestQueue.Quiescent | drivers/nand-rk322x/rknand-port/rk_nand_blk.c:312-349 | when no context is in the loop the list is empty and the completed requests are exactly the arrived ones |
| RequestQueue.AllReturned | drivers/nand-rk322x/rknand-port/rk_nand_blk.c:312-349 | when all contexts have returned, every request ever handed in is completed |
| RequestQueue.CanMove | drivers/nand-rk322x/rknand-port/rk_nand_blk.c:306-356 | while a context is inside, some context has an enabled step; the spinlock cannot deadlock |
| RequestQueue.WorkDecreases | drivers/nand-rk322x/rknand-port/rk_nand_blk.c:306-356 | every step except a new arrival lowers a bound on the remaining steps, so the loop cannot run for ever without arrivals |
| FtlMutex.OneMoves | drivers/nand-rk322x/rknand-port/rk_nand_blk.c:131-151 | a step of one context that takes, keeps or releases the mutex consistently keeps the correspondence between holding it and being inside |
| FtlMutex.WorkerSafe | drivers/nand-rk322x/rknand-port/rk_nand_blk.c:319-330 | every step of a request context keeps the queue invariant, the mutex invariant and the power invariant |
| FtlMutex.GcSafe | drivers/nand-rk322x/rknand-port/rk_nand_blk.c:362-418 | so does every step of the GC thread: try-lock, round, cache write-back, wait |
| FtlMutex.FlushSafe | drivers/nand-rk322x/rknand-port/rk_nand_blk.c:916-924 | so does every step of any number of flushes |
| FtlMutex.PmSafe | drivers/nand-rk322x/rknand-port/rk_nand_base.c:429-478 | so does every step of the four suspend and resume entry points |
| FtlMutex.ModuleSafe | drivers/nand-rk322x/rknand-port/rk_nand_blk.c:948-961 | so do the flag changes of module init and exit and the write-back at exit |
| FtlMutex.RunSafe | drivers/nand-rk322x/rknand-port/rk_nand_blk.c:306-418 | the invariants hold after every finite interleaving |
| FtlMutex.NoBadUnlock | drivers/nand-rk322x/rknand-port/rk_nand_blk.c:967-985 | in every run in which no resume found the flag set where its suspend found it clear, no unheld mutex was ever released |
| FtlMutex.Exclusive | drivers/nand-rk322x/rknand-port/rk_nand_blk.c:319-404 | in every run without such a release at most one of transfer, GC round, write-back, flush, exit and suspended span is going on, and it holds the mutex, whatever else the flag did |
| FtlMutex.SuspendedSpan | drivers/nand-rk322x/rknand-port/rk_nand_base.c:429-478 | in the same runs, from the lock of a suspend to its resume the mutex is held for it and no other context is inside |
| FtlMutex.ExclusionLost | drivers/nand-rk322x/rknand-port/rk_nand_blk.c:967-985 | a run with such a release ends with a GC round and a flush both inside the FTL |
| FtlMutex.LockOrder | drivers/nand-rk322x/rknand-port/rk_nand_blk.c:319-330 | in every run a context that waits for the mutex or holds it does not hold queue_lock |
| FtlMutex.EveryRunConserves | drivers/nand-rk322x/rknand-port/rk_nand_blk.c:291-356 | after every run: arrival order is start order; each request is listed, held by exactly the context that took it, or completed once, and in no two of these; and when no context is in the loop all are completed |
| FtlMutex.NeverStuck | drivers/nand-rk322x/rknand-port/rk_nand_blk.c:306-356 | in every reachable state with a request context inside and the device not suspended, a request context or the holder of the mutex can step |
| FtlMutex.GcQuits | drivers/nand-rk322x/rknand-port/rk_nand_blk.c:372-416 | in every run after the quit request the GC thread takes at most seven more steps, fewer from later points, and then is gone |
| FtlMutex.GcCanQuit | drivers/nand-rk322x/rknand-port/rk_nand_blk.c:372-416 | in every reachable state with the device not suspended it can take its next step, or the holder of the mutex it waits for can go on |
| FtlMutex.DrainBound | drivers/nand-rk322x/rknand-port/rk_nand_blk.c:306-356 | in every run without new arrivals the request contexts together take at most the computed number of steps, whatever the other contexts do |
| FtlMutex.Drains | drivers/nand-rk322x/rknand-port/rk_nand_blk.c:306-356 | from every state with the device awake the contexts inside can finish within the computed bound, with every request handed in completed |
| FtlMutex.RequestCompletes | drivers/nand-rk322x/rknand-port/rk_nand_blk.c:306-356 | after every run, with the device awake, a new request is taken in and some continuation completes it |
| FtlMutex.CollectorAtIdle | drivers/nand-rk322x/rknand-port/rk_nand_blk.c:345-412 | in every run: with all request contexts gone GC may work; each round tried is counted, with or without the mutex; the write-back is begun after the fifth counted round, again after the sixth, and not again |
| FtlMutex.CollectorYields | drivers/nand-rk322x/rknand-port/rk_nand_blk.c:345-380 | in every run from the arrival of a request until a context leaves, a GC thread that looks whether it may work goes to its wait |
| FtlMutex.UninitialisedDoesNothing | drivers/nand-rk322x/rknand-port/rk_nand_blk.c:916-985 | with the flag clear flush and exit are not entered, and suspend and resume leave the mutex alone |
| FtlMutex.TryLocksGoOn | drivers/nand-rk322x/rknand-port/rk_nand_blk.c:378-395 | GC and module exit never wait for the mutex where they try it |
| FtlMutex.ResumeCleanIff | drivers/nand-rk322x/rknand-port/rk_nand_blk.c:967-985 | a resume leaves the mutex released by its holder exactly when the initialised flag is what the suspend saw |
| FtlMutex.FlagChangeBreaksResume | drivers/nand-rk322x/rknand-port/rk_nand_blk.c:952-985 | two concrete runs: suspend before init makes the resume release an unheld mutex; exit while suspended leaves it locked after the resume |
| Provision.KnowsMeans | drivers/nand-rk322x/rknand-port/rk_nand_blk.c:619-657 | what the running summary says about a prefix really happened in it: reinit, then a zero capacity, a table loaded or made, a capacity seen, the disk up |
| Provision.LawfulIsOrdered | drivers/nand-rk322x/rknand-port/rk_nand_blk.c:619-732 | a trace allowed step by step satisfies the ordering stated on positions in the trace |
| Provision.PointAllowed | drivers/nand-rk322x/rknand-port/rk_nand_blk.c:606-732 | at each point, for every answer, the event of the step is allowed by what is known |
| Provision.PointStep | drivers/nand-rk322x/rknand-port/rk_nand_blk.c:606-732 | at each point, for every answer and stop flag, the step establishes what the next point needs to know |
| Provision.OrderStep | drivers/nand-rk322x/rknand-port/rk_nand_blk.c:598-746 | the ordering invariant survives every step and the stop flag turning on at any moment |
| Provision.ReadsStep | drivers/nand-rk322x/rknand-port/rk_nand_blk.c:606-669 | the bound on capacity reads survives every step |
| Provision.AtMostThirteenReads | drivers/nand-rk322x/rknand-port/rk_nand_blk.c:606-669 | the capacity is read at most 13 times |
| Provision.StepShortens | drivers/nand-rk322x/rknand-port/rk_nand_blk.c:663-745 | every step brings the thread closer to its end, so provisioning terminates once stopped |
| Provision.NeverWaits | drivers/nand-rk322x/rknand-port/rk_nand_blk.c:598-746 | the thread can always step, except after its end and while it idles without a stop |
| ProvisionLog.ReadStep | drivers/nand-rk322x/rknand-port/rk_nand_blk.c:606-669 | a step of an unstopped thread keeps: it has a capacity exactly if it read one, and reads on only without |
| ProvisionLog.FormatStep | drivers/nand-rk322x/rknand-port/rk_nand_blk.c:619-656 | keeps: a chip still blank after reinit gets its table loaded, made if loading failed, and the low-level format |
| ProvisionLog.UsersStep | drivers/nand-rk322x/rknand-port/rk_nand_blk.c:681-732 | keeps: a capacity leads to the disk, and the disk to /proc, storage, vendor storage and GC |
| ProvisionLog.ExactStep | drivers/nand-rk322x/rknand-port/rk_nand_blk.c:606-669 | keeps: without a capacity each read so far counts, and the thread goes on only after ten retries |
| ProvisionLog.DoneStep | drivers/nand-rk322x/rknand-port/rk_nand_blk.c:598-746 | the four together, stated on the trace, survive every step of a thread that is not told to stop |
| ProvisionLog.FinishedIsThorough | drivers/nand-rk322x/rknand-port/rk_nand_blk.c:598-746 | they mean, for a finished thread, the completeness stated on the events of its trace |
| Teardown.RegisteredSafe | drivers/nand-rk322x/rknand-port/rk_nand_blk.c:748-842 | what register leaves satisfies every invariant, with or without a provisioning thread |
| Teardown.ProvSafe | drivers/nand-rk322x/rknand-port/rk_nand_blk.c:598-746 | every provisioning step keeps them, also while unregister waits |
| Teardown.UnregSafe | drivers/nand-rk322x/rknand-port/rk_nand_blk.c:855-914 | every step of unregister keeps them: the joins passed, one wait per GC thread, each release once |
| Teardown.ShutSafe | drivers/nand-rk322x/rknand-port/rk_nand_blk.c:987-1002 | every step of shutdown keeps them |
| Teardown.RunSafe | drivers/nand-rk322x/rknand-port/rk_nand_blk.c:855-914 | they hold after every interleaving |
| Teardown.ProvisioningOrdered | drivers/nand-rk322x/rknand-port/rk_nand_blk.c:598-746 | in every run, for every answer and every moment of the stop: a low-level format follows a reinit with a zero capacity and a table loaded with 0 or made; disk, /proc, storage and GC follow a non-zero capacity, and all but the disk follow the disk; at most 13 reads |
| Teardown.ProvisioningThorough | drivers/nand-rk322x/rknand-port/rk_nand_blk.c:598-746 | in every run, a thread that finished without a stop has reinitialised a blank chip; loaded the table, made it if loading failed and formatted, if it stayed blank; tried the disk if any capacity was read; tried /proc, storage, vendor storage and GC exactly if the disk came up; and read 13 times if there was no capacity |
| Teardown.UnregisterReleasesAll | drivers/nand-rk322x/rknand-port/rk_nand_blk.c:855-914 | whenever unregister ends, both threads are gone, no device is left, each created resource was released once, and a started GC thread was awaited exactly once |
| Teardown.UnregisterNeverStuck | drivers/nand-rk322x/rknand-port/rk_nand_blk.c:869-887 | until it ends, it or a thread it waits for can make a real step, for every answer of the FTL |
| Teardown.FuelDecreases | drivers/nand-rk322x/rknand-port/rk_nand_blk.c:598-1002 | every step of any context that changes anything lowers one common bound |
| Teardown.UnregisterInevitable | drivers/nand-rk322x/rknand-port/rk_nand_blk.c:855-914 | every run from a point inside unregister has at most that many effective steps, and where no effective step is left unregister is done |
| Teardown.UnregisterCompletes | drivers/nand-rk322x/rknand-port/rk_nand_blk.c:855-914 | the unregistering context and the threads it waits for alone bring it to its end, for answers that may depend on the thread's whole past |
| Teardown.UnregisterEnters | drivers/nand-rk322x/rknand-port/rk_nand_blk.c:855-868 | with the flag set and no shutdown waiting a call of unregister is entered and can no longer be skipped |
| Teardown.UnregisterFromAnywhere | drivers/nand-rk322x/rknand-port/rk_nand_blk.c:855-914 | from every reachable point with the flag set, the call leads to its end with everything released, for answers that may depend on the past |
| Teardown.ShutdownStopsGc | drivers/nand-rk322x/rknand-port/rk_nand_blk.c:987-1002 | in every run from a shutdown with a running GC thread, shutdown has ended only if that thread has, awaited once |
| Teardown.DevExitReleasesNothing | drivers/nand-rk322x/rknand-port/rk_nand_blk.c:952-961 | in every run that contains rknand_dev_exit, from it on neither thread is told to stop or ends, nobody newly waits for the GC thread, and tag set, buffer, major, disk and /proc entry stay |
| BlkTransfer.CheckBufferAlign | drivers/nand-rk322x/rknand-port/rk_nand_blk.c:194-220 | the own buffer is used exactly when every page is mapped, no address is null and each segment begins where the one before ends; it is then the first address |
| BlkTransfer.DirectIsGather | drivers/nand-rk322x/rknand-port/rk_nand_blk.c:264-279 | reading a contiguous request's own range gives the segments' bytes in order, inside memory |
| BlkTransfer.DirectIsScatter | drivers/nand-rk322x/rknand-port/rk_nand_blk.c:244-258 | overwriting that range leaves the memory that dealing the data to the segments leaves |
| BlkTransfer.ScatterFrame | drivers/nand-rk322x/rknand-port/rk_nand_blk.c:248-258 | bytes outside every segment keep their values |
| BlkTransfer.GatherScatter | drivers/nand-rk322x/rknand-port/rk_nand_blk.c:244-279 | gathering from disjoint segments gives back what was scattered to them |
| BlkTransfer.GatherScatterIff | drivers/nand-rk322x/rknand-port/rk_nand_blk.c:244-279 | from any segments it does so exactly when any two bytes of the request with the same address get the same data |
| BlkTransfer.GatherInto | drivers/nand-rk322x/rknand-port/rk_nand_blk.c:268-277 | the copy loop leaves the concatenation of the segments in the bounce buffer |
| BlkTransfer.ScatterFrom | drivers/nand-rk322x/rknand-port/rk_nand_blk.c:248-258 | the copy loop leaves the memory with the buffer dealt out to the segments, and nothing else changed |
| BlkTransfer.DoRead | drivers/nand-rk322x/rknand-port/rk_nand_blk.c:244-263 | on either path the call, status and memory are the same; after a call the memory is that with the FTL's data dealt out, which the segments then hold exactly when it agrees at shared addresses; a refused bounce read deals out the old buffer |
| BlkTransfer.DoWrite | drivers/nand-rk322x/rknand-port/rk_nand_blk.c:264-284 | on either path the FTL gets exactly the concatenation of the segments; a refused write makes no call |
| BlkTransfer.DoRequest | drivers/nand-rk322x/rknand-port/rk_nand_blk.c:153-289 | for every operation and device state: which FTL call is made with which sectors and data, with the disable, read-only and write-only flags and the capacity written out, the status, and the memory afterwards |
| Crc.ShiftOnNumbers | tools/mk-rkparam.py:57-59 | the bit-string step is the masked shift on 32-bit numbers: same test, doubling modulo 2^32 |
| CrcNumbers.ShiftIsTurn | tools/mk-rkparam.py:57-59 | the whole step on numbers: doubled modulo 2^32, with 0x04C10DB7 added bit by bit exactly if the top bit was set |
| CrcNumbers.CrcIsNumber | tools/mk-rkparam.py:52-60 | on every text and initial value the CRC is the number that the integer loops give |
| CrcNumbers.CheckValue | tools/mk-rkparam.py:52-60 | the CRC of the one-byte text 01 is 0x04C10DB7 |
| Crc.ShiftInjective | tools/mk-rkparam.py:57-59 | one step loses nothing, because the polynomial is odd |
| Crc.BitwiseCrc32 | tools/mk-rkparam.py:52-60 | the nested loops compute the recursive CRC from register 0 |
| Crc.CrcTable | tools/rknand-write-loader.py:86-94 | the table has 256 entries, entry i being eight steps of i in the top octet |
| CrcNumbers.TableValues | tools/rknand-write-loader.py:84-94 | entries 1, 2 and 3 of the table are 04C10DB7, 09821B6E and 0D4316D9 |
| Crc.LookupIsAbsorb | tools/rknand-write-loader.py:96-99 | one table lookup equals eight bit steps, for every register and byte |
| Crc.TableCrc32 | tools/rknand-write-loader.py:96-99 | the table form equals the bitwise form on every byte string and initial value |
| Crc.Chains | tools/rknand-write-loader.py:96-99 | the CRC of a concatenation is the CRC of the second part started from that of the first |
| Crc.Linear | tools/mk-rkparam.py:52-60 | over equal lengths the CRC is linear over xor in data and initial value |
| Crc.CrcIsFeed | tools/mk-rkparam.py:52-60 | it is the same as feeding the message bit by bit, most significant bit first |
| Crc.BurstDetected | tools/mk-rkparam.py:52-60 | different messages of equal length that agree outside some 32 consecutive bits have different CRCs, from any initial value |
| Crc.FourByteWindowDetected | tools/mk-rkparam.py:52-60 | the same for a window of four bytes |
| Crc.ThirtyThreeBitsCanPass | tools/mk-rkparam.py:52-60 | 32 is the most: for every message, initial value and window of 33 bits there is a different message, equal outside the window, with the same CRC |
| RkParam.InspectImage | tools/mk-rkparam.py:91-105 | inspect decodes any image with a right length field, whatever follows, and accepts it exactly on tag and checksum |
| RkParam.AcceptsIffBlob | tools/mk-rkparam.py:91-105 | inspect accepts exactly the byte strings that start with a blob of some text, and the text it reports is that one |
| RkParam.BuildThenInspect | tools/mk-rkparam.py:83-105 | a block is built exactly when the text fits; it has exactly the padded size with zeros behind the checksum, and inspect recovers the exact text |
| RkParam.BlobLayout | tools/mk-rkparam.py:83-88 | a block is the letters PARM, the length, the text and its checksum, in this order |
| RkParam.CorruptionRejected | tools/mk-rkparam.py:91-105 | every change of an accepted image's text inside 32 consecutive bits is rejected |
| RkParam.HexBack | tools/mk-rkparam.py:64-67 | a number is recovered from its padded hexadecimal digits, at any width |
| RkParam.Hex8Reads | tools/mk-rkparam.py:64-67 | a number is written as 0x and at least eight lower case digits that have its value |
| RkParam.EntryReads | tools/mk-rkparam.py:64-67 | the digits in front of the @ have the value of the size and those behind it the value of the start; without a size there is a dash; then the name in parentheses |
| RkParam.TrustText | tools/mk-rkparam.py:64-67 | the entry of the default partition trust is 0x00002000@0x00004000(trust) |
| RkParam.EntriesInOrder | tools/mk-rkparam.py:63-80 | the entries stand in list order with commas between and a newline behind the last |
| RkParam.TextParts | tools/mk-rkparam.py:63-80 | the text is the fixed lines, the extra command line, mtdparts=rk29xxnand: and the list |
| RkParam.ExtraTold | tools/mk-rkparam.py:63-80 | the text determines the extra command line |
| RkParam.HeadInjective | tools/mk-rkparam.py:64-67 | what stands in front of a name determines size and start, whatever follows |
| RkParam.EntryInjective | tools/mk-rkparam.py:64-67 | two readings of the same entries agree in the first partition and in the rest, if neither name has the start of a further entry inside |
| RkParam.BuildTextInjective | tools/mk-rkparam.py:63-80 | over names without an entry inside, ')' allowed otherwise, the text determines the partition list, the "rest of device" form included |
| RkParam.EmbeddedReadsAsTwo | tools/mk-rkparam.py:63-80 | every name with an entry inside, for any start and size and anywhere in a list, reads as two partitions |
| RkParam.UniqueIff | tools/mk-rkparam.py:63-80 | among all lists with any names, a text has one reading exactly when the list is empty or one partition whose name has no entry inside |
| Rc4.ScheduleKey | tools/mk-idblock.py:66-70 | the in-place loop turns the identity into the key's full schedule |
| Rc4Key.ScheduleReadsKey | tools/mk-idblock.py:66-70 | for any two keys and any number of rounds, the positions gone to agree exactly when the repeated keys agree that far |
| Rc4Key.StillStream | tools/mk-idblock.py:64-78 | a 256-byte key whose schedule leaves the identity table, and its key stream, which begins 2, 5, 7 |
| Rc4Key.ScheduleIs | tools/mk-idblock.py:66-70 | for any key, a claimed schedule that is consistent round by round is the one the loop goes through |
| Rc4.NextByte | tools/mk-idblock.py:73-77 | one round advances the generator by one and adds its output to the byte |
| Rc4.Rc4 | tools/mk-idblock.py:64-78 | the two loops together compute the data with the key stream added position by position |
| Rc4.SchedulePermutes | tools/mk-idblock.py:66-70 | after any number of rounds of the key schedule s is a permutation of 0..255 |
| Rc4.GeneratorPermutes | tools/mk-idblock.py:72-77 | and it stays one through any amount of output |
| Rc4.GeneratorHasAll | tools/mk-idblock.py:72-77 | so every value from 0 to 255 is always somewhere in it |
| Rc4.CryptLaws | tools/mk-idblock.py:64-78 | for every non-empty key: length is kept, applying it twice is the identity, and a prefix enciphers to the prefix |
| Rc4.CryptBlocksInvolution | tools/mk-idblock.py:81-83 | block-wise RC4 is an involution at any length, a short last block included |
| Rc4.CryptBlocksSlice | tools/mk-idblock.py:81-83 | it commutes with slices that start at a multiple of 512 |
| IdBlock.BuildIdblock | tools/mk-idblock.py:109-123 | packing into a mutable header gives the idblock, or the error of the offending blob |
| IdBlock.HeaderFields | tools/mk-idblock.py:114-120 | the five fields stand at their offsets, none overwrites another, and every other byte is zero |
| IdBlock.PaddingIsZero | tools/mk-idblock.py:122-123 | bytes 512 to 2047 of every idblock are zero and in the clear |
| IdBlock.InspectBuilt | tools/mk-idblock.py:109-147 | an idblock is built exactly for blobs of whole blocks below 65536 in all; inspect recovers magic, flag, offset and both sizes, and these slice back exactly both blobs |
| Rc4.StreamTakesIff | tools/mk-idblock.py:73-78 | a text enciphers to another exactly when the key stream begins with their difference |
| IdBlock.FirstWordIsConstant | tools/mk-idblock.py:122-123 | the first four media bytes are the same for every idblock |
| IdKey.ToolStream | tools/mk-idblock.py:64-78 | the key stream of the tool's key begins 6E 26 2C F3 |
| IdKey.FirstWord | tools/mk-idblock.py:115-123 | the magic goes to the media as 3B 8C DC FC |
| LoaderUpload.WriteLoader | tools/rknand-write-loader.py:132-158 | which images are refused and why, and for the others the exact requests and commit |
| LoaderUpload.DecodeRequest | tools/rknand-write-loader.py:104-110 | offset and data are recovered from a request frame |
| LoaderUpload.RequestsTile | tools/rknand-write-loader.py:150-155 | the requests of any image follow each other without gap or overlap and their data joined is the image |
| LoaderUpload.UploadFrom | tools/rknand-write-loader.py:61-70 | from any chunk on, the kernel takes every request exactly when the image is at most 62 chunks, and then holds the image with what lay beyond untouched |
| LoaderUpload.UploadSucceedsIff | tools/rknand-write-loader.py:61-78 | all requests meet the documented caps exactly for images up to 253456 bytes; the buffer then holds the image and the commit passes its length and checksum test |
| LoaderUpload.EndFields | tools/rknand-write-loader.py:112-118 | the commit carries the length, the checksum and the first five block numbers in order, zero where none is given |
| LoaderUpload.EndAcceptedIff | tools/rknand-write-loader.py:72-78 | the documented commit test passes exactly when the length is at most 256000 and the checksum is that of so much of the buffer |
| LoaderUpload.BuiltImageAccepted | tools/rknand-write-loader.py:136-141 | the magic test accepts every built idblock |
| LoaderUpload.BuiltThenUploaded | tools/rknand-write-loader.py:132-158 | from build to commit: of the built idblocks up to 256000 bytes the kernel stores exactly those whose blobs are at most 251408 bytes together, holds them unchanged and accepts the commit |
| L2pScan.Scan | tools/l2p-scan.py:33-48 | the loop's map, data count and error count are those of folding the decoded pages in order |
| L2pScan.MetadataLayout | tools/l2p-scan.py:28-45 | a page is a data page exactly when metadata bytes 28 and 29 are 95 F0; its version is the word at byte 0, its logical page the word at byte 4 |
| L2pScan.DataArePages | tools/l2p-scan.py:33-44 | the data count is the number of data pages |
| L2pScan.FailedArePages | tools/l2p-scan.py:33-44 | the error count is the number of pages whose metadata could not be read |
| L2pScan.NewerIsTotal | tools/l2p-scan.py:31 | of two versions one is newer; both are exactly when equal or 2^31 apart |
| L2pScan.NewerInWindow | drivers/nand-rk322x/ftl/rk-ftl.h:55-58 | inside a window of 2^31 versions the comparison is the order of the unwrapped versions |
| L2pScan.NewestWins | tools/l2p-scan.py:33-48 | a logical page is mapped exactly when seen; the entry is the last scanned page among those with the greatest unwrapped version |
| L2pScan.OrderDoesNotMatter | tools/l2p-scan.py:33-48 | with distinct versions in a window, every order of the same pages gives the same entry |
| L2pScan.OrderFreeIff | tools/l2p-scan.py:31-48 | for arbitrary versions: every order of the same pages leaves the same entry if and only if some page of the logical page has a version that no other one beats |
| L2pScan.CycleDependsOnOrder | tools/l2p-scan.py:31-48 | without a window it does not: the same three pages in two orders leave different entries |
| L2pScan.DocumentedIff | docs/rknand-re/ftl-l2p-algorithm.md:28-30 | for versions in a window, the scan's map agrees with the documented one at a logical page exactly when it is not the case that one of its pages has version 0xFFFFFFFF and none a newer one |
| L2pScan.ErasedVersionTaken | docs/rknand-re/ftl-l2p-algorithm.md:28-30 | two pages for which the maps differ |
| L2pScan.OwnOffsetIff | tools/l2p-scan.py:14-35 | each page is read at its own offset exactly when there are at most 2^19 pages |
| L2pScan.PageCountCases | tools/l2p-scan.py:18-23 | for a size of at least 1 MiB the page count is the whole pages in it, below 2^19; for a smaller one it is the default of 2^20 |
| L2pScan.AliasesReplace | tools/l2p-scan.py:34-48 | after n pages no entry is older than 2^19 pages, and each is what its page's metadata says, whatever the versions |
| L2pScan.UpperHalfOnly | tools/l2p-scan.py:20-48 | on the 8 GiB default every mapped physical page is in the upper half |
| L2pImage.MapArray | tools/l2p-scan.py:54-61 | the array reaches to the greatest logical page and holds each mapped page and -1 elsewhere, for any order of the keys |
| L2pImage.FileRoundTrip | tools/l2p-extract.py:12 | loading the saved file gives the array back, negative entries included |
| L2pImage.FileLayout | tools/l2p-scan.py:60-62 | entry i stands at byte 4i of the file, negative ones in two's complement |
| L2pImage.Extract | tools/l2p-extract.py:13-24 | the image has exactly count pages; each is the padded data of its mapped page or zeros; the holes are counted; an index below the map is an error |
| L2pImage.PageLaws | tools/l2p-extract.py:16-24 | short reads are filled up with zeros behind the data; indices below zero count from the end of the map |
| L2pImage.HolesAreCounted | tools/l2p-extract.py:16-24 | the hole count is the number of logical pages without a mapping |
| L2pImage.ImageIsNewest | tools/l2p-extract.py:12-24 | through scan, file and extraction each logical page holds the data of the newest page scanned for it, and zeros if none was |
| L2pImage.WrongHalfExtracted | tools/l2p-extract.py:19-24 | on the 8 GiB default every extracted page is the data of a page w of the upper half, while the metadata naming the logical page stands at page w - 2^19 |
| RkFtl.LinearInjective | drivers/nand-rk322x/ftl/rk-ftl.c:109-126 | two addresses whose page fields exist reach the same page exactly when their low 26 bits agree |
| RkFtl.LinearInjectiveIff | drivers/nand-rk322x/ftl/rk-ftl.h:47-48 | over all 26-bit addresses the decode is injective exactly with at least 1024 pages per block |
| RkFtl.LinearOfFields | drivers/nand-rk322x/ftl/rk-ftl.h:47-48 | an address made of flags, block and page decodes to block times pages per block plus page, whatever the flags |
| RkFtl.RegionsCoverIff | drivers/nand-rk322x/ftl/rk-ftl.c:196 | the regions cover the capacity exactly up to 2^32-2048, where the rounding up wraps |
| RkFtl.Ftl.MapRecovery | drivers/nand-rk322x/ftl/rk-ftl.c:192-214 | one entry per region, all invalid |
| RkFtl.Ftl.ReadPage | drivers/nand-rk322x/ftl/rk-ftl.c:91-106 | success and buffer contents for each answer of the media, failed reads that overwrite any part of the buffer included |
| RkFtl.Ftl.ExpandL2p | drivers/nand-rk322x/ftl/rk-ftl.c:222-266 | for any region table and capacity the flat map equals the two-level lookup at every index, and the cache tag is reset |
| RkFtl.Ftl.CopyRegion | drivers/nand-rk322x/ftl/rk-ftl.c:254-261 | exactly the entries of one region are replaced by the map page's words |
| RkFtl.MapWordBack | drivers/nand-rk322x/ftl/rk-ftl.c:254-261 | reading entry i of a map page gives the word written there |
| RkFtl.Ftl.ReadSect | drivers/nand-rk322x/ftl/rk-ftl.c:335-367 | the method does what the cached read on values does: answer, cache, and no change of the caller's buffer on an error |
| RkFtl.SectorIsDevice | drivers/nand-rk322x/ftl/rk-ftl.c:335-367 | sector n is bytes 512n to 512n+511 of the logical device |
| RkFtl.CacheInvisible | drivers/nand-rk322x/ftl/rk-ftl.c:335-367 | on harmless media every sequence of reads answers what uncached reads answer |
| RkFtl.CacheVisible | drivers/nand-rk322x/ftl/rk-ftl.c:350-363 | on other media three reads reveal the cache: cache a page, fail on another, read the first again |
| RkFtl.CacheInvisibleIff | drivers/nand-rk322x/ftl/rk-ftl.c:335-367 | from the sentinel tag, the cache is invisible over all sequences exactly when no failed read of an admitted page changes a buffer that holds a readable one |
| RkFtl.BootedDeviceReadsZeros | drivers/nand-rk322x/ftl/rk-ftl.c:201-214 | as the boot steps stand every sector reads as zeros |
| Netconsole.Scnprintf | drivers/nand-rk322x/netcon-port/netconsole.c:874-876 | stores as much of the text as fits in front of a NUL, behind what was there |
| Netconsole.SendExtMsgUdp | drivers/nand-rk322x/netcon-port/netconsole.c:824-889 | the datagrams sent and whether it warned, or that the header copy leaves the buffer |
| Netconsole.WholeMessage | drivers/nand-rk322x/netcon-port/netconsole.c:835-849 | a message that fits goes out as release, comma and text in one datagram, the 1000th byte behind a release replaced; without a release as it is |
| Netconsole.WarnedIff | drivers/nand-rk322x/netcon-port/netconsole.c:852-888 | it warns exactly when nothing was sent of a message that has a body |
| Netconsole.OverrunIff | drivers/nand-rk322x/netcon-port/netconsole.c:852-868 | the header copy leaves the buffer exactly when the message is split and its first ';' is not among the bytes that fit behind the release |
| Netconsole.MakeFragment | drivers/nand-rk322x/netcon-port/netconsole.c:871-885 | one round: header, field as far as stored, and the largest chunk that fits, leaving the base header in place |
| Netconsole.SendFragments | drivers/nand-rk322x/netcon-port/netconsole.c:870-888 | the loop terminates, sends exactly the fragments, and warns exactly when the base header fills the buffer |
| Netconsole.RoomIff | drivers/nand-rk322x/netcon-port/netconsole.c:878-881 | a fragment has room for data exactly when the base header is shorter than the buffer, however long the field |
| Netconsole.ChunkIsLargest | drivers/nand-rk322x/netcon-port/netconsole.c:878-881 | a chunk is the largest that fits behind the header and is left of the body |
| Netconsole.OnlyLastIsShort | drivers/nand-rk322x/netcon-port/netconsole.c:870-888 | every datagram of a message but the last is 1000 bytes long |
| Netconsole.StartsWithHeader | drivers/nand-rk322x/netcon-port/netconsole.c:852-885 | every datagram of a split message starts with the base header |
| Netconsole.BaseHeaderText | drivers/nand-rk322x/netcon-port/netconsole.c:852-868 | which is the release, a comma and the message up to its first ';' |
| Netconsole.FieldText | drivers/nand-rk322x/netcon-port/netconsole.c:874-876 | the field of offset abc in def bytes is ,ncfrag=abc/def; letter by letter |
| Netconsole.HeaderCompleteIff | drivers/nand-rk322x/netcon-port/netconsole.c:874-876 | a field goes out complete exactly when it ends within the first 999 bytes |
| Netconsole.FragmentsBounded | drivers/nand-rk322x/netcon-port/netconsole.c:878-885 | no datagram is longer than the buffer |
| Netconsole.DecodeSent | drivers/nand-rk322x/netcon-port/netconsole.c:861-864 | a datagram with a complete header decodes to the offset, total and chunk sent, whatever the chunk contains |
| Netconsole.UnderstoodIff | drivers/nand-rk322x/netcon-port/netconsole.c:874-885 | a datagram with data decodes to what was sent exactly when its field ends within the first 999 bytes |
| Netconsole.FragmentsDecodeIff | drivers/nand-rk322x/netcon-port/netconsole.c:870-888 | any receiver decodes exactly the pieces, in order, if and only if it understands each of them |
| Netconsole.DecodesIffFieldsFit | drivers/nand-rk322x/netcon-port/netconsole.c:870-888 | all pieces of a message are decoded if and only if every field sent is complete |
| Netconsole.WidestFieldFits | drivers/nand-rk322x/netcon-port/netconsole.c:874-876 | one test on the widest possible field guarantees that |
| Netconsole.PiecesTile | drivers/nand-rk322x/netcon-port/netconsole.c:870-888 | each offset is the sum of the earlier chunk lengths and the chunks joined are the body |
| Netconsole.AnyOrderReassembles | drivers/nand-rk322x/netcon-port/netconsole.c:861-888 | a receiver that gets all datagrams in any order and multiplicity holds the body |
| Netconsole.MessageReassembles | drivers/nand-rk322x/netcon-port/netconsole.c:824-889 | the same for a whole message with or without a release, and no warning is raised |
| Netconsole.SingleExactIff | drivers/nand-rk322x/netcon-port/netconsole.c:840-849 | an unsplit message arrives intact exactly when it carries no release or stays below 1000 bytes with it |

## Left out

- The closed FTL (FtlRead, FtlWrite, FtlLowFormat and the others): its answers are parameters.
- FTL entries that do not take the mutex (drivers/nand-rk322x/rknand-port/rk_nand_blk.c lines 99, 606-656 and 707-709): no exclusion is claimed for them.
- rk_nand_queue_rq without queue data, partial completion in blk_update_request, and the transfer statistics.
- The GC thread's timing and return values: only its locking and its wait are modelled; each wait may take any number of steps.
- Shutdown and unregister running at the same time; failures inside nand_blk_register other than the provisioning thread not starting.
- rk_nand_base.c apart from the suspend and resume guards: probe, clocks, DMA mapping, interrupts.
- Allocation failures, and the sysblk, sysinfo and overlay stubs of the read-only FTL together with the map walk that is not written yet.
- BlkTransfer.DoRequest: requires the block layer's guarantees for reads and writes: at least one segment, whole sectors, at most 512 of them. Segments may share memory.
- Netconsole.SendExtMsgUdp: requires a message without NUL and a release of at most 64 bytes without NUL or ';', as printk and utsname give them; what happens after the header copy has left the buffer is not modelled.
- Teardown.UnregisterNeverStuck: the GC thread is taken to reach its next look at the quit flag; FtlMutex.GcQuits and FtlMutex.GcCanQuit show that it does unless the device stays suspended, and unregistering a suspended device is outside this model.
- Netconsole.MessageReassembles: is for messages whose every field sent fits; for the others DecodesIffFieldsFit says that some piece is not decoded, and nothing is claimed about the assembled bytes.
- The RC4 test vectors of RFC 6229; Rc4Key.StillStream and IdKey.ToolStream fix the cipher with other streams.
- LoaderUpload.WriteLoader: requires block numbers below 2^32, and does not model a failing ioctl in the middle of the upload.
- L2pScan.Scan: does not model the per-magic counts and the progress output; the device answers each offset always the same way.
- L2pImage.MapArray: entries are unbounded integers; that physical page numbers fit 32 bits is a condition of FileRoundTrip.
- RkParam: texts are the encoded bytes; negative starts and sizes are not modelled, and texts of 2^32 bytes or more are reported as too long.
- Crc: the register is a string of 32 bits; CrcNumbers.CrcIsNumber connects it with the numbers the tools use.
- parse_boot_container of mk-idblock.py: decoding of a container format, with no law to prove beside CryptBlocksInvolution.
- netpoll, configfs, symbol shims, diagnostics tools, overlays, patches, configuration and scripts: device glue.
- Argument parsing, printing and file access of the Python tools.
