# Verified models of six driver examples

This project models the parts of the driver examples that hold state machines or loops, and proves
properties of all their runs. Every driver is modelled twice: as methods that follow the C functions statement by
statement, on arrays and fields changed in place, and as a function on values that says what one step does. The
methods are proved to compute that function or, for the concurrent drivers, to be a path of its steps; the lemmas
are about all runs of it.

| files | driver | what is proved |
|---|---|---|
| `RamDisk`, `RamDiskProperties` | RAM block device, `day_13/ex30.c` | the request queue refines range updates and lookups on a byte sequence; scatter/gather, split/merge, round trip; exact conditions for the sector arithmetic and for retiring requests |
| `UserCopy` | the byte-wise copy shared by the three buffer drivers | step-wise progress of a copy, counting over calls, runs bounded by their work |
| `SharedBuffer` | semaphore-guarded buffer, `day_03/ex7.c` | linearizability of every interleaving, mutual exclusion, completion |
| `CompletionBuffer` | completion hand-off, `day_03/ex9.c` | conservation of signals, min(W, R) reads served, exactly when reads are whole |
| `FlagBuffer` | condition flag with poll, `day_05/ex13.c` | a set between any two clears, poll stability, exactly how many reads a run can serve |
| `CharStream` | positioned device, `day_11/ex27.c` | position conservation, last write decides each byte, chunking-independent round trip |
| `TinyPorts`, `TinyPortsProperties`, `TinyDriver` | tiny tty life cycle, `day_12/ex29.c` | timers follow open counts, character rate, shutdown frees everything once |
| `TinyModem` | modem bits and wait-for-change, `day_12/ex29.c` | last naming call decides RTS, first deciding wake-up ends the wait |

How the outside world is represented:

- Concurrent drivers are step systems. A run is any sequence of enabled steps of any finite set of calls, so every
  scheduler and every number of threads is covered. A thread that makes several calls appears as several calls, one
  made after the other has returned. `Enabled` asks for a well-formed state only so that `Next` is defined; `Next`
  promises one again, so no run is excluded. The same holds for `Ok` in `CharStream`.
- A method of such a driver is one call running alone. `down`, `up`, the completion, the flag and the copies are methods
  that change the driver's globals and append the step taken to a ghost trail; a read or write is proved to leave a
  trail that is a path of its own steps of the step system, up to its return, and to be one operation on the buffer.
- User copies go byte by byte and may stop early. A faulting `copy_from_user` may leave arbitrary bytes in the rest of
  its window. Timers, semaphores and completions are their counters and flags; a timer firing is one step.
- The block layer hands over requests with positions below the advertised capacity, lengths that are multiples of 512
  and equal the segment total, and segments inside host memory (`RamDisk.Submitted`). Host memory is one byte array and
  segments are address ranges in it, so buffers of different requests may overlap. `__blk_end_request(req, err, n)`
  retires the smaller of `n` and the remaining bytes.
- The result of each `kmalloc` in the tty driver is part of the event. Allocated objects are numbered.

Where the code differs from what its comments or interface suggest, the code is followed and the difference is stated:

- The byte count passed to `__blk_end_request` is a byte length shifted left by 9 again and wraps at 32 bits. Below 8 MiB
  that retires the whole request; an 8 MiB request is carried out and retires nothing (`WhollyRetiredIff`,
  `EightMegabytesRetireNothing`). Rejected and non-filesystem requests retire nothing at all. The 8 MiB case is a fact
  about this arithmetic alone: the driver leaves the queue's transfer limit at the block layer's default, far below that.
- The capacity is advertised in 512-byte sectors but checked against `nsectors`, so with `hardsect_size` of 1024 or more
  part of the advertised device is refused (`AdvertisedCapacityServedIff`).
- Both products formed from the module parameters are `int` products and wrap. `Geometry.Good` is the exact condition on
  positive parameters for submitted and accepted requests to stay inside the allocated bytes (`SubmittedStayInsideIff`):
  the advertised capacity is zero, or it is positive as an `int` and `nsectors` sectors of 512 bytes fit. It holds
  whenever `nsectors * hardsect_size` does not overflow; it fails for `nsectors` 4194305 with `hardsect_size` 1024.
- The sector check alone protects the allocated bytes only if `nsectors` sectors of 512 bytes fit in them
  (`CheckProtectsMemoryIff`). With `hardsect_size` below 512 and no overflow they do not, but this is a fact about the
  check alone: the advertised capacity is then 0, so the block layer submits no filesystem request at all.
- The positioned device returns `-ENOSPC`, not an end of file, at the end of the device and for zero lengths
  (`FullDeviceIff`).
- A first open whose timer allocation fails leaves the port counted as open without a timer; the invariant on timers
  holds exactly on runs without such a failure (`TimersFollowCountsIff`), and closes then lead to the use of the
  missing timer (`FailureLeadsToCrash`).
- The completion in `day_03/ex9.c` orders a read after some write but does not keep other writes out. Reads are whole on
  every run if and only if there are no two writes, one of them for more than one byte, together with a read for more
  than one byte. `ReadsAreWholeIff` says so for given calls and lets a fault leave any bytes in the rest of the window;
  its failing half uses that freedom. `FaultFreeReadsAreWholeIff` says the same of runs without faults, for all calls of
  given kinds and lengths; for given bytes `TornWithoutFaults` is a sufficient condition.
- A flag set in `day_05/ex13.c` between a read's copy and its clear is lost, so with W writes and R reads a run can serve
  any number of reads from one to min(W, R) (`ServedExactly`).
- `tiny_tiocmset` treats requests for DTR as requests for RTS (`DtrHonouredIff`).

## Model
| member | source | states |
|---|---|---|
| `RamDisk.ArithmeticIsExact` | day_13/ex30.c:59-73 | For a submitted request and good parameters the 32-bit check is the true one, and what passes it has its true byte offset and ends inside `Device.size`; if the product of the parameters does not overflow, no 32-bit step does |
| `RamDiskProperties.CheckProtectsMemoryIff` | day_13/ex30.c:64-117 | Passing the check keeps every nonempty transfer inside the allocated bytes if and only if `nsectors` sectors of 512 bytes fit in them, that is, without overflow of the product, if `hardsect_size` is at least 512 |
| `RamDiskProperties.SubmittedStayInsideIff` | day_13/ex30.c:64-146 | For all positive parameters for which memory can be had, every nonempty request submitted below the advertised capacity and accepted stays inside the allocated bytes if and only if the parameters are good |
| `RamDiskProperties.AdvertisedCapacityServedIff` | day_13/ex30.c:146 | Every nonempty submitted request within the advertised capacity is accepted if and only if the capacity does not exceed `nsectors`, that is, without overflow, if `hardsect_size` is below 1024 |
| `RamDisk.SbdInit` | day_13/ex30.c:117-123 | For all module parameters the set-up fails without memory for the wrapped product, or gives that many zero bytes; without overflow that is `nsectors * hardsect_size` |
| `RamDisk.SbdDevice.CopyBios` | day_13/ex30.c:73-89 | The nested walk over bios and segments, with `addr` advancing, is one transfer of the concatenated segments |
| `RamDisk.SbdDevice.DoActualReq` | day_13/ex30.c:51-92 | Disk and memory end as the byte-level meaning of the request says, and the request is handed back with its error code and retired count |
| `RamDisk.SbdDevice.SbdRequest` | day_13/ex30.c:94-111 | The drain loop terminates, empties the queue, leaves disk and memory as the fold of the request meanings over the queue, and hands every request back in order |
| `RamDiskProperties.ScatterGatherTransparent` | day_13/ex30.c:73-89 | An accepted write replaces exactly its byte range by the concatenated segments; an accepted read leaves the disk alone, makes the concatenated segments equal the range and touches no other memory |
| `RamDiskProperties.EverySegmentByte` | day_13/ex30.c:73-88 | Each byte of each segment of each bio, counted on from the segments before it, is the disk byte an accepted write stores and an accepted read fills |
| `RamDiskProperties.GatherOfScatter` | day_13/ex30.c:75-88 | Bytes scattered over disjoint segments are the bytes gathered back from them |
| `RamDiskProperties.WriteThenRead` | day_13/ex30.c:73-89 | A write followed by a read of the same sectors returns the same bytes through any two segmentations |
| `RamDiskProperties.SplitOrMerge` | day_13/ex30.c:64-89 | One accepted request and any adjacent sector-aligned requests over the same host bytes, however either is cut into bios and segments, have the same effect on disk and memory, for reads and writes |
| `RamDiskProperties.DisjointWritesCommute` | day_13/ex30.c:64-89 | Writes to disjoint sector ranges commute |
| `RamDiskProperties.LastWriterDecides` | day_13/ex30.c:94-111 | After any queue a disk byte is the one gathered for it by the last accepted write covering it |
| `RamDiskProperties.UnwrittenByteKept` | day_13/ex30.c:94-111 | After any queue a disk byte no accepted write covers is unchanged |
| `RamDiskProperties.ReadReturnsLastWritten` | day_13/ex30.c:82-108 | Each byte an accepted read returns anywhere in a queue is the one gathered by the last accepted write before it that covers the byte, or the initial byte if there is none |
| `RamDiskProperties.OnlyAcceptedCount` | day_13/ex30.c:102-108 | Rejected and non-filesystem requests can be struck from any queue without effect on disk and memory |
| `RamDiskProperties.WhollyRetiredIff` | day_13/ex30.c:64-91 | A request is wholly retired if and only if it is empty, or accepted with its sector count meeting the 14-bit condition left by the wrapped shift; below 8 MiB that is every accepted request, and any other retires zero bytes |
| `RamDiskProperties.HandedBack` | day_13/ex30.c:64-110 | Every request of a queue is handed back in order, with -EIO exactly when it was accepted and carries errors and 0 otherwise, and with exactly the bytes retired that the wrapped count covers, none if it was rejected or is not a filesystem request |
| `RamDiskProperties.EightMegabytesRetireNothing` | day_13/ex30.c:91 | An accepted request of exactly 8 MiB retires zero bytes |
| `RamDiskProperties.SmallDeviceServesAll` | day_13/ex30.c:22-24 | A device of the default kind, below 8 MiB with 512-byte sectors, accepts and wholly retires every request within its capacity |
| `UserCopy.WorkBoundsRuns` | day_03/ex7.c:33-60 | Runs whose every step moves one call on are no longer than the work there was at the start |
| `UserCopy.ProgressKept` | day_03/ex7.c:37-58 | Undisturbed steps of a copy, complete or cut short, keep the account of what has been copied, up to the effect of the whole call as one operation |
| `SharedBuffer.SampleCharDrv.SampleCharDrvRead` | day_03/ex7.c:33-45 | A read running alone, of up to min(count, 4000) bytes, returns that front of the buffer, gives the semaphore back, and leaves a trail that is a path of the specified steps |
| `SharedBuffer.SampleCharDrv.SampleCharDrvWrite` | day_03/ex7.c:46-60 | A write running alone replaces exactly the first min(count, 4000) bytes, by its data as far as copied, and likewise leaves such a trail |
| `SharedBuffer.SoloCall` | day_03/ex7.c:33-60 | The steps of one call alone, faulting or not, lead to the state in which it has acted as one operation |
| `SharedBuffer.Linearizable` | day_03/ex7.c:33-60 | Every interleaving of any number of byte-wise calls is a legal sequential history of an atomic buffer in semaphore order, containing each finished call exactly once with what it returned |
| `SharedBuffer.RealTimeOrder` | day_03/ex7.c:36-43 | A call that has returned before another is made precedes it in that history |
| `SharedBuffer.ReadsSeeWholeWrites` | day_03/ex7.c:42-57 | A finished read got a prefix of the buffer with exactly the earlier writes applied in full, unless one of them was cut short by a fault |
| `SharedBuffer.FaultFreeReads` | day_03/ex7.c:37-58 | On runs without faults every finished read got the first min(count, 4000) bytes of the buffer before it, every write put the first min(count, 4000) bytes of its data at the front and kept the rest, and the buffer between calls is what the writes made of it |
| `SharedBuffer.FaultFreeCount` | day_03/ex7.c:37-58 | A call that does not fault returns min(count, 4000), and a read has got that many bytes |
| `SharedBuffer.MutualExclusion` | day_03/ex7.c:36-57 | The semaphore value and the number of calls between `down` and `up` always add up to one |
| `SharedBuffer.SomeStepEnabled` | day_03/ex7.c:36-58 | No reachable state with an unfinished call is stuck |
| `SharedBuffer.RunsAreBounded` | day_03/ex7.c:33-60 | Every step uses up work, so schedules are bounded by the work of all calls |
| `SharedBuffer.MaximalRunsFinish` | day_03/ex7.c:33-60 | A run that cannot be extended has returned from every call |
| `CompletionBuffer.SampleCharDrv.SampleCharDrvRead` | day_03/ex9.c:35-46 | A read running alone consumes one signal, returns up to min(count, 4000) bytes of the front of the buffer, and leaves a trail that is a path of the specified steps |
| `CompletionBuffer.SampleCharDrv.SampleCharDrvWrite` | day_03/ex9.c:47-60 | A write running alone replaces exactly the first min(count, 4000) bytes, gives one signal after that, and likewise leaves such a trail |
| `CompletionBuffer.SoloCall` | day_03/ex9.c:35-60 | The steps of one call alone, faulting or not, lead to the state in which it has acted as one operation |
| `CompletionBuffer.TokensConserved` | day_03/ex9.c:38-57 | On every interleaving the completion counter is completed signals minus admitted reads and never negative |
| `CompletionBuffer.ReadsFollowASignal` | day_03/ex9.c:38-57 | A read past its wait implies a write that has copied and signalled |
| `CompletionBuffer.ReadsServed` | day_03/ex9.c:35-60 | When no step remains all writes have returned, exactly min(W, R) reads have, and the rest of the signals is left over |
| `CompletionBuffer.RunsAreBounded` | day_03/ex9.c:35-60 | Schedules are bounded by the work of all calls |
| `CompletionBuffer.FaultFreeCount` | day_03/ex9.c:39-58 | A call that does not fault returns min(count, 4000), and a read has got that many bytes |
| `CompletionBuffer.SingleWriteIsPublished` | day_03/ex9.c:38-58 | With one writer every returned read got a prefix of the buffer exactly as that write left it |
| `CompletionBuffer.FaultFreePublication` | day_03/ex9.c:38-58 | Without faults and with one writer the buffer is the first min(count, 4000) bytes of the data in front of the initial rest, and every returned read got its first min(count, 4000) bytes |
| `CompletionBuffer.QuietReadIsExact` | day_03/ex9.c:38-45 | With any number of writers, a read gets a prefix of the buffer it was admitted to as long as no write copies during it |
| `CompletionBuffer.ReadsAreWholeIff` | day_03/ex9.c:35-60 | In every run every returned read got the front of the buffer as it was at some moment of its copy, if and only if there are no two writes, one for more than one byte, together with a read for more than one byte |
| `CompletionBuffer.FaultFreeReadsAreWholeIff` | day_03/ex9.c:35-60 | The same equivalence for runs without faults, over all calls of given kinds and lengths and all initial buffers |
| `CompletionBuffer.RacingWritesTearARead` | day_03/ex9.c:35-60 | Any two such writes and such a read, among any other calls and from any buffer, have a run in which the read returns bytes that are the front of the buffer at no moment at all |
| `CompletionBuffer.TornWithoutFaults` | day_03/ex9.c:35-60 | They have such a run without any fault if the later write's second byte differs from both second bytes before it and its first byte from the one before it |
| `FlagBuffer.SampleCharDrv.SampleCharDrvRead` | day_05/ex13.c:39-52 | A read running alone returns up to min(count, 4000) bytes of the front of the buffer, leaves the flag down, and leaves a trail that is a path of the specified steps |
| `FlagBuffer.SampleCharDrv.SampleCharDrvWrite` | day_05/ex13.c:54-70 | A write running alone replaces exactly the first min(count, 4000) bytes, gives the semaphore back, leaves the flag up, and likewise leaves such a trail |
| `FlagBuffer.SoloCall` | day_05/ex13.c:39-70 | The steps of one call alone, faulting or not, lead to the state in which it has acted as one operation |
| `FlagBuffer.SampleCharDrv.SampleCharDrvPoll` | day_05/ex13.c:73-81 | Poll on the driver's globals gives the mask of the state they show, 0x41 while the flag is one and else 0 |
| `FlagBuffer.FaultFreeCount` | day_05/ex13.c:44-68 | A call that does not fault returns min(count, 4000), and a read has got that many bytes |
| `FlagBuffer.RunInv` | day_05/ex13.c:43-67 | On every run the flag follows the last assignment, a read past its wait keeps it set, and semaphore plus writers inside is one |
| `FlagBuffer.ClearsAreSeparated` | day_05/ex13.c:50-66 | Any two clears of the flag have a set between them, and every raise is cleared once or still standing |
| `FlagBuffer.ReadsNeverExceedWrites` | day_05/ex13.c:43-66 | At every moment completed reads, plus one while the flag is set, do not exceed the writes that have set it |
| `FlagBuffer.ReadableUntilCleared` | day_05/ex13.c:43-80 | Once poll reports readable it stays so until the next clear, and every read waiting before it can go on |
| `FlagBuffer.RunsEnd` | day_05/ex13.c:39-70 | When no step remains all writes have returned, between one and min(W, R) reads have, and reads are left over only with the flag down |
| `FlagBuffer.ServedExactly` | day_05/ex13.c:43-67 | With W writes and R reads, runs can end with any number of served reads from one to min(W, R) and no other; with none only if W or R is 0 |
| `FlagBuffer.RunsAreBounded` | day_05/ex13.c:39-70 | Schedules are bounded by the work of all calls |
| `CharStream.BytesToDoExact` | day_11/ex27.c:51-56 | For every position in the device and every 64-bit length the signed/unsigned comparison chooses the smaller of the two |
| `CharStream.CharDevice.CharDevRead` | day_11/ex27.c:45-64 | A read returns the bytes at the position, advances it by their number and leaves the device alone, or reports the device full and changes nothing |
| `CharStream.CharDevice.CharDevWrite` | day_11/ex27.c:66-85 | A write replaces exactly its window, the smaller of its length and what is left of the device, by its data as far as copied, and advances the position by the count copied, or reports the device full |
| `CharStream.FullDeviceIff` | day_11/ex27.c:56-83 | `-ENOSPC` is returned exactly at position 4000 or for length zero, and then nothing changes |
| `CharStream.CallFrame` | day_11/ex27.c:51-82 | A read leaves all bytes alone, a write all but its window |
| `CharStream.LastWriteDecides` | day_11/ex27.c:45-85 | On every run over any open files each device byte is the one stored by the last write whose window covered it, or the initial byte |
| `CharStream.PositionConserved` | day_11/ex27.c:51-84 | On every run over any open files each position is its start plus the counts returned on it, stays in [0, 4000], and bounds the calls that make progress |
| `CharStream.WritesStorePrefix` | day_11/ex27.c:66-85 | Chunked writes resumed from the returned counts store a prefix of the stream |
| `CharStream.ReadsRecover` | day_11/ex27.c:45-64 | Chunked reads through a fresh file return the device's bytes in order |
| `CharStream.RoundTrip` | day_11/ex27.c:45-85 | Whatever the chunks, faults and resumptions, a second file's bytes agree with the written stream as far as both have got; a writer with nothing left or told that the device is full has stored the stream truncated at 4000; a reader told so has got the whole device |
| `TinyDriver.Driver.TinyOpen` | day_12/ex29.c:90-143 | Open creates port and timer as needed, counts, and arms the timer only when it is not pending, to be due two seconds later, with the returned code |
| `TinyDriver.Driver.DoClose` | day_12/ex29.c:145-164 | Close counts down, saturating at zero, and deletes the timer at the last close |
| `TinyDriver.Driver.TinyClose` | day_12/ex29.c:166-172 | Close through a tty without driver data does nothing |
| `TinyDriver.Driver.RunTimer` | day_12/ex29.c:66-88 | A due timer inserts one character and is armed again, to be due two seconds later |
| `TinyDriver.Driver.TinyExit` | day_12/ex29.c:561-585 | Both shutdown loops terminate and leave the specified table and freed objects |
| `TinyPortsProperties.TimersFollowCountsIff` | day_12/ex29.c:115-164 | On every run all timers are pending exactly while their port is open if and only if no needed timer allocation failed |
| `TinyPortsProperties.FailedTimerAllocBreaksClose` | day_12/ex29.c:127-160 | One failed timer allocation leaves count one and no timer, so that a close would use a missing timer |
| `TinyPortsProperties.NoCrashWithoutFailure` | day_12/ex29.c:126-160 | Without such a failure no close uses a missing timer and a first open finds the timer not pending |
| `TinyPortsProperties.FailureLeadsToCrash` | day_12/ex29.c:127-160 | After every run with such a failure, closes alone lead to a close that uses the missing timer |
| `TinyPortsProperties.OpenCountIsBalance` | day_12/ex29.c:121-155 | The open count is opens minus closes, each close stopping at zero |
| `TinyPortsProperties.CharactersAreSpaced` | day_12/ex29.c:41-87 | On every run two characters on a port are at least 2 * HZ jiffies apart, across closes and reopens, and a pending timer is due within 2 * HZ |
| `TinyPortsProperties.TimersAreSet` | day_12/ex29.c:86-138 | A firing, and an open that raises the count to one with a timer, leave the timer due exactly 2 * HZ later; nothing else sets or moves a pending timer |
| `TinyPortsProperties.CharactersComeFromOpenPorts` | day_12/ex29.c:79-87 | Each firing inserts exactly one character, only on a port whose open count is positive, and nothing else inserts any |
| `TinyPortsProperties.RateBound` | day_12/ex29.c:81-138 | From the open that raises a port's count to one at time a, at most floor((now - a) / (2 * HZ)) characters are inserted |
| `TinyPortsProperties.RunConserved` | day_12/ex29.c:102-134 | Before the shutdown every allocated object belongs to exactly one place in one port |
| `TinyPortsProperties.ShutdownDefinedIff` | day_12/ex29.c:567-579 | After any run the shutdown uses no missing timer if and only if no needed timer allocation failed |
| `TinyPortsProperties.ShutdownConserves` | day_12/ex29.c:561-585 | From the end of every run without a failed timer allocation the shutdown empties the table, frees every object exactly once and no pending timer |
| `TinyDriver.TinySerial.TinyTiocmget` | day_12/ex29.c:318-335 | A line is in the result exactly when its bit is one in the register that shadows it |
| `TinyDriver.TinySerial.TinyTiocmset` | day_12/ex29.c:337-356 | Only the RTS bit of the control shadow changes; it ends as one if no clear names RTS or DTR and a set does or it was one |
| `TinyModem.ReportedBits` | day_12/ex29.c:310-332 | Which bit of which shadow register is reported at which position, and that nothing else is |
| `TinyModem.SetCallBits` | day_12/ex29.c:343-354 | In bit positions: only bit 1 of the control shadow changes, and when it ends as one |
| `TinyModem.LastNamingCallDecides` | day_12/ex29.c:322-354 | Over any sequence of calls the last one naming RTS or DTR decides the reported RTS line, clear beating set, and no other line changes |
| `TinyModem.DtrHonouredIff` | day_12/ex29.c:345-351 | A request for DTR is honoured if and only if the line already had the requested value |
| `TinyModem.Tiocmiwait` | day_12/ex29.c:435-457 | The wait ends at the first wake-up with a signal, no change, or a selected change, with the matching result, and goes on exactly over wake-ups where only unselected lines changed |
| `TinyModem.FirstWake` | day_12/ex29.c:446-455 | A first wake-up without a signal and with a change ends the wait with 0 exactly when a changed counter's own bit is asked for, for RNG, DSR, CD and CTS each and together |

## Left out
- Module registration, character and block device registration, printk, device nodes and the test programs.
- RamDisk.SbdDevice.SbdRequest: covers good parameters only, because with any others some submitted and accepted request leaves the allocated bytes (`SubmittedStayInsideIff`), and the C code then has no meaning.
- RamDisk.SbdDevice.DoActualReq: covers good parameters only, for the same reason.
- Module parameters that are zero or negative.
- The allocation of the 4000-byte buffers is modelled with the intended size; the code passes the two arguments of `kmalloc` in swapped order (day_03/ex7.c:87, day_03/ex9.c:89, day_05/ex13.c:107).
- Changes to host memory by others while a request queue is drained, and the block layer's retry of partly retired requests.
- What reads return in `day_05/ex13.c`: the reader takes no lock and the code promises nothing there.
- Several reader threads, signals and the wait queue itself in `day_05/ex13.c`; a wait is a step enabled while the flag is set.
- mmap in `day_11/ex27.c`, and positions supplied from outside the read/write stream.
- True parallelism between the timer handler and `del_timer`, wrap-around of jiffies and of open counts, `tiny_write`, `tiny_set_termios` and the two copying ioctls in `day_12/ex29.c`.
- Which character the timer inserts: it is always the same one.
- Words of modem bits are sets of bit positions, so arithmetic on them as numbers is not modelled.
- The other drivers of the repository: they repeat these protocols or wrap kernel services.
