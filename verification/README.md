# Sunflower kernel: floppy driver, filesystem mount, keyboard ring, text console, access control

This project models the stateful core of the Sunflower x86 kernel in Dafny and proves what it keeps over
every input, every hardware behaviour and every interleaving.

| file | what it models |
|---|---|
| `Motor.dfy` | the floppy motor: three modes, a countdown, the motor bit of the digital output register (DOR) |
| `Bus.dfy` | the 82077AA controller's side of the conversation: an observer that rebuilds commands from bus events, rejects broken command framing and resets, and counts opcodes sent into a data phase |
| `Geometry.dfy` | LBA and CHS addresses, the address checks, and what a command history means for the bytes on the disk |
| `Fdc.dfy` | the driver: FIFO transfers, commands with retries and resets, seek, sense interrupt, disk read and write, start-up |
| `DiskRuns.dfy` | whole runs of the driver, from power-on through any sequence of disk operations |
| `FloppyFs.dfy` | the track-splitting wrappers, against a linear disk |
| `BlockMap.dfy` | packed block pointers, the 32-word block bitmap and its first-fit allocator |
| `Mount.dfy`, `FloppyMount.dfy` | mounting an inode table, formatting, and both on top of the floppy |
| `Keyboard.dfy` | the scancode ring shared by the interrupt handler and the poller |
| `Console.dfy` | the 25 by 80 text console: wrapping, scrolling, backspace, cursor, top bar |
| `ExclusiveMap.dfy`, `ContAccess.dfy` | the two access-control types, step by step under interleaving and nested interrupts |

## Reading the model

- **Hardware.** Every FIFO transfer is either ready, with any byte, or timed out; the choice is
  nondeterministic. Any number of timer ticks may pass before each FIFO transfer, before the CCR write, during
  the reset pulse and before each `disable_motor` that closes an operation. `Fdc.grants` bounds how many more
  transfers the hardware will let through; it is any natural number, so every theorem covers every hardware
  that grants finitely many. It is also the termination measure of the mutual recursion between
  `send_command` and `init_fdc`.
- **Trace.** `Fdc.bus` records every FIFO byte (with the role the driver gives it: opcode, parameter, data,
  result), DOR write and CCR write. `FloppyBus.Step` is the controller's reading of it; broken command framing
  or a broken reset makes the view `Bad` for ever. `Fdc.Valid` says the view is not `Bad`, so each driver method
  proves these two for itself. `FramingMeaning`, `ResetMeaning`, `ScriptMeaning`, `LastOnBus` and `CutsMeaning`
  translate what the methods promise about the view back to positions and bytes of the trace. What the driver
  does not prevent is not rejected but counted: `cuts` is the number of opcodes taken inside a data phase.
- **Failure.** A wait that times out is an event on the trace, and `faults` counts these and the sense
  interrupts whose status is not the expected one. Every method says what its failures cost: an operation
  fails only through faults, an error the drive reports, or a cause named in its contract, and retry loops
  give up only after as many faults as the source makes attempts. So hardware without faults is always
  served (`DiskRuns.FaultFreeRun`).
- **Motor.** `Fdc.Valid` also says that every FIFO transfer so far found the motor bit set, unless a stopped
  motor was told to stop (`stray`). Each motor call is atomic, and so are the two adjacent accesses
  `disable_motor` and the port read at the end of `read_byte`.
- **Disk contents.** `Geometry.StoreOf` replays a command history on a linear disk. A `Faithful` drive returns
  what was last stored; reads are compared with the linear disk under that assumption. The bytes of a
  partly sent write count as stored, so failed attempts are covered.
- **Arithmetic.** Release builds wrap silently. u8, u16 and u64 wrap-around is written out wherever a value
  can reach it (cylinder cast, `ptr + sects - 1`, `18 - block`, motor countdown, ring indices, byte counters).
- **Loops and statics** of the source are methods and classes here, proved against functions on values; the
  whole-run theorems are lemmas about those functions.

## Where the code falls short of what it suggests

Each of these is proved with the exact condition.

- The motor's mode and its DOR bit agree throughout a run if and only if `disable_motor` is never called
  while the motor is off (`Motor.RunAgreesIff`). The driver does call it then: a read or write of a refused
  address with the motor off (`Floppy.Fdc.Read`, `Write`), and a closing `disable_motor` that ticks have
  overtaken. A motor wanted again within 51 ticks of such a call counts as running while its bit stays clear
  (`Motor.StoppedTwice`).
- A transfer that breaks off inside its data phase is retried without a reset, so the next recalibrate can be
  taken as data (`FloppyBus.CutExample`). An operation sends no opcode into a data phase unless it began inside
  one or tried again after breaking one off; for a request within one track it does so exactly then, unless the
  controller refuses the opcode and is reset (`Floppy.Fdc.Read`, `Write`, `FloppyBus.UncutMeaning`).
- A successful write leaves its seven result bytes unread (`Floppy.Fdc.Write`: the history's last entry has
  no result bytes).
- A transfer command that is sent again after a reset is not preceded by another recalibrate and seek
  (`Floppy.Fdc.PositionAndSend`).
- LBAs from 9216 on alias the start of the disk because the cylinder is cast to u8 (`Geometry.ChsRoundTrip`,
  `DenotesIff`, `AliasExample`).
- A refused address is retried like a hardware error, and so permanently disables the driver
  (`Floppy.Fdc.Read`, `Floppy.Fdc.Write`).
- `sense_int` can never return `CommandFailed`: the preceding branch catches every case
  (`Floppy.Fdc.SenseInt`).
- `floppyfs::write` steps by bytes where it should step by sectors. A successful write from a start up to 18
  is linear when it ends within two tracks; a longer one never reaches sector 36, so it is linear only if the
  disk already held that part of the data (`FloppyFs.Write`). Its comment promises writes over any boundary.
- A packed block pointer survives unless it is the saturated value 4096 (`BlockMap.PackRoundTrip`).
- The keyboard poller loses scancodes exactly when the write index has wrapped past it or the handler has
  lapped it (`Keyboard.DecisionLosesNothingIff`, `RunLosesNothingIff`): 256 interrupts before the first poll
  are all lost (`BurstLost`).
- Backspace at the start of row 1 clears the last cell of the top bar (`Console.BackspaceKeepsTopbarIff`).
- Moving the cursor up from row 1 skips row 0 even where row 0 is allowed (`Console.ShiftUndoneIff`).

## Model

| member | source | states |
|---|---|---|
| Motor.StepAgrees | kernel/src/floppy/motor.rs:49-130 | one call keeps mode and motor bit in agreement exactly when it is not a disable of a stopped motor |
| Motor.RunAgreesIff | kernel/src/floppy/motor.rs:49-130 | over every sequence of calls and ticks, mode and motor bit agree at every point if and only if no call disables a stopped motor |
| Motor.StopsOnTick51 | kernel/src/floppy/motor.rs:86-116 | after the last disable the bit stays set through tick 50 and is clear from tick 51 on; the countdown does not wrap before |
| Motor.CallsDo | kernel/src/floppy/motor.rs:49-116 | from a state in agreement enabling makes the motor run, forcing stops it at once, and a tick leaves a motor that is on alone |
| Motor.CommandBits | kernel/src/floppy/motor.rs:50-54 | every motor command keeps the controller out of reset, interrupts and DMA off, and its own drive selected |
| Motor.OnStaysOn | kernel/src/floppy/motor.rs:104-116 | any number of ticks leaves a motor that is on alone |
| Motor.StoppedTwice | kernel/src/floppy/motor.rs:49-92 | a stopped motor told to stop, and enabled within the next 51 ticks, is marked on with its bit clear |
| Motor.MotorDriver.constructor | kernel/src/floppy/motor.rs:33-46 | the statics start off |
| Motor.MotorDriver.EnableMotor | kernel/src/floppy/motor.rs:49-83 | the new state is `Enable` of the old |
| Motor.MotorDriver.DisableMotor | kernel/src/floppy/motor.rs:86-92 | the new state is `Disable` of the old |
| Motor.MotorDriver.ForceDisableMotor | kernel/src/floppy/motor.rs:95-99 | the new state is `ForceDisable` of the old: stopped at once |
| Motor.MotorDriver.DecreaseMotorTime | kernel/src/floppy/motor.rs:104-130 | the new state is `Tick` of the old, with the u16 countdown wrapping |
| FloppyBus.CleanThroughout | kernel/src/floppy/fifo.rs:151-205 | a trace without violation at its end had none at any earlier point |
| FloppyBus.CommandSet | kernel/src/floppy/fifo.rs:38-62 | the opcodes and parameter counts in numbers |
| FloppyBus.FramingMeaning | kernel/src/floppy/fifo.rs:151-205 | in a clean trace every parameter byte continues the last opcode, which still lacks parameters and was not reset; every other FIFO byte comes only when it lacks none; data belongs to a write and results to a command |
| FloppyBus.ScriptIsHeard | kernel/src/floppy/fifo.rs:151-205 | at every point of a clean trace the controller's script is what the bytes so far say, and it waits for parameters exactly when the last opcode lacks some |
| FloppyBus.ScriptMeaning | kernel/src/floppy/fifo.rs:151-205 | the whole script of a clean trace is the parse of its bytes |
| FloppyBus.LastOnBus | kernel/src/floppy/disk.rs:94-107 | the last command of the script is, byte for byte, the end of the trace: opcode, parameters, data and results in order, with no opcode or reset after; likewise the one before it |
| FloppyBus.CutsMeaning | kernel/src/floppy/disk.rs:157-178 | the count of cuts is the number of opcodes on the trace that came inside an unfinished data phase |
| FloppyBus.UncutMeaning | kernel/src/floppy/disk.rs:157-178 | without cuts every transfer that moved fewer bytes than it should is followed by a reset |
| FloppyBus.CutExample | kernel/src/floppy/disk.rs:168-178 | three of 512 bytes of a write and then a recalibrate: well framed as commands, one cut |
| FloppyBus.OpcodeCuts | kernel/src/floppy/disk.rs:168-178 | inside any data phase the next opcode is a cut and breaks nothing else |
| FloppyBus.MotorMore | kernel/src/floppy/motor.rs:49-83 | a FIFO transfer under a DOR with the motor running keeps it true that all transfers so far had it |
| FloppyBus.ResetMeaning | kernel/src/floppy/reset.rs:64-84 | in a clean trace, the first configure after a reset is preceded by the immediate restoring of the DOR, exactly four sense interrupts with eight result bytes, and no other command |
| FloppyBus.SpecifyMeaning | kernel/src/floppy/reset.rs:86-116 | in a clean trace every specify finds the CCR written since the last reset, and after its configure |
| FloppyBus.FaultStep | kernel/src/floppy/fifo.rs:84-133 | the hardware is at fault exactly when a wait times out or a sense interrupt completes with a status that does not fit |
| FloppyBus.DorIsLast | kernel/src/floppy/reset.rs:66-74 | the value a reset must restore is the last one written to the DOR |
| Geometry.ChsRoundTrip | kernel/src/floppy/disk.rs:271-276 | the address reached through CHS is the LBA modulo 9216, so it is the LBA exactly below 9216 |
| Geometry.LbaRoundTrip | kernel/src/floppy/disk.rs:271-276 | every head, cylinder and sector of the geometry is the image of its LBA |
| Geometry.AcceptIff | kernel/src/floppy/disk.rs:221-232 | an in-range request of up to 18 sectors is accepted exactly when it stays on the disk and on one track |
| Geometry.VerdictIs | kernel/src/floppy/disk.rs:221-232 | which refusal a small request gets: past the end of the disk, or across a track boundary with the sector and head it starts at |
| Geometry.OneTrackOnly | kernel/src/floppy/disk.rs:221-232 | an accepted request of up to the whole disk is at most one track long |
| Geometry.DenotesIff | kernel/src/floppy/disk.rs:221-248 | the parameters of an accepted request denote exactly this drive and the sectors asked for if and only if it starts below 9216 and has at most 18 sectors |
| Geometry.ParamsAddressed | kernel/src/floppy/disk.rs:239-248 | the parameters select this drive, the same head twice, 512-byte sectors, gap 0x1B and no explicit length |
| Geometry.AliasExample | kernel/src/floppy/disk.rs:221-248 | two accepted requests, for sectors 18 and 9234, send identical parameters |
| Geometry.AttemptsConfined | kernel/src/floppy/disk.rs:157-178 | any number of failed attempts at one transfer changes nothing outside its target; failed reads change nothing |
| Geometry.WriteLands | kernel/src/floppy/disk.rs:157-190 | a completed write after any failed attempts leaves the linear disk with the data in place and nothing else changed |
| Geometry.ReadSees | kernel/src/floppy/disk.rs:85-114 | a completed read on a faithful drive returns the linear disk's bytes and changes nothing |
| Geometry.FaithfulPrefix | kernel/src/floppy/disk.rs:85-114 | a drive that was faithful over a run was faithful over its beginning |
| Floppy.Fdc.constructor | kernel/src/floppy.rs:246-246 | the motor has been switched on and nothing else sent |
| Floppy.Fdc.MotorAgrees | kernel/src/floppy/motor.rs:49-130 | in every driver state without a stray disable, mode and motor bit agree and every FIFO transfer so far found the motor running |
| Floppy.Fdc.Elapse | kernel/src/floppy/motor.rs:104-116 | however many ticks pass, a motor that is on leaves DOR and trace alone; otherwise only the motor's DOR bit changes |
| Floppy.Fdc.Tick | kernel/src/floppy/motor.rs:104-130 | one tick of the motor machine, with its DOR write on the trace |
| Floppy.Fdc.EnableMotor | kernel/src/floppy/motor.rs:49-83 | afterwards the motor is on, and the controller saw at most a DOR write |
| Floppy.Fdc.DisableMotor | kernel/src/floppy/motor.rs:86-92 | the motor machine's disable; stray exactly when the motor was off already |
| Floppy.Fdc.CloseMotor | kernel/src/floppy/disk.rs:111-120 | any ticks and then a disable: at most one DOR write, and nothing else for the controller |
| Floppy.Fdc.SendByte | kernel/src/floppy/fifo.rs:84-106 | success puts exactly this byte on the bus, with the motor running unless a disable was stray, and uses one grant; failure puts none and names the byte |
| Floppy.Fdc.ReadByte | kernel/src/floppy/fifo.rs:112-133 | success returns exactly the byte that crossed the bus, with the motor running unless a disable was stray; failure transfers none |
| Floppy.Fdc.SendCommand | kernel/src/floppy/fifo.rs:151-205 | success means the history ends with the complete command, sent at once or after a reset; failure leaves no command half sent and comes after five failed passes with a reset each, or after a failed reset; latch, cuts and recursion depth (depth + 1 + grants / 12) through all nested resets |
| Floppy.Fdc.SendOrReset | kernel/src/floppy/fifo.rs:157-177 | one pass: the command at once, or a fault and a reset as the first new entry; the loop goes on exactly when that reset succeeded |
| Floppy.Fdc.SendAgain | kernel/src/floppy/fifo.rs:157-177 | a pass in the light of those before it |
| Floppy.Fdc.SendCommandOnce | kernel/src/floppy/fifo.rs:159-174 | success sends opcode and all parameters contiguously, one grant each; failure names the opcode, or the parameter the controller is still waiting for, and completes no command; it cuts a data phase exactly when one is on and the opcode is taken |
| Floppy.Fdc.SendParams | kernel/src/floppy/fifo.rs:165-172 | the parameters after the opcode, in order, with the exact failing position |
| Floppy.Fdc.SenseInt | kernel/src/floppy/fifo.rs:268-323 | success is one sense interrupt with two result bytes and the status its state demands, and no fault; every error is tied to a fault and to the reported status, a lock-up after a seek also to the reset that follows; a lock-up during reset disables the driver; CommandFailed is never returned |
| Floppy.Fdc.SenseTraffic | kernel/src/floppy/fifo.rs:277-280 | success is the opcode and two result bytes, three grants, and one more sense interrupt towards the four a reset demands |
| Floppy.Fdc.SenseResults | kernel/src/floppy/fifo.rs:277-280 | the two result bytes, with the lock-ups and faults they mean |
| Floppy.Fdc.Seek | kernel/src/floppy/fifo.rs:230-257 | success means the history ends with the complete seek or recalibrate and a sense interrupt reporting 0x20 or 0x21 for this drive; failure means its command could not be sent, or five faulty sense interrupts |
| Floppy.Fdc.SeekOnce | kernel/src/floppy/fifo.rs:233-253 | one pass of the retry loop; only a command that cannot be sent ends it early |
| Floppy.Fdc.SendConfigure | kernel/src/floppy/reset.rs:35-44 | legal only once the obligations of the last reset are met; success issues configure with its three parameters and settles them |
| Floppy.Fdc.InitFdc | kernel/src/floppy/reset.rs:52-120 | legal with a command half sent or inside a data phase; a reset is the first new entry and the controller always ends ready; success settles the reset, chooses the data rate of the capacity, ends with specify for it, and used at least twelve transfers; failure means a fault or another capacity |
| Floppy.Fdc.AfterPulse | kernel/src/floppy/reset.rs:76-119 | the rest of a reset: four sense interrupts, configure, data rate |
| Floppy.Fdc.ConfigureAndRate | kernel/src/floppy/reset.rs:84-116 | configure, then the data rate and specify |
| Floppy.Fdc.SetDataRate | kernel/src/floppy/reset.rs:86-116 | an unsupported capacity, and only that, is refused without traffic; otherwise the CCR is written first, at most a motor-off tick before it, and success issues specify with the bytes for that data rate |
| Floppy.Fdc.WriteCcr | kernel/src/floppy/reset.rs:97-100 | the CCR on the trace, at most a motor-off tick before it |
| Floppy.Fdc.PulseReset | kernel/src/floppy/reset.rs:64-74 | the trace grows by exactly DOR = 0 and the previous DOR, whatever ticks pass in between |
| Floppy.Fdc.SenseFour | kernel/src/floppy/reset.rs:77-82 | success is exactly four complete sense interrupts and twelve transfers |
| Floppy.Fdc.WaitForRqm | kernel/src/floppy/disk.rs:47-56 | ready, or a fault on the trace |
| Floppy.Fdc.SendReadWrite | kernel/src/floppy/disk.rs:207-269 | success means an accepted address and a history ending with the complete transfer command and its eight parameters, after a completed recalibrate and a completed seek to its cylinder, with nothing in between but a reset; an accepted address fails only through faults, and as a command timeout only after five passes; a disabled driver or a refused address causes no traffic |
| Floppy.Fdc.PositionAndSend | kernel/src/floppy/disk.rs:250-267 | one pass: recalibrate, seek, wait, send; the transfer follows the seek at once unless the controller was reset in between |
| Floppy.Fdc.SendFrom | kernel/src/floppy/disk.rs:262-266 | the transfer command from the position sought |
| Floppy.Fdc.Position | kernel/src/floppy/disk.rs:253-258 | a completed recalibrate and then a completed seek |
| Floppy.Fdc.StartTransfer | kernel/src/floppy/disk.rs:75-86 | the same for a request in bytes, cast to u16 as the source does |
| Floppy.Fdc.ReadData | kernel/src/floppy/disk.rs:94-107 | a complete data phase puts the bytes the drive yielded into the buffer in order; cells outside stay |
| Floppy.Fdc.FetchByte | kernel/src/floppy/disk.rs:95-106 | one byte of a read, or the fault that abandons it or breaks it off |
| Floppy.Fdc.WriteData | kernel/src/floppy/disk.rs:168-178 | the bytes sent are a prefix of the data, all of it when complete |
| Floppy.Fdc.ReadWriteStatus | kernel/src/floppy/disk.rs:282-328 | success means seven result bytes without an error bit |
| Floppy.StatusCleanIff | kernel/src/floppy/disk.rs:299-327 | the chain of tests finds no error exactly when no error bit of ST0, ST1 or ST2 is set |
| Floppy.StatusErrorIs | kernel/src/floppy/disk.rs:299-327 | which error each status gets |
| Floppy.ShortStays | kernel/src/floppy/disk.rs:94-107 | a broken-off transfer of a request within one track leaves the controller in its data phase |
| Floppy.Fdc.ReadOnce | kernel/src/floppy/disk.rs:86-110 | one attempt: complete, to be retried, or abandoned, with what each leaves in the history |
| Floppy.Fdc.FinishRead | kernel/src/floppy/disk.rs:94-110 | data and status of a read in the light of its attempt: what it leaves in the history and why it failed |
| Floppy.Fdc.ReadTransfer | kernel/src/floppy/disk.rs:94-110 | data and status of an issued read |
| Floppy.Fdc.ReadRetrying | kernel/src/floppy/disk.rs:85-114 | one to eight attempts, of which the last is complete, abandoned or the eighth |
| Floppy.Fdc.Conclude | kernel/src/floppy/disk.rs:111-126 | exhausted retries clear FLOPPY_INIT; an abandoned operation leaves latch and motor alone |
| Floppy.Fdc.ReadSectors | kernel/src/floppy/disk.rs:75-126 | a read past its first checks |
| Floppy.Fdc.Read | kernel/src/floppy/disk.rs:61-127 | success means the history ends with the complete read command, whose bytes are exactly the buffer, after only attempts at the same read; every failure has its cause (disabled, length, address, faults, an error the drive reports), and exhaustion means eight faults or a lock-up; FLOPPY_INIT is cleared exactly by eight attempts without success or a lock-up during reset; counter, cuts and refusals are exact |
| Floppy.Fdc.WriteOnce | kernel/src/floppy/disk.rs:158-178 | one attempt at a write, as for `ReadOnce` |
| Floppy.Fdc.WriteRetrying | kernel/src/floppy/disk.rs:157-190 | one to eight attempts, of which the last is complete, abandoned or the eighth |
| Floppy.Fdc.WriteSectors | kernel/src/floppy/disk.rs:147-201 | a write past its first checks |
| Floppy.Fdc.Write | kernel/src/floppy/disk.rs:132-202 | success means the history ends with the complete write command followed by exactly the data, after only attempts at the same write; causes of failure, latch, refusals, counter and cuts as for `Read` |
| Floppy.Fdc.Identify | kernel/src/floppy.rs:248-257 | success means the controller answered the version command with 0x90; failure means a fault or another answer |
| Floppy.Fdc.ReadVersion | kernel/src/floppy.rs:251-251 | the single result byte of the version command |
| Floppy.Fdc.IdentifyAndReset | kernel/src/floppy.rs:248-263 | success means the history gained version 0x90, configure, a reset and specify for the capacity, in this order; failure means a fault, another version or another capacity |
| Floppy.Fdc.BringUp | kernel/src/floppy.rs:248-265 | the same and then a completed recalibrate |
| Floppy.Fdc.Init | kernel/src/floppy.rs:246-271 | the driver is enabled if and only if start-up succeeds, which means version 0x90, configure, reset and specify in this order and a completed recalibrate at the end; failure means a fault, another version or another capacity; the trace is clean either way |
| DiskRuns.CleanTrace | kernel/src/floppy/fifo.rs:151-205 | a clean trace is well framed, observes the reset discipline and has a data rate before every specify; its script is the parse of its bytes, its cuts are counted, and without cuts unfinished transfers are reset |
| DiskRuns.SeekOnBus | kernel/src/floppy/fifo.rs:230-257 | a completed seek on the trace: opcode and parameters, then a sense interrupt whose first result byte reports success, and nothing after |
| DiskRuns.ReadOnBus | kernel/src/floppy/disk.rs:61-114 | after a successful read the trace ends with the read command for exactly this request, the bytes returned and a clean status |
| DiskRuns.WriteOnBus | kernel/src/floppy/disk.rs:132-190 | after a successful write the trace ends with the write command for exactly this request and exactly the data |
| DiskRuns.LatchHolds | kernel/src/floppy/disk.rs:67-68 | in every run, once the driver is disabled nothing changes any more and whatever asks for something is refused |
| DiskRuns.ExhaustedCloses | kernel/src/floppy/disk.rs:116-126 | exhausting the retries of one operation disables the driver for all that follow |
| DiskRuns.UncutRun | kernel/src/floppy/disk.rs:85-107 | a run in which no operation begins inside a data phase or tries again after breaking one off has no cuts |
| DiskRuns.FaultFreeRun | kernel/src/floppy/disk.rs:61-202 | in every run from an enabled driver without hardware faults, every request of whole sectors that is accepted succeeds unless the drive reports an error after the data, and the driver stays enabled |
| DiskRuns.CounterIs | kernel/src/floppy/disk.rs:112-112 | in every run each counter is the sum of the lengths of successful operations, modulo 2^64 |
| DiskRuns.Perform | kernel/src/floppy/disk.rs:61-202 | one operation is lawful: its answer explained, latch, attempts, cuts, counters, and the transfer on the trace, addressed to this drive, if it succeeds |
| DiskRuns.PerformAll | kernel/src/floppy/disk.rs:61-202 | over any sequence of operations: a lawful history, framing and reset discipline, counted cuts, the motor running during every transfer unless a disable was stray, counters equal to the summed lengths of successful operations |
| DiskRuns.StartDriver | kernel/src/floppy.rs:208-271 | start-up as the trace tells it, or why it failed |
| DiskRuns.Session | kernel/src/floppy.rs:208-271 | all of that from power-on, with start-up read off the trace; if start-up fails there was a fault, another version or another capacity, and every non-empty operation is refused; recursion depth is at most 1 + grants / 12 |
| FloppyFs.FirstPart | kernel/src/floppy/floppyfs.rs:87-89 | the first piece ends at sector 18 or at the end of the buffer; beyond 18 the underflow makes it the whole buffer |
| FloppyFs.NextTrack | kernel/src/floppy/floppyfs.rs:91-91 | the second piece starts at sector 18 whatever the start |
| FloppyFs.PiecesAccepted | kernel/src/floppy/floppyfs.rs:84-100 | every piece of an in-range read from a start up to 18 passes the same-track check |
| FloppyFs.PieceAccepted | kernel/src/floppy/floppyfs.rs:84-100 | the same for a piece as the loops issue it |
| FloppyFs.PieceBlamed | kernel/src/floppy/floppyfs.rs:84-100 | a piece of an in-range request fails only because the driver is disabled, through a fault, or through an error the drive reports |
| FloppyFs.TilesMore | kernel/src/floppy/floppyfs.rs:91-97 | pieces issued one after the other tile the buffer |
| FloppyFs.ReadPart | kernel/src/floppy/floppyfs.rs:96-96 | one call of the driver, recorded with its answer |
| FloppyFs.ReadRest | kernel/src/floppy/floppyfs.rs:91-99 | the loop over the pieces after the first |
| FloppyFs.Carried | kernel/src/floppy/disk.rs:221-248 | an accepted request is a stretch of the linear disk of exactly the requested start and length, on this drive |
| FloppyFs.Read | kernel/src/floppy/floppyfs.rs:84-100 | the pieces issued tile a prefix of the buffer, all but the last passed, and the answer is the last one's; a successful read on a faithful drive equals a linear read, for every start that can be addressed, and changes nothing on the disk; an in-range read from a start up to 18 fails only because the driver is disabled, through a fault, or through an error the drive reports |
| FloppyFs.StrayPiece | kernel/src/floppy/floppyfs.rs:73-77 | pieces of a write after the second land on the track at sector 18 again, up to the eighth; the ninth is refused |
| FloppyFs.NinthRefused | kernel/src/floppy/floppyfs.rs:75-76 | the ninth piece's address, truncated to u16, lies beyond the last cylinder |
| FloppyFs.LinearOnlyIfThere | kernel/src/floppy/floppyfs.rs:65-80 | a write that leaves sectors from 36 on alone is linear only if they already held the data |
| FloppyFs.WritePart | kernel/src/floppy/floppyfs.rs:76-76 | one call of the driver, recorded with its answer |
| FloppyFs.WriteRest | kernel/src/floppy/floppyfs.rs:72-77 | the loop issues a whole track of the buffer at a time, at sector 18 and then 9216 sectors further each, and stops at the first failure; within two tracks it fails only because the driver is disabled or through a fault |
| FloppyFs.WriteNext | kernel/src/floppy/floppyfs.rs:75-76 | one more piece in the light of those before it |
| FloppyFs.TailOutlives | kernel/src/floppy/floppyfs.rs:73-77 | whatever pieces passed, sectors from 36 on are unchanged, and at most eight pieces after the first can pass |
| FloppyFs.TwoLand | kernel/src/floppy/floppyfs.rs:65-80 | the pieces of a write within two tracks make a linear write |
| FloppyFs.WholeLands | kernel/src/floppy/floppyfs.rs:68-70 | beyond sector 18 the single piece makes a linear write |
| FloppyFs.WriteMeans | kernel/src/floppy/floppyfs.rs:65-80 | all that a successful write means for the disk |
| FloppyFs.Write | kernel/src/floppy/floppyfs.rs:65-80 | pieces and answer as for `Read`; linear when it ends within two tracks or starts beyond 18; otherwise sector 36 and later are unchanged, and it was linear only if they already held the data; within two tracks it fails only because the driver is disabled or through a fault |
| BlockMap.PackRoundTrip | libfs/src/lib.rs:254-269 | decode undoes encode exactly when neither pointer is 4096 |
| BlockMap.UnpackRoundTrip | libfs/src/lib.rs:254-269 | encode undoes decode for every three bytes, and decode yields no pointer of 4096 |
| BlockMap.MarkOne | libfs/src/table.rs:53-61 | setting one bit of one word adds exactly one block to the set |
| BlockMap.BlockBitmap.constructor | libfs/src/table.rs:45-46 | the empty bitmap is the empty set |
| BlockMap.BlockBitmap.AllocBmp | libfs/src/table.rs:51-68 | the words keep representing a set; the set grows by exactly the block on success and not at all otherwise; each error occurs exactly in its case |
| BlockMap.BlockBitmap.AllocNextBmp | libfs/src/table.rs:85-94 | the block granted is the least free one, null if there is none |
| BlockMap.LeastFreeIsLeast | libfs/src/table.rs:85-94 | `LeastFree` is the minimum of the free blocks, and absent only when there are none |
| BlockMap.NoDoubleGrant | libfs/src/table.rs:51-94 | over any run of allocations no block is granted twice, none that was marked, never block 0, and at most 4095 in all |
| BlockMap.Serve | libfs/src/table.rs:51-94 | a list of requests served by the bitmap itself gets exactly `Grants`, and the set grows by exactly those |
| BlockMap.ServeOne | libfs/src/table.rs:51-94 | one request gets the block `Granted` says |
| Mount.DistinctConcat | libfs/src/init.rs:69-74 | a concatenation is duplicate-free exactly when its parts are and share nothing |
| Mount.DisjointConcat | libfs/src/init.rs:69-74 | marking a concatenation succeeds exactly when marking its parts in turn does |
| Mount.InodeTable.constructor | libfs/src/table.rs:44-44 | the table starts zeroed with free maps |
| Mount.ValidsCount | libfs/src/lib.rs:254-258 | a pair contributes each block as often as it is one of its two pointers |
| Mount.TableCount | libfs/src/init.rs:62-74 | the list that mounting marks holds every block as often as the inodes with links refer to it |
| Mount.MountableIff | libfs/src/init.rs:48-78 | mounting succeeds if and only if the slots needed are free and no block is referred to twice, or once while marked or behind a held map |
| Mount.MarkedIff | libfs/src/init.rs:69-74 | the blocks marked are exactly those referred to |
| Mount.ParseLayout | libfs/src/lib.rs:85-110 | an inode laid out in its 128 packed bytes is parsed back |
| Mount.ParseTableLayout | libfs/src/init.rs:54-58 | a table laid out inode by inode is parsed back |
| Mount.MarkBlock | libfs/src/init.rs:71-71 | one more pointer can be marked exactly when the list with it is still disjoint |
| Mount.MarkPair | libfs/src/init.rs:70-73 | likewise for the valid pointers of a pair |
| Mount.MarkInode | libfs/src/init.rs:69-74 | likewise for an inode, with the count of its pointers |
| Mount.LoadInode | libfs/src/init.rs:62-75 | one active inode is loaded exactly when its slot's map is free and its blocks are disjoint from all before |
| Mount.EarlyClash | libfs/src/init.rs:62-75 | what stops the scan at one inode makes the whole table unmountable |
| Mount.AllFreeIff | libfs/src/init.rs:64-66 | the recursive and the quantified reading of free slot maps agree |
| Mount.MountedCount | libfs/src/init.rs:71-72 | the bitmap grows by as many blocks as there are pointers |
| Mount.LoadLoop | libfs/src/init.rs:59-77 | the scan, for any grouping of the pointers by inode |
| Mount.LoadTable | libfs/src/init.rs:59-77 | mounting succeeds if and only if all pointers of active inodes are pairwise distinct, unmarked and behind free maps; then the set grows by exactly those blocks, the counters are exact and the table holds the active inodes in disk order |
| FloppyMount.ReformatDrive | libfs/src/init.rs:38-44 | success leaves the linear disk as header, zeroed table, and the old rest; failure means a disabled driver or a fault |
| FloppyMount.ReadTable | libfs/src/init.rs:48-78 | on a faithful floppy the outcome is that of `LoadTable` on the inode table of the linear disk; a read error means a disabled driver, a fault or an error the drive reports |
| FloppyMount.ZeroTable | libfs/src/init.rs:39-41 | a zeroed table has no active inode and no pointer |
| FloppyMount.FormatThenMount | libfs/src/init.rs:38-78 | after formatting from any prior contents, mounting returns (0, 0) and changes neither table nor bitmap; an I/O failure means a disabled driver, a fault or an error the drive reports |
| Keyboard.HandlerKeeps | kernel/src/interrupts/keyboard.rs:204-222 | an interrupt keeps the ring invariant at any point of a poll |
| Keyboard.TakeKeeps | kernel/src/interrupts/keyboard.rs:393-394 | the byte loaded is the latest arrival in its slot and is not one already considered |
| Keyboard.PollKeeps | kernel/src/interrupts/keyboard.rs:381-394 | each load or store of the poller keeps the invariant |
| Keyboard.RunKeeps | kernel/src/interrupts/keyboard.rs:204-222 | the invariant holds after every interleaving |
| Keyboard.ArrivalsAreInterrupts | kernel/src/interrupts/keyboard.rs:204-222 | the arrivals recorded are the scancodes of the interrupts, in order |
| Keyboard.RunDelivers | kernel/src/interrupts/keyboard.rs:376-401 | for every interleaving, what is delivered is an in-order duplicate-free selection of the arrivals, and every arrival is taken, discarded or pending, exactly one of these |
| Keyboard.DecisionLosesNothingIff | kernel/src/interrupts/keyboard.rs:388-394 | a poll discards nothing exactly when nothing was pending, or the write index is in its own lap and the handler has not lapped it |
| Keyboard.RunLosesNothingIff | kernel/src/interrupts/keyboard.rs:376-401 | over every interleaving nothing is discarded if and only if no decision meets the losing condition |
| Keyboard.BurstLost | kernel/src/interrupts/keyboard.rs:381-391 | any multiple of 256 interrupts before the first poll are all discarded by it |
| Keyboard.RingFollows | kernel/src/interrupts/keyboard.rs:381-394 | the ring moves as its own fields say, whatever history is kept beside it |
| Keyboard.QuietPoll | kernel/src/interrupts/keyboard.rs:376-401 | an uninterrupted poll delivers the next pending scancode when the write index is in its lap, and discards some when it is not |
| Keyboard.DrainsInOrder | kernel/src/interrupts/keyboard.rs:376-401 | from every reachable point with no wrap in between, uninterrupted polling delivers exactly the pending scancodes in order and discards none |
| Keyboard.KeyboardBuffer.constructor | kernel/src/interrupts/keyboard.rs:51-57 | the ring starts empty |
| Keyboard.KeyboardBuffer.KbdHandler | kernel/src/interrupts/keyboard.rs:204-222 | the statics follow the handler step, or stay when the keyboard is not initialised |
| Keyboard.KeyboardBuffer.PollKeyboardStep | kernel/src/interrupts/keyboard.rs:381-394 | the statics follow the poller's next load or store |
| Console.VgaCharFields | kernel/src/vga/print.rs:72-74 | byte and both colours are recovered from the packed cell |
| Console.ShowsStep | kernel/src/vga/print.rs:169-215 | one byte keeps rows 1 to 24 showing the last 24 lines of the transcript, and row 0 as it was |
| Console.ConsoleRefines | kernel/src/vga/print.rs:149-215 | from a cleared screen, after any bytes, rows 1 to 24 are the last 24 lines of the transcript wrapped at 80 columns, the cursor is at its end, row 0 is untouched |
| Console.SessionRefines | kernel/src/vga.rs:75-96 | however printing and one-line top bar redraws alternate, rows 1 to 24 and the cursor follow the printed bytes alone and row 0 the redraws alone |
| Console.ClearShows | kernel/src/vga/buffers.rs:98-108 | a cleared screen shows the empty transcript |
| Console.TypedScreen | kernel/src/vga/print.rs:169-215 | the whole screen after typing n bytes from any cursor below row 0, with its number of scrolls |
| Console.ErasedScreen | kernel/src/vga/print.rs:219-235 | the whole screen after n backspaces that stay below row 0 |
| Console.TypeThenErase | kernel/src/vga/print.rs:169-235 | n bytes and n backspaces with the start still on screen: the cursor is back k rows higher, typed cells are blank, the rest is the old screen scrolled k rows; with k = 0 nothing else changed |
| Console.BackspaceKeepsTopbarIff | kernel/src/vga/print.rs:222-228 | row 0 survives n backspaces exactly when none is pressed at the start of row 1 or its last cell was a space |
| Console.ShiftUndoneIff | kernel/src/vga/cursor.rs:118-151 | a shift is undone by its opposite except up from row 1 and down from row 0 where row 0 is allowed |
| Console.TopbarCells | kernel/src/vga.rs:77-90 | printing from the top left corner replaces exactly the printed cells |
| Console.TextConsole.constructor | kernel/src/vga/cursor.rs:32-39 | the statics at start: blank, not held, row 0 not allowed |
| Console.TextConsole.ClampRowCol | kernel/src/vga/cursor.rs:76-90 | each coordinate moves to the nearest permitted value |
| Console.TextConsole.SetRow | kernel/src/vga/cursor.rs:64-67 | the row is the nearest permitted one and the cursor is valid afterwards |
| Console.TextConsole.SetCol | kernel/src/vga/cursor.rs:70-73 | the column is the nearest permitted one and the cursor is valid afterwards |
| Console.TextConsole.ShiftCursor | kernel/src/vga/cursor.rs:118-151 | the cursor moves as `Shift` says, u8 wrap-around included |
| Console.TextConsole.ScrollUp | kernel/src/vga/print.rs:199-211 | rows below the protected one move up and the last is blank |
| Console.TextConsole.NewLine | kernel/src/vga/print.rs:191-215 | the screen becomes `Newline` of the old; nothing happens while the buffer is held |
| Console.TextConsole.WriteChar | kernel/src/vga/print.rs:169-188 | the screen becomes `Feed` of the old; while held no cell changes but the cursor moves right |
| Console.TextConsole.WriteStr | kernel/src/vga/print.rs:149-158 | the screen becomes `FeedAll` of the old; while held the column advances by the visible bytes up to the last |
| Console.TextConsole.DeletePrevChar | kernel/src/vga/print.rs:219-235 | the screen becomes `Erase` of the old; nothing happens while held |
| Console.TextConsole.Clear | kernel/src/vga/buffers.rs:98-108 | the cursor goes to row 1 and, unless held, every cell is blank: the start of `ConsoleRefines` |
| Console.TextConsole.DrawTopbar | kernel/src/vga.rs:75-96 | a text of at most 80 bytes replaces that many cells of row 0 and nothing else; cursor and row 0 protection are restored for any text |
| Exclusive.NextKeeps | libutil/src/sync.rs:149-167 | each memory operation of any context keeps exclusion and the value |
| Exclusive.MapIsExclusive | libutil/src/sync.rs:149-167 | in every interleaving at most one closure is live, and a call is refused, changing nothing, exactly while one is |
| Exclusive.MapIsAtomic | libutil/src/sync.rs:149-167 | in every interleaving the cell is the fold of the admitted closures in order of admission, with the complete updates of a live one |
| Exclusive.ReleaseFrees | libutil/src/sync.rs:161-163 | after a finished closure is released nothing is live and the next call is admitted |
| Exclusive.MapApplies | libutil/src/sync.rs:149-167 | an undisturbed call on a free cell is admitted, applies the whole closure and frees the cell |
| ContinuousAccess.PassedFromBase | kernel/src/interrupts/cont_access.rs:79-92 | a check passes only for an access started by ordinary code |
| ContinuousAccess.NextKeeps | kernel/src/interrupts/cont_access.rs:79-127 | each step of the innermost activity, and each interrupt, keeps the nesting invariant |
| ContinuousAccess.AtMostOneAccess | kernel/src/interrupts/cont_access.rs:109-126 | however interrupts nest and whatever handlers and closures call, at most one access is in use |
| ContinuousAccess.BadbugIff | kernel/src/interrupts/cont_access.rs:79-92 | an access triggers a badbug if and only if it was started in an interrupt handler or in the type's own btemap |
| ContinuousAccess.LockedIff | kernel/src/interrupts/cont_access.rs:109-119 | the lock is set exactly while a btemap closure runs |
| ContinuousAccess.AccessCompletes | kernel/src/interrupts/cont_access.rs:79-126 | an undisturbed access from ordinary code passes its check; a btemap runs its closure with the lock set and clears it afterwards |
| ContinuousAccess.HandlerReturns | kernel/src/interrupts/idt.rs:37-68 | a handler is counted while its body runs and leaves everything as it found it |

## Left out

- Inline assembly, port numbers, GDT, IDT and TSS loading, CPUID, PIC and PIT programming, the speaker and the panic screen: hardware plumbing. Ports appear as trace events only.
- Scancode decoding, system commands, shift mapping and `PREV_RESPONSE`: the decoder is a library, the rest small tables. The keyboard model ends where a scancode is handed over.
- Wall-clock timeouts: each polling loop is "ready or timed out".
- Drive detection through CMOS at the start of `floppy::init`; `BASE_OFFSET` is taken as initialised, so its error path does not appear.
- Result phases: the observer checks opcodes, parameters, resets and data phases, not that result bytes were read before the next opcode. A failed sense interrupt and every successful write leave some unread.
- `alloc_inode` and `write_inode_block`: the pointer returned and the block arithmetic do not match the table layout, so there is no allocate-then-reload law to state.
- Partial effects of a mount that fails midway; the model fixes when it fails and what a successful one does.
- Block pointer 4096 in the bitmap: it would index past the last word and panic.
- `FsHeader` and release packing: the header is any 512 bytes.
- The inode's reserved bytes, which cloning clears.
- `buffers::swap`, the hardware cursor position, and the panic path that leaves row 0 allowed.
- Backspace at the first cell of row 0 with row 0 allowed, which panics.
- Races inside `enable_motor` and `InitLater::init`, and ticks between `disable_motor` and the port read at the end of `read_byte`: these are atomic with respect to ticks.
- Weak memory orderings in ExclusiveMap, and overflow of the 32-bit interrupt depth: memory is sequentially consistent and nesting is limited by the stack long before.
- ContAccess: the value it holds is not tracked, only who may touch it. Several ContAccess values are independent apart from the shared depth.
- ExclusiveMap and ContAccess are step relations on values and not classes, because what matters is the interleaving of their memory operations.
