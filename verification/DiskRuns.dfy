/** Whole runs of the floppy driver: start-up followed by any sequence of disk operations, against
    every behaviour of the hardware. */
module DiskRuns {
  import opened Words
  import opened FloppyBus
  import opened Geometry
  import opened Floppy

  datatype Op = ReadOp(ptr: nat, len: nat) | WriteOp(ptr: nat, data: seq<byte>)

  type Answer = Outcome<FloppyError>

  function Size(op: Op): nat {
    if op.ReadOp? then op.len else |op.data|
  }

  /** The bytes of the successful reads, or writes, among the first operations of a run. */
  function Moved(ops: seq<Op>, answers: seq<Answer>, reading: bool): nat
    requires |answers| <= |ops|
  {
    if answers == [] then 0
    else
      var n := |answers| - 1;
      Moved(ops, answers[..n], reading) + if answers[n].Pass? && ops[n].ReadOp? == reading then Size(ops[n]) else 0
  }

  // ----- the trace

  /** `j` is the first configure since reset `i`. */
  ghost predicate FollowsReset(bus: seq<Event>, i: nat, j: nat)
    requires i < j < |bus|
  {
    && bus[i] == Dor(0) && bus[j] == Opcode(CONFIGURE)
    && forall k | i < k < j :: bus[k] != Dor(0) && bus[k] != Opcode(CONFIGURE)
  }

  /** The first configure after a reset finds the DOR restored at once and exactly four complete sense
      interrupts in between, with no other command. */
  ghost predicate ResetsObserved(bus: seq<Event>) {
    forall i: nat, j: nat | i < j < |bus| && FollowsReset(bus, i, j) ::
      && i + 1 < j && bus[i + 1] == Dor(LastDor(bus, i))
      && OpcodesIn(bus, i + 2, j) == 4 && |GotIn(bus, i + 2, j)| == 8 && OnlySense(bus, i + 2, j)
  }

  /** Every specify finds the data rate chosen since the last reset. */
  ghost predicate RatesChosen(bus: seq<Event>) {
    forall j: nat {:trigger RateAt(bus, j)} | j < |bus| && bus[j] == Opcode(SPECIFY) :: RateAt(bus, j).Some?
  }

  /** What a clean trace is: framed commands, observed resets, a data rate before every specify, a script
      that is what the bytes say, and a count of the opcodes sent into data phases; without any, every
      unfinished transfer is reset. */
  lemma CleanTrace(bus: seq<Event>, v: View)
    requires Observed(bus, v) && v.View?
    ensures WellFramed(bus) && ResetsObserved(bus) && RatesChosen(bus)
    ensures v.script == Heard(bus, |bus|) && v.cuts == CutsIn(bus, |bus|)
    ensures CutsIn(bus, |bus|) == 0 ==> DataFramed(Heard(bus, |bus|))
  {
    FramingMeaning(bus, v);
    ScriptMeaning(bus, v);
    CutsMeaning(bus, v);
    if v.cuts == 0 {
      UncutMeaning(bus, v);
    }
    forall j: nat | j < |bus| && bus[j] == Opcode(SPECIFY)
      ensures RateAt(bus, j).Some?
    {
      SpecifyMeaning(bus, v, j);
    }
    forall i: nat, j: nat | i < j < |bus| && FollowsReset(bus, i, j)
      ensures && i + 1 < j && bus[i + 1] == Dor(LastDor(bus, i))
              && OpcodesIn(bus, i + 2, j) == 4 && |GotIn(bus, i + 2, j)| == 8 && OnlySense(bus, i + 2, j)
    {
      ResetMeaning(bus, v, i, j);
    }
  }

  /** A completed seek or recalibrate on the trace: its opcode and parameters, then a sense interrupt
      whose first result byte reports success, and nothing after. */
  lemma SeekOnBus(bus: seq<Event>, v: View, drive: byte, cyl: Option<byte>)
    requires Observed(bus, v) && v.View? && v.open.NoCommand? && SeekComplete(v.script, |v.script|, drive, cyl)
    ensures var m := LastMark(bus, |bus|); var st0 := v.script[|v.script| - 1].got;
            && m >= 0 && bus[m] == Opcode(SENSE_INTERRUPT) && GotIn(bus, m + 1, |bus|) == st0
            && |st0| == 2 && SenseAccepts(SeekOrRecal, st0[0], drive)
            && (if cyl.Some? then EndsWith(bus, m, SEEK, [drive, cyl.value], [], [])
                else EndsWith(bus, m, RECALIBRATE, [drive], [], []))
  {
    LastOnBus(bus, v);
  }

  // ----- the history of a run

  /** The driver between operations. */
  datatype Moment = Moment(enabled: bool, view: View, bus: seq<Event>, read: nat, written: nat)

  /** One operation: its answer, the bytes read, its attempts, and the driver before and after. */
  datatype Record = Record(op: Op, answer: Answer, data: seq<byte>, log: Log, before: Moment, after: Moment)

  /** The trace ends with the complete transfer: its command with the parameters of the request, which
      address this drive, and exactly the data; for a read also a clean status. */
  ghost predicate Transferred(drive: bool, op: Op, data: seq<byte>, bus: seq<Event>) {
    Addressed(RequestParams(drive, op.ptr, Size(op)), drive) &&
    match op
    case ReadOp(ptr, len) =>
      |data| == len && exists status | StatusClean(status) ::
        EndsWith(bus, |bus|, READ_DATA, RequestParams(drive, ptr, len), [], data + status)
    case WriteOp(ptr, written) =>
      EndsWith(bus, |bus|, WRITE_DATA, RequestParams(drive, ptr, |written|), written, [])
  }

  /** FLOPPY_INIT after an operation: cleared by exhausted retries and by a lock-up during a reset, and
      by nothing else. A disabled driver refuses whatever asks for something, without a bus access. */
  ghost predicate LatchLaw(x: Record) {
    && LatchAfter(x.log, x.before.enabled, x.before.view, x.after.enabled, x.after.view)
    && (!x.before.enabled ==> x.after == x.before)
    && (!x.before.enabled && Size(x.op) > 0 ==> x.answer == Fail(ReadOrWrite(ControllerUninit)))
  }

  /** A counter grows by the length of the operation if it succeeds and is of the counter's kind. */
  predicate Counts(x: Record, reading: bool, was: nat, now: nat) {
    now == if x.answer.Pass? && x.op.ReadOp? == reading then (was + Size(x.op)) % MOD64 else was
  }

  /** What every operation keeps. An operation that fails without exhausting its retries was refused
      before its first attempt or abandoned in its last. */
  ghost predicate Lawful(drive: bool, x: Record) {
    && x.before.bus <= x.after.bus && LatchLaw(x)
    && Counts(x, true, x.before.read, x.after.read) && Counts(x, false, x.before.written, x.after.written)
    && Decides(x.log, x.answer) && CutsExplained(x.log, x.before.view, x.after.view, Proper(x.op.ptr, Size(x.op)))
    && Explained(x.before.enabled, x.before.view, x.after.view, x.op.ptr, Size(x.op), x.answer)
    && (x.log.tries > 0 && !Refused(x.op.ptr, Size(x.op)) ==> Reasons(x.log, x.before.view, x.after.view))
    && (x.answer.Pass? && Size(x.op) > 0 ==> Transferred(drive, x.op, x.data, x.after.bus))
    && (x.answer.Fail? && !Exhausted(x.log) ==>
          || x.log.last.Abort?
          || x.answer.error == ReadOrWrite(ControllerUninit)
          || x.answer.error == ReadOrWrite(BadBufLen(Size(x.op))))
  }

  /** The moment before operation `i`, or after the last. */
  ghost function At(history: seq<Record>, end: Moment, i: nat): Moment
    requires i <= |history|
  {
    if i < |history| then history[i].before else end
  }

  ghost predicate RunAt(drive: bool, history: seq<Record>, ops: seq<Op>, answers: seq<Answer>, end: Moment, i: nat)
    requires i < |history| == |answers| <= |ops|
  {
    && Lawful(drive, history[i]) && history[i].op == ops[i] && history[i].answer == answers[i]
    && history[i].after == At(history, end, i + 1)
  }

  /** `history` is the run of `ops`: lawful operations, each beginning where the one before ended. */
  ghost predicate Run(drive: bool, history: seq<Record>, ops: seq<Op>, answers: seq<Answer>, start: Moment, end: Moment) {
    && |history| == |answers| <= |ops| && At(history, end, 0) == start
    && forall i: nat {:trigger RunAt(drive, history, ops, answers, end, i)} | i < |history| ::
         RunAt(drive, history, ops, answers, end, i)
  }

  lemma RunMore(drive: bool, history: seq<Record>, ops: seq<Op>, answers: seq<Answer>, start: Moment, end: Moment, x: Record)
    requires Run(drive, history, ops, answers, start, end) && |answers| < |ops| && Lawful(drive, x)
    requires x.before == end && x.op == ops[|answers|]
    ensures Run(drive, history + [x], ops, answers + [x.answer], start, x.after)
  {
    var history', answers' := history + [x], answers + [x.answer];
    forall i: nat | i < |history'|
      ensures RunAt(drive, history', ops, answers', x.after, i)
    {
      if i < |history| {
        assert RunAt(drive, history, ops, answers, end, i);
        assert history'[i] == history[i] && At(history', x.after, i + 1) == At(history, end, i + 1);
      }
    }
    assert At(history', x.after, 0) == At(history, end, 0);
  }

  /** One operation of a run, without the parts about the trace. */
  lemma RunStep(drive: bool, history: seq<Record>, ops: seq<Op>, answers: seq<Answer>, start: Moment, end: Moment, i: nat)
    requires Run(drive, history, ops, answers, start, end) && i < |history|
    ensures history[i].op == ops[i] && history[i].answer == answers[i]
    ensures history[i].before == At(history, end, i) && history[i].after == At(history, end, i + 1)
    ensures LatchLaw(history[i]) && Decides(history[i].log, answers[i])
    ensures history[i].before.view.View? && history[i].after.view.View?
    ensures CutsExplained(history[i].log, history[i].before.view, history[i].after.view, Proper(ops[i].ptr, Size(ops[i])))
  {
    assert RunAt(drive, history, ops, answers, end, i);
  }

  lemma RunCounts(drive: bool, history: seq<Record>, ops: seq<Op>, answers: seq<Answer>, start: Moment, end: Moment,
                  reading: bool, i: nat)
    requires Run(drive, history, ops, answers, start, end) && i < |history|
    ensures var r, op := answers[i], ops[i];
            Counter(At(history, end, i + 1), reading) ==
              if r.Pass? && op.ReadOp? == reading then (Counter(At(history, end, i), reading) + Size(op)) % MOD64
              else Counter(At(history, end, i), reading)
  {
    assert RunAt(drive, history, ops, answers, end, i);
  }

  /** The latch never reopens: once the driver is disabled, nothing that follows changes anything, and
      whatever asks for something is refused. */
  lemma {:induction false} LatchHolds(drive: bool, history: seq<Record>, ops: seq<Op>, answers: seq<Answer>,
                                      start: Moment, end: Moment, i: nat, j: nat)
    requires Run(drive, history, ops, answers, start, end) && i <= j <= |history| && !At(history, end, i).enabled
    ensures At(history, end, j) == At(history, end, i)
    ensures j < |history| && Size(ops[j]) > 0 ==> answers[j] == Fail(ReadOrWrite(ControllerUninit))
    decreases j
  {
    if i < j {
      LatchHolds(drive, history, ops, answers, start, end, i, j - 1);
      RunStep(drive, history, ops, answers, start, end, j - 1);
    }
    if j < |history| {
      RunStep(drive, history, ops, answers, start, end, j);
    }
  }

  /** Exhausting the retries of one operation closes the latch for all that follow. */
  lemma ExhaustedCloses(drive: bool, history: seq<Record>, ops: seq<Op>, answers: seq<Answer>,
                        start: Moment, end: Moment, i: nat, j: nat)
    requires Run(drive, history, ops, answers, start, end) && i < j <= |history| && Exhausted(history[i].log)
    ensures answers[i].Fail? && !At(history, end, j).enabled && At(history, end, j).bus == At(history, end, i + 1).bus
    ensures j < |history| && Size(ops[j]) > 0 ==> answers[j] == Fail(ReadOrWrite(ControllerUninit))
  {
    RunStep(drive, history, ops, answers, start, end, i);
    LatchHolds(drive, history, ops, answers, start, end, i + 1, j);
  }

  /** A run in which no operation begins inside a data phase or tries again after breaking one off sends
      no opcode into a data phase. */
  lemma {:induction false} UncutRun(drive: bool, history: seq<Record>, ops: seq<Op>, answers: seq<Answer>,
                                    start: Moment, end: Moment, n: nat)
    requires Run(drive, history, ops, answers, start, end) && n <= |history| && start.view.View?
    requires forall i: nat | i < n :: Undisturbed(history[i])
    ensures At(history, end, n).view.View? && At(history, end, n).view.cuts == start.view.cuts
  {
    if n > 0 {
      UncutRun(drive, history, ops, answers, start, end, n - 1);
      assert Undisturbed(history[n - 1]);
      RunStep(drive, history, ops, answers, start, end, n - 1);
    }
  }

  /** A request of whole sectors that the driver accepts. */
  predicate WellFormed(op: Op) {
    Size(op) % 512 == 0 && (Size(op) > 0 ==> !Refused(op.ptr, Size(op)))
  }

  lemma FaultFreeStep(drive: bool, history: seq<Record>, ops: seq<Op>, answers: seq<Answer>, start: Moment, end: Moment, i: nat)
    requires Run(drive, history, ops, answers, start, end) && i < |history| && WellFormed(ops[i])
    ensures At(history, end, i).view.View? && At(history, end, i + 1).view.View?
    ensures At(history, end, i).view.faults <= At(history, end, i + 1).view.faults
    ensures At(history, end, i + 1).view.faults == At(history, end, i).view.faults && At(history, end, i).enabled ==>
              && At(history, end, i + 1).enabled
              && (answers[i].Fail? ==> StatusSays(At(history, end, i + 1).view.script, answers[i].error))
  {
    assert RunAt(drive, history, ops, answers, end, i);
  }

  /** Hardware without faults: from an enabled driver, every request of whole sectors that it accepts is
      carried out, unless the drive itself reports an error after the data, and the driver stays enabled. */
  lemma {:induction false} FaultFreeRun(drive: bool, history: seq<Record>, ops: seq<Op>, answers: seq<Answer>,
                                        start: Moment, end: Moment, n: nat)
    requires Run(drive, history, ops, answers, start, end) && n <= |history| && start.enabled && start.view.View?
    requires forall i: nat | i < n :: WellFormed(ops[i])
    ensures At(history, end, n).view.View? && start.view.faults <= At(history, end, n).view.faults
    ensures At(history, end, n).view.faults == start.view.faults ==>
              && At(history, end, n).enabled
              && forall i: nat | i < n && answers[i].Fail? ::
                   At(history, end, i + 1).view.View? && StatusSays(At(history, end, i + 1).view.script, answers[i].error)
  {
    if n > 0 {
      FaultFreeRun(drive, history, ops, answers, start, end, n - 1);
      FaultFreeStep(drive, history, ops, answers, start, end, n - 1);
    }
  }

  ghost predicate Undisturbed(x: Record) {
    x.before.view.View? && !x.before.view.inData && !x.log.broken
  }

  // ----- counters

  lemma MovedStep(ops: seq<Op>, answers: seq<Answer>, r: Answer, reading: bool)
    requires |answers| < |ops|
    ensures var n := |answers|;
            Moved(ops, answers + [r], reading) ==
              Moved(ops, answers, reading) + if r.Pass? && ops[n].ReadOp? == reading then Size(ops[n]) else 0
  {
    assert (answers + [r])[..|answers|] == answers;
  }

  /** One operation's share of a counter that stood at `base` before the run. */
  lemma CounterStep(ops: seq<Op>, answers: seq<Answer>, r: Answer, reading: bool, base: nat, now: nat, after: nat)
    requires |answers| < |ops| && now == (base + Moved(ops, answers, reading)) % MOD64
    requires var op := ops[|answers|];
             after == if r.Pass? && op.ReadOp? == reading then (now + Size(op)) % MOD64 else now
    ensures after == (base + Moved(ops, answers + [r], reading)) % MOD64
  {
    MovedStep(ops, answers, r, reading);
    AddModulo(base + Moved(ops, answers, reading), Size(ops[|answers|]));
  }

  function Counter(m: Moment, reading: bool): nat {
    if reading then m.read else m.written
  }

  /** READ_BYTES and WRITTEN_BYTES are the summed lengths of the successful operations, modulo 2^64. */
  lemma {:induction false} CounterIs(drive: bool, history: seq<Record>, ops: seq<Op>, answers: seq<Answer>,
                                     start: Moment, end: Moment, reading: bool, n: nat)
    requires Run(drive, history, ops, answers, start, end) && n <= |history| && Counter(start, reading) < MOD64
    ensures Counter(At(history, end, n), reading) == (Counter(start, reading) + Moved(ops, answers[..n], reading)) % MOD64
  {
    if n > 0 {
      CounterIs(drive, history, ops, answers, start, end, reading, n - 1);
      RunCounts(drive, history, ops, answers, start, end, reading, n - 1);
      var before := answers[..n - 1];
      assert answers[..n] == before + [answers[n - 1]];
      CounterStep(ops, before, answers[n - 1], reading, Counter(start, reading),
                  Counter(At(history, end, n - 1), reading), Counter(At(history, end, n), reading));
    }
  }

  lemma AddModulo(x: nat, more: nat)
    ensures (x % MOD64 + more) % MOD64 == (x + more) % MOD64
  {
    var q := x / MOD64;
    assert x == MOD64 * q + x % MOD64;
    AddMultiple(x % MOD64 + more, q);
  }

  lemma {:induction false} AddMultiple(x: nat, q: nat)
    ensures (x + MOD64 * q) % MOD64 == x % MOD64
  {
    if q > 0 {
      AddMultiple(x, q - 1);
      assert (x + MOD64 * q) == (x + MOD64 * (q - 1)) + MOD64;
    }
  }

  // ----- running it

  lemma WriteOnBus(bus: seq<Event>, v: View, drive: bool, before: seq<Entry>, ptr: nat, data: seq<byte>)
    requires Observed(bus, v) && v.View? && v.open.NoCommand?
    requires WriteComplete(before, v.script, RequestParams(drive, ptr, |data|), data)
    ensures Transferred(drive, WriteOp(ptr, data), [], bus)
  {
    LastOnBus(bus, v);
    ParamsAddressed(drive, ptr % MOD16, |data| / SECTOR_SIZE % MOD16);
  }

  lemma ReadOnBus(bus: seq<Event>, v: View, drive: bool, before: seq<Entry>, ptr: nat, data: seq<byte>)
    requires Observed(bus, v) && v.View? && v.open.NoCommand?
    requires ReadComplete(before, v.script, RequestParams(drive, ptr, |data|), data)
    ensures Transferred(drive, ReadOp(ptr, |data|), data, bus)
  {
    LastOnBus(bus, v);
    ParamsAddressed(drive, ptr % MOD16, |data| / SECTOR_SIZE % MOD16);
    var got := v.script[|v.script| - 1].got;
    assert got == data + got[|data|..];
  }

  ghost function Now(fdc: Fdc): Moment
    reads fdc
  {
    Moment(fdc.floppyInit, fdc.view, fdc.bus, fdc.readBytes, fdc.writtenBytes)
  }

  /** One operation of a run. */
  method Perform(fdc: Fdc, op: Op) returns (r: Answer, data: seq<byte>, ghost log: Log)
    requires fdc.Ready()
    modifies fdc
    ensures fdc.Ready() && fdc.grants <= old(fdc.grants)
    ensures Lawful(fdc.drive, Record(op, r, data, log, old(Now(fdc)), Now(fdc)))
    ensures DepthBound(old(fdc.peak), fdc.peak, 1, old(fdc.grants))
  {
    match op
    case ReadOp(ptr, len) =>
      r, data, log := PerformRead(fdc, ptr, len);
    case WriteOp(ptr, written) =>
      data := [];
      r, log := PerformWrite(fdc, ptr, written);
  }

  method PerformRead(fdc: Fdc, ptr: nat, len: nat) returns (r: Answer, data: seq<byte>, ghost log: Log)
    requires fdc.Ready()
    modifies fdc
    ensures fdc.Ready() && fdc.grants <= old(fdc.grants)
    ensures Lawful(fdc.drive, Record(ReadOp(ptr, len), r, data, log, old(Now(fdc)), Now(fdc)))
    ensures DepthBound(old(fdc.peak), fdc.peak, 1, old(fdc.grants))
  {
    ghost var before := fdc.view.script;
    r, data, log := ReadNew(fdc, ptr, len);
    if r.Pass? && len > 0 {
      ReadOnBus(fdc.bus, fdc.view, fdc.drive, before, ptr, data);
    }
    ghost var x := Record(ReadOp(ptr, len), r, data, log, old(Now(fdc)), Now(fdc));
    assert LatchLaw(x);
    assert Counts(x, true, x.before.read, x.after.read) && Counts(x, false, x.before.written, x.after.written);
  }

  /** A read into a buffer of its own. */
  method ReadNew(fdc: Fdc, ptr: nat, len: nat) returns (r: Answer, data: seq<byte>, ghost log: Log)
    requires fdc.Ready()
    modifies fdc
    ensures fdc.Ready() && old(fdc.bus) <= fdc.bus && fdc.grants <= old(fdc.grants) && |data| == len
    ensures Decides(log, r) && CutsExplained(log, old(fdc.view), fdc.view, Proper(ptr, len))
    ensures LatchAfter(log, old(fdc.floppyInit), old(fdc.view), fdc.floppyInit, fdc.view)
    ensures fdc.readBytes == if r.Pass? then (old(fdc.readBytes) + len) % MOD64 else old(fdc.readBytes)
    ensures fdc.writtenBytes == old(fdc.writtenBytes)
    ensures len == 0 || !old(fdc.floppyInit) ==> fdc.bus == old(fdc.bus) && fdc.view == old(fdc.view)
    ensures len == 0 ==> r.Pass?
    ensures log.tries == 0 && len > 0 ==>
      r == Fail(ReadOrWrite(if old(fdc.floppyInit) then BadBufLen(len) else ControllerUninit))
    ensures !old(fdc.floppyInit) ==> log.tries == 0
    ensures log.tries > 0 && !Refused(ptr, len) ==> Reasons(log, old(fdc.view), fdc.view)
    ensures Explained(old(fdc.floppyInit), old(fdc.view), fdc.view, ptr, len, r)
    ensures len > 0 && r.Pass? ==>
      ReadComplete(old(fdc.view.script), fdc.view.script, RequestParams(fdc.drive, ptr, len), data)
    ensures DepthBound(old(fdc.peak), fdc.peak, 1, old(fdc.grants))
  {
    var buf := new byte[len](_ => 0);
    r, log := fdc.Read(ptr, buf, 0, len);
    data := buf[0..len];
  }

  method PerformWrite(fdc: Fdc, ptr: nat, written: seq<byte>) returns (r: Answer, ghost log: Log)
    requires fdc.Ready()
    modifies fdc
    ensures fdc.Ready() && fdc.grants <= old(fdc.grants)
    ensures Lawful(fdc.drive, Record(WriteOp(ptr, written), r, [], log, old(Now(fdc)), Now(fdc)))
    ensures DepthBound(old(fdc.peak), fdc.peak, 1, old(fdc.grants))
  {
    ghost var before := fdc.view.script;
    r, log := fdc.Write(ptr, written);
    if r.Pass? && written != [] {
      WriteOnBus(fdc.bus, fdc.view, fdc.drive, before, ptr, written);
    }
  }

  /** Any sequence of operations: every one is lawful, the trace is clean, the counters are the sums over
      the successful operations (modulo 2^64), the motor ran during every transfer unless a stopped one
      was told to stop, and the nesting of send_command stays within one more than a twelfth of the
      transfers the hardware still grants. */
  method PerformAll(fdc: Fdc, ops: seq<Op>) returns (answers: seq<Answer>, ghost history: seq<Record>)
    requires fdc.Ready()
    modifies fdc
    ensures fdc.Ready() && |answers| == |ops|
    ensures Run(fdc.drive, history, ops, answers, old(Now(fdc)), Now(fdc))
    ensures WellFramed(fdc.bus) && ResetsObserved(fdc.bus) && RatesChosen(fdc.bus) && fdc.view.cuts == CutsIn(fdc.bus, |fdc.bus|)
    ensures !fdc.stray ==> MotorThroughout(fdc.bus)
    ensures fdc.readBytes == (old(fdc.readBytes) + Moved(ops, answers, true)) % MOD64
    ensures fdc.writtenBytes == (old(fdc.writtenBytes) + Moved(ops, answers, false)) % MOD64
    ensures DepthBound(old(fdc.peak), fdc.peak, 1, old(fdc.grants))
  {
    ghost var start := Now(fdc);
    answers, history := PerformEach(fdc, ops);
    CleanTrace(fdc.bus, fdc.view);
    CounterIs(fdc.drive, history, ops, answers, start, Now(fdc), true, |history|);
    CounterIs(fdc.drive, history, ops, answers, start, Now(fdc), false, |history|);
    assert answers[..|history|] == answers;
  }

  /** The operations one after the other. */
  method PerformEach(fdc: Fdc, ops: seq<Op>) returns (answers: seq<Answer>, ghost history: seq<Record>)
    requires fdc.Ready()
    modifies fdc
    ensures fdc.Ready() && |answers| == |ops|
    ensures Run(fdc.drive, history, ops, answers, old(Now(fdc)), Now(fdc))
    ensures DepthBound(old(fdc.peak), fdc.peak, 1, old(fdc.grants))
  {
    answers, history := [], [];
    ghost var start := Now(fdc);
    while |answers| < |ops|
      invariant fdc.Ready() && fdc.grants <= old(fdc.grants) && |answers| <= |ops|
      invariant Run(fdc.drive, history, ops, answers, start, Now(fdc))
      invariant DepthBound(old(fdc.peak), fdc.peak, 1, old(fdc.grants))
    {
      var op := ops[|answers|];
      ghost var before := Now(fdc);
      var r, data;
      ghost var log;
      r, data, log := Perform(fdc, op);
      ghost var x := Record(op, r, data, log, before, Now(fdc));
      RunMore(fdc.drive, history, ops, answers, start, before, x);
      answers, history := answers + [r], history + [x];
    }
  }

  /** The trace tells a complete start-up: version 0x90, configure, reset and specify in this order, and a
      completed recalibrate at the end. */
  ghost predicate StartedOnBus(bus: seq<Event>, drive: bool, space: nat) {
    var heard := Heard(bus, |bus|);
    && SeekComplete(heard, |heard|, if drive then 1 else 0, None) && StartedUp([], heard, |heard| - 2, space)
  }

  /** Why start-up failed: the hardware was at fault, is of another version, or has another capacity. */
  ghost predicate NotStarted(m: Moment, space: nat, e: FloppyError) {
    && m.view.View?
    && (m.view.faults > 0 || OtherVersion(Heard(m.bus, |m.bus|), e) || (e == UnsupportedCapacity && space !in {1200, 1440, 2880}))
  }

  method StartDriver(drive: bool, space: nat, grants: nat) returns (started: Answer, fdc: Fdc)
    ensures fresh(fdc) && fdc.Ready() && fdc.drive == drive && fdc.floppyInit == started.Pass? && fdc.grants <= grants
    ensures started.Pass? ==> StartedOnBus(fdc.bus, drive, space)
    ensures started.Fail? ==> NotStarted(Now(fdc), space, started.error)
    ensures fdc.readBytes == fdc.writtenBytes == 0 && DepthBound(0, fdc.peak, 1, grants)
  {
    fdc := new Fdc(drive, space, grants);
    started := fdc.Init();
    ScriptMeaning(fdc.bus, fdc.view);
  }

  /** From power-on: start-up and then any operations, with everything PerformAll promises. If start-up
      fails, every operation is refused. */
  method Session(drive: bool, space: nat, grants: nat, ops: seq<Op>)
    returns (started: Answer, answers: seq<Answer>, fdc: Fdc, ghost start: Moment, ghost history: seq<Record>)
    ensures fresh(fdc) && fdc.Ready() && |answers| == |ops|
    ensures Run(fdc.drive, history, ops, answers, start, Now(fdc)) && start.enabled == started.Pass? && start.view.View?
    ensures WellFramed(fdc.bus) && ResetsObserved(fdc.bus) && RatesChosen(fdc.bus) && fdc.view.cuts == CutsIn(fdc.bus, |fdc.bus|)
    ensures !fdc.stray ==> MotorThroughout(fdc.bus)
    ensures started.Pass? ==> StartedOnBus(start.bus, drive, space)
    ensures started.Fail? ==> NotStarted(start, space, started.error)
    ensures started.Fail? ==>
      forall i: nat | i < |ops| && Size(ops[i]) > 0 :: answers[i] == Fail(ReadOrWrite(ControllerUninit))
    ensures fdc.readBytes == Moved(ops, answers, true) % MOD64
    ensures fdc.writtenBytes == Moved(ops, answers, false) % MOD64
    ensures fdc.peak <= 1 + grants / 12
  {
    started, fdc := StartDriver(drive, space, grants);
    start := Now(fdc);
    answers, history := PerformAll(fdc, ops);
    if started.Fail? {
      forall i: nat | i < |ops| && Size(ops[i]) > 0
        ensures answers[i] == Fail(ReadOrWrite(ControllerUninit))
      {
        LatchHolds(fdc.drive, history, ops, answers, start, Now(fdc), 0, i);
      }
    }
  }
}
