/** The floppy driver (kernel/src/floppy/{fifo,reset,disk}.rs and the start-up in floppy.rs).

    The hardware is an adversary: at every FIFO access it chooses between ready (with any byte)
    and timed out, and any number of timer ticks may pass before each FIFO or register access and
    before each closing `disable_motor`. `grants` bounds how often it will still choose ready. */
module Floppy {
  import opened Words
  import opened FloppyBus
  import opened Geometry
  import Motor

  datatype SendCmdError = BadCommand(op: byte) | BadParameter(op: byte, idx: nat) | ResetError(op: byte)

  datatype SenseIntError = ResendCommand | ControllerLockup | CommandFailed | UnknownError

  datatype DiskError =
    | BadBufLen(len: nat) | ControllerUninit | SendCommandTimeout | IoTimeout | FifoTimeout
    | BadAddress(verdict: Verdict)
    | NotWritable | BadSt0Bits | DriveNotReady | NoDataFound | ControllerTimeout | EndOfCylinder
    | CRCError | BadCylinder | DifferingCylinder | NoAddressMark

  datatype FloppyError =
    | FifoWrite(b: byte)
    | FifoRead
    | SendCommandError(cmd: SendCmdError)
    | SenseInterruptError(sense: SenseIntError)
    | ReadOrWrite(disk: DiskError)
    | UnsupportedCapacity
    | UnsupportedVersion

  datatype SenseIntState = SeekOrRecal | FirstReset | OtherReset

  const RETRIES: nat := 5
  const DISK_RETRIES: nat := 8
  const SEEK_RETRIES: nat := 5

  const CONFIGURE_PARAMS: seq<byte> := [0, 0x57, 0]

  /** `read_write_status` on the first three result bytes. */
  function StatusError(st0: byte, st1: byte, st2: byte): Option<DiskError> {
    if Bit(st1, 2) then Some(NotWritable)
    else if Bit(st0, 0x40) && Bit(st0, 0x80) then Some(BadSt0Bits)
    else if Bit(st0, 8) then Some(DriveNotReady)
    else if Bit(st1, 4) then Some(NoDataFound)
    else if Bit(st1, 0x10) then Some(ControllerTimeout)
    else if Bit(st1, 0x80) then Some(EndOfCylinder)
    else if Bit(st1, 0x20) then Some(CRCError)
    else if Bit(st2, 2) then Some(BadCylinder)
    else if Bit(st2, 0x10) then Some(DifferingCylinder)
    else if Bit(st2, 0x20) then Some(CRCError)
    else if Bit(st1, 0x40) then Some(NoAddressMark)
    else None
  }

  /** The status is clean exactly when no error bit is set; the two top bits of ST0 count together. */
  lemma StatusCleanIff(st0: byte, st1: byte, st2: byte)
    ensures StatusError(st0, st1, st2).None? <==>
              && !(Bit(st0, 0x80) && Bit(st0, 0x40)) && !Bit(st0, 8)
              && (forall w | w in {2, 4, 0x10, 0x20, 0x40, 0x80} :: !Bit(st1, w))
              && (forall w | w in {2, 0x10, 0x20} :: !Bit(st2, w))
  {
  }

  /** Which error each status gets: the first of these, from the top, whose bit is set. */
  lemma StatusErrorIs(st0: byte, st1: byte, st2: byte)
    ensures var e := StatusError(st0, st1, st2);
            && (Bit(st1, 2) <==> e == Some(NotWritable))
            && (e == Some(BadSt0Bits) <==> !Bit(st1, 2) && Bit(st0, 0x40) && Bit(st0, 0x80))
            && (e == Some(DriveNotReady) ==> Bit(st0, 8)) && (e == Some(NoDataFound) ==> Bit(st1, 4) && !Bit(st0, 8))
            && (e == Some(ControllerTimeout) ==> Bit(st1, 0x10) && !Bit(st1, 4))
            && (e == Some(EndOfCylinder) ==> Bit(st1, 0x80) && !Bit(st1, 0x10))
            && (e == Some(CRCError) ==> Bit(st1, 0x20) || (Bit(st2, 0x20) && !Bit(st2, 2) && !Bit(st2, 0x10)))
            && (e == Some(BadCylinder) ==> Bit(st2, 2) && !Bit(st1, 0x20))
            && (e == Some(DifferingCylinder) ==> Bit(st2, 0x10) && !Bit(st2, 2))
            && (e == Some(NoAddressMark) ==> Bit(st1, 0x40) && !Bit(st2, 0x20))
            && (e.Some? ==> StatusFailure(e.value) && !e.value.FifoTimeout?)
  {
  }

  /** Equal except for the DOR, which the motor may switch at any time. */
  ghost predicate Same(v: View, w: View) {
    v.View? && w.View? && v == w.(dor := v.dor)
  }

  /** A wait that timed out. */
  function Late(v: View): View
    requires v.View?
  {
    v.(faults := v.faults + 1)
  }

  lemma StepSame(v: View, w: View, e: Event)
    requires Same(v, w) && !e.Dor?
    ensures Step(v, e).View? <==> Step(w, e).View?
    ensures Step(w, e).View? ==>
      Same(Step(v, e), Step(w, e)) && Step(v, e).dor == v.dor && Step(v, e).restore == v.restore && Step(v, e).drive == v.drive
  {
  }

  /** FLOPPY_INIT is cleared by a lock-up during a reset, which is the hardware's fault, and by nothing
      else. */
  ghost predicate LatchKept(was: bool, before: View, now: bool, after: View) {
    && before.View? && after.View? && before.lockups <= after.lockups && before.resets <= after.resets
    && before.faults <= after.faults && (after.lockups > before.lockups ==> after.faults > before.faults)
    && (now <==> was && after.lockups == before.lockups)
  }

  /** After a disk operation: exhausting the retries clears it too. */
  ghost predicate LatchAfter(log: Log, was: bool, before: View, now: bool, after: View) {
    && before.View? && after.View? && before.lockups <= after.lockups && before.faults <= after.faults
    && (after.lockups > before.lockups ==> after.faults > before.faults)
    && (now <==> was && after.lockups == before.lockups && !Exhausted(log))
  }

  /** Only the first opcode can be taken inside a data phase. If the controller refuses it there, a
      reset is the next thing it sees. A lock-up needs a reset. */
  ghost predicate CutLaw(before: View, after: View) {
    && before.View? && after.View? && before.resets <= after.resets
    && (after.cuts == before.cuts || (before.inData && after.cuts == before.cuts + 1))
    && (before.inData && after.cuts == before.cuts ==> Untouched(before, after) || ResetFirst(before, after))
    && (after.lockups > before.lockups ==> after.resets > before.resets)
  }

  ghost predicate Untouched(before: View, after: View)
    requires before.View? && after.View?
  {
    after.inData && after.script == before.script
  }

  ghost predicate ResetFirst(before: View, after: View)
    requires before.View? && after.View?
  {
    |after.script| > |before.script| && after.script[|before.script|] == Reset && after.resets > before.resets
  }

  lemma CutLawTrans(a: View, b: View, c: View)
    requires CutLaw(a, b) && CutLaw(b, c) && !b.inData && b.script <= c.script
    ensures CutLaw(a, c)
  {
  }

  lemma ExtendsTrans(a: seq<Entry>, b: seq<Entry>, c: seq<Entry>)
    requires Extends(a, b) && Extends(b, c)
    ensures Extends(a, c)
  {
    assert forall i | |a| <= i < |b| :: c[i] == b[i];
  }

  /** The FIFO byte that a write event carries. */
  function FifoByte(e: Event): byte
    requires e.Opcode? || e.Param? || e.Data?
  {
    match e
    case Opcode(op) => op
    case Param(b) => b
    case Data(b) => b
  }

  predicate IsTransferOp(op: byte) {
    op == READ_DATA || op == WRITE_DATA
  }

  /** The error of a transfer command that could not be sent. */
  predicate IsTransferError(e: FloppyError) {
    e.SendCommandError? && IsTransferOp(e.cmd.op)
  }

  predicate CanRead(v: View) {
    && v.View? && v.restore.None? && v.open.NoCommand?
    && v.script != [] && v.script[|v.script| - 1].Cmd?
  }

  /** `after` continues `before` with quiet entries and then the complete command, fresh. */
  ghost predicate Issued(before: seq<Entry>, after: seq<Entry>, op: byte, params: seq<byte>) {
    && before < after && after[|after| - 1] == Cmd(op, params, [], [])
    && forall i | |before| <= i < |after| - 1 :: Quiet(after[i])
  }

  /** `after` continues `before` with a reset and quiet entries. */
  ghost predicate Restarted(before: seq<Entry>, after: seq<Entry>) {
    Extends(before, after) && |after| > |before| && after[|before|] == Reset
  }

  lemma IssuedTrans(a: seq<Entry>, b: seq<Entry>, c: seq<Entry>, op: byte, params: seq<byte>)
    requires Extends(a, b) && Issued(b, c, op, params)
    ensures Issued(a, c, op, params)
  {
    assert forall i | |a| <= i < |b| :: c[i] == b[i];
  }

  lemma RestartedTrans(a: seq<Entry>, b: seq<Entry>, c: seq<Entry>)
    requires Restarted(a, b) && Extends(b, c)
    ensures Restarted(a, c)
  {
    ExtendsTrans(a, b, c);
  }

  /** `send_command` has made `attempt` passes, each of which ended in a reset. */
  ghost predicate Resending(first: View, now: View, attempt: nat) {
    && CutLaw(first, now) && now.resets >= first.resets + attempt && now.faults >= first.faults + attempt
    && if attempt == 0 then now == first
       else Restarted(first.script, now.script) && !now.inData && now.since == Settled && now.rate.Some?
  }

  /** One more pass. */
  lemma Resent(first: View, before: View, after: View, attempt: nat, op: byte, params: seq<byte>, r: Outcome<FloppyError>)
    requires Resending(first, before, attempt) && CutLaw(before, after)
    requires r.Pass? ==> Issued(before.script, after.script, op, params) && |after.script| == |before.script| + 1
    requires r.Fail? ==> Restarted(before.script, after.script) && !after.inData
    ensures CutLaw(first, after)
    ensures r.Pass? ==> Issued(first.script, after.script, op, params)
    ensures r.Pass? ==> |after.script| == |first.script| + 1 || after.script[|first.script|] == Reset
    ensures r.Fail? ==> Restarted(first.script, after.script)
  {
    if attempt > 0 {
      if r.Pass? {
        IssuedTrans(first.script, before.script, after.script, op, params);
      } else {
        RestartedTrans(first.script, before.script, after.script);
      }
      CutLawTrans(first, before, after);
    }
  }

  /** How an attempt at a transfer ends: complete, command not sent, data phase broken off (both to be
      retried), or abandoned at once. */
  datatype Transfer = Done | NotSent(error: FloppyError) | Short(error: FloppyError) | Abort(error: FloppyError)

  /** The attempts of one operation: how many, how the last one ended, and whether one was made after
      another had broken off its data phase. */
  datatype Log = Log(tries: nat, last: Transfer, broken: bool)

  predicate Retries(t: Transfer) {
    t.NotSent? || t.Short?
  }

  /** All eight attempts were made and none was complete or abandoned. */
  predicate Exhausted(log: Log) {
    log.tries == 8 && Retries(log.last)
  }

  /** `t` is how the last of one to eight attempts ended; it asks for a retry only if it is the eighth. */
  predicate Concludes(log: Log, t: Transfer) {
    && 1 <= log.tries <= 8 && log.last == t
    && (log.broken ==> log.tries > 1) && (Retries(t) ==> Exhausted(log))
  }

  /** The last attempt decides the answer. */
  predicate Decides(log: Log, r: Outcome<FloppyError>) {
    log.tries > 0 ==> Concludes(log, log.last) && r == if log.last.Done? then Pass else Fail(log.last.error)
  }

  /** An operation sends opcodes into a data phase only if it began inside one, or tried again after
      breaking one off. For a `proper` request, on one track of the disk's range, it does so
      exactly then, unless a reset of the controller comes in between. */
  ghost predicate CutsExplained(log: Log, before: View, after: View, proper: bool) {
    && before.View? && after.View? && before.cuts <= after.cuts
    && (after.cuts > before.cuts ==> before.inData || log.broken)
    && (proper && log.tries > 0 && after.resets == before.resets ==>
          (after.cuts > before.cuts <==> before.inData || log.broken))
  }

  /** The log with another attempt. */
  function Again(log: Log, t: Transfer): Log {
    Log(log.tries + 1, t, log.broken || (log.tries > 0 && log.last.Short?))
  }

  /** `attempt` attempts so far, all of which asked for a retry, the last being `t`. */
  ghost predicate Retrying(log: Log, attempt: nat, t: Transfer, first: View, now: View, proper: bool, accepted: bool) {
    && first.View? && now.View? && log.tries == attempt && (log.broken ==> attempt > 1)
    && Retries(t) && (attempt > 0 ==> log.last == t) && (attempt == 0 ==> now == first)
    && first.resets <= now.resets && first.faults <= now.faults
    && (now.lockups > first.lockups ==> now.resets > first.resets && now.faults > first.faults)
    && (accepted && now.lockups == first.lockups ==> now.faults >= first.faults + attempt)
    && CutsExplained(log, first, now, proper)
    && (now.inData ==> first.inData || log.broken || (attempt > 0 && t.Short?))
    && (proper && attempt > 0 && now.resets == first.resets ==> (now.inData <==> t.Short?))
  }

  /** Why an operation on an accepted request failed. Eight attempts mean eight faults, or a lock-up
      during a reset; an abandoned one means a fault or an error reported by the drive. */
  ghost predicate Reasons(log: Log, before: View, after: View)
    requires before.View? && after.View?
  {
    && (Exhausted(log) ==> after.faults >= before.faults + 8 || after.lockups > before.lockups)
    && (log.tries > 0 && log.last.Abort? ==> after.faults > before.faults || StatusSays(after.script, log.last.error))
  }

  /** The answer to a request of `len` bytes, in terms of what a caller can see. A driver that is enabled
      fails an accepted request only through a fault of the hardware or an error the drive reports. */
  ghost predicate Explained(enabled: bool, before: View, after: View, ptr: nat, len: nat, r: Outcome<FloppyError>)
    requires before.View? && after.View?
  {
    if len == 0 then r == Pass
    else if !enabled then r == Fail(ReadOrWrite(ControllerUninit)) && after == before
    else if len % SECTOR_SIZE != 0 then r == Fail(ReadOrWrite(BadBufLen(len))) && after == before
    else if Refused(ptr, len) then r == Fail(ReadOrWrite(BadAddress(CheckRequest(ptr, len))))
    else r.Fail? ==> after.faults > before.faults || StatusSays(after.script, r.error)
  }

  /** What an attempt made by an enabled driver does to the data phase. */
  ghost predicate Attempted(t: Transfer, before: View, after: View)
    requires before.View? && after.View?
  {
    if t.NotSent? then !after.inData else |after.script| > |before.script| && (t.Short? ==> after.inData)
  }

  lemma LogTry(log: Log, prev: Transfer, t: Transfer, attempt: nat, first: View, before: View, after: View,
               proper: bool, accepted: bool)
    requires Retrying(log, attempt, prev, first, before, proper, accepted) && CutLaw(before, after) && attempt < 8
    requires t.NotSent? ==> after == before || !after.inData
    requires proper && before.lockups == first.lockups ==> Attempted(t, before, after)
    requires accepted && before.lockups == first.lockups ==> Caused(t, before, after)
    requires before.lockups <= after.lockups && first.lockups <= before.lockups && before.faults <= after.faults
    requires after.lockups > before.lockups ==> after.faults > before.faults
    ensures CutsExplained(Again(log, t), first, after, proper)
    ensures accepted ==> Reasons(Again(log, t), first, after)
    ensures if Retries(t) then Retrying(Again(log, t), attempt + 1, t, first, after, proper, accepted)
            else Concludes(Again(log, t), t)
  {
  }

  /** An accepted request below sector 9216 and of at most one track: it moves exactly what it asks for. */
  predicate Proper(ptr: nat, len: nat) {
    !Refused(ptr, len) && ptr < 9216 && len <= SECTORS * SECTOR_SIZE
  }

  lemma ProperSpan(drive: bool, ptr: nat, len: nat)
    requires Proper(ptr, len) && len > 0 && len % SECTOR_SIZE == 0
    ensures SpanOf(RequestParams(drive, ptr, len)) == len
  {
    DenotesIff(drive, ptr, len / SECTOR_SIZE);
  }

  /** A data phase that was broken off is still on. */
  lemma ShortStays(bus: seq<Event>, v: View, drive: bool, ptr: nat, len: nat)
    requires Observed(bus, v) && v.View? && v.open.NoCommand? && Proper(ptr, len) && len > 0 && len % SECTOR_SIZE == 0
    requires v.script != [] && v.script[|v.script| - 1].Cmd?
    requires var e := v.script[|v.script| - 1];
             && e.params == RequestParams(drive, ptr, len)
             && ((e.op == READ_DATA && |e.got| < len) || (e.op == WRITE_DATA && |e.sent| < len))
    ensures v.inData
  {
    PhaseMeaning(bus, v);
    ProperSpan(drive, ptr, len);
  }

  /** The deepest nesting is at most `depth` and a twelfth of the grants: each level costs twelve. */
  predicate DepthBound(was: nat, now: nat, depth: nat, grants: nat) {
    now <= was || 12 * (now - depth) <= grants
  }

  /** Not the refusal of an address. */
  predicate NotAddress(e: FloppyError) {
    !(e.ReadOrWrite? && e.disk.BadAddress?)
  }

  /** The transfer that ends the script was preceded by a completed recalibrate and a completed seek to
      its cylinder, at once unless the controller was reset in between; it is not positioned again then. */
  ghost predicate Positioned(before: seq<Entry>, after: seq<Entry>, drive: byte, cyl: byte) {
    exists m: nat, n: nat :: |before| < m && PositionedAt(after, drive, cyl, m, n)
  }

  ghost predicate PositionedAt(after: seq<Entry>, drive: byte, cyl: byte, m: nat, n: nat) {
    && m < n < |after| && SeekComplete(after, m, drive, None) && SeekComplete(after, n, drive, Some(cyl))
    && (n == |after| - 1 || after[n] == Reset)
  }

  lemma PositionedBy(before: seq<Entry>, home: nat, sought: seq<Entry>, after: seq<Entry>, drive: byte, cyl: byte)
    requires |before| < home < |sought| < |after| && sought <= after
    requires SeekComplete(sought, home, drive, None) && SeekComplete(sought, |sought|, drive, Some(cyl))
    requires |after| == |sought| + 1 || after[|sought|] == Reset
    ensures Positioned(before, after, drive, cyl)
  {
    SeekStays(sought, after, home, drive, None);
    SeekStays(sought, after, |sought|, drive, Some(cyl));
    assert PositionedAt(after, drive, cyl, home, |sought|);
  }

  lemma SeekStays(s: seq<Entry>, t: seq<Entry>, n: nat, drive: byte, cyl: Option<byte>)
    requires s <= t && SeekComplete(s, n, drive, cyl)
    ensures SeekComplete(t, n, drive, cyl)
  {
    assert t[n - 2] == s[n - 2] && t[n - 1] == s[n - 1];
  }

  /** The command sent from the position that was sought. */
  lemma SentFrom(before: View, sought: View, after: View, home: nat, op: byte, params: seq<byte>, sent: bool,
                 drive: byte, cyl: byte)
    requires CutLaw(before, sought) && CutLaw(sought, after) && !sought.inData && Extends(before.script, sought.script)
    requires |before.script| < home < |sought.script|
    requires SeekComplete(sought.script, home, drive, None)
    requires SeekComplete(sought.script, |sought.script|, drive, Some(cyl))
    requires if sent then
               && Issued(sought.script, after.script, op, params)
               && (|after.script| == |sought.script| + 1 || after.script[|sought.script|] == Reset)
             else Extends(sought.script, after.script)
    ensures CutLaw(before, after)
    ensures if sent then Issued(before.script, after.script, op, params) && Positioned(before.script, after.script, drive, cyl)
            else Extends(before.script, after.script)
  {
    if sent {
      IssuedTrans(before.script, sought.script, after.script, op, params);
      PositionedBy(before.script, home, sought.script, after.script, drive, cyl);
    } else {
      ExtendsTrans(before.script, sought.script, after.script);
    }
    CutLawTrans(before, sought, after);
  }

  lemma PositionedEarlier(first: seq<Entry>, before: seq<Entry>, after: seq<Entry>, drive: byte, cyl: byte)
    requires Positioned(before, after, drive, cyl) && |first| <= |before|
    ensures Positioned(first, after, drive, cyl)
  {
    var m: nat, n: nat :| |before| < m && PositionedAt(after, drive, cyl, m, n);
    assert |first| < m;
  }

  /** The request `(ptr, len)` as `disk::read` and `disk::write` cast it. */
  function CheckRequest(ptr: nat, len: nat): Verdict {
    Check(ptr % MOD16, len / SECTOR_SIZE % MOD16)
  }

  predicate Refused(ptr: nat, len: nat) {
    CheckRequest(ptr, len) != Accept
  }

  function RequestParams(drive: bool, ptr: nat, len: nat): seq<byte> {
    TransferParams(drive, ptr % MOD16, len / SECTOR_SIZE % MOD16)
  }

  /** Seven result bytes without an error bit. */
  ghost predicate StatusClean(st: seq<byte>) {
    |st| == 7 && StatusError(st[0], st[1], st[2]).None?
  }

  /** The last command ends with seven result bytes whose first three call for `e`. */
  ghost predicate StatusSays(script: seq<Entry>, e: FloppyError) {
    && script != [] && script[|script| - 1].Cmd?
    && var got := script[|script| - 1].got;
       |got| >= 7 && e.ReadOrWrite? && StatusError(got[|got| - 7], got[|got| - 6], got[|got| - 5]) == Some(e.disk)
  }

  /** Why an attempt at an accepted transfer did not succeed: the hardware was at fault, or the drive
      reported an error after the data. */
  ghost predicate Caused(t: Transfer, before: View, after: View)
    requires before.View? && after.View?
  {
    && (Retries(t) ==> after.faults > before.faults)
    && (t.Abort? ==> after.faults > before.faults || StatusSays(after.script, t.error))
  }

  /** The failures after which a read gives up at once and leaves the driver enabled. */
  predicate StatusFailure(e: DiskError) {
    e.FifoTimeout? || e.NotWritable? || e.BadSt0Bits? || e.DriveNotReady? || e.NoDataFound?
    || e.ControllerTimeout? || e.EndOfCylinder? || e.CRCError? || e.BadCylinder?
    || e.DifferingCylinder? || e.NoAddressMark?
  }

  /** The script ends with a complete read command whose result is `data` and a clean status,
      after nothing but attempts at the same read. */
  ghost predicate ReadComplete(before: seq<Entry>, after: seq<Entry>, ps: seq<byte>, data: seq<byte>) {
    after != [] &&
    var tries, last := after[..|after| - 1], after[|after| - 1];
    && Attempts(before, tries, READ_DATA, ps, [])
    && last.Cmd? && last.op == READ_DATA && last.params == ps && last.sent == []
    && data <= last.got && StatusClean(last.got[|data|..])
  }

  /** Likewise for a write of `data`. */
  ghost predicate WriteComplete(before: seq<Entry>, after: seq<Entry>, ps: seq<byte>, data: seq<byte>) {
    && after != []
    && after[|after| - 1] == Cmd(WRITE_DATA, ps, data, [])
    && Attempts(before, after[..|after| - 1], WRITE_DATA, ps, data)
  }

  lemma AttemptsTrans(first: seq<Entry>, before: seq<Entry>, after: seq<Entry>,
                      op: byte, ps: seq<byte>, buf: seq<byte>)
    requires Attempts(first, before, op, ps, buf) && Attempts(before, after, op, ps, buf)
    ensures Attempts(first, after, op, ps, buf)
  {
    assert forall i | |first| <= i < |before| :: after[i] == before[i];
  }

  /** One more attempt: the command was issued and its last entry has since collected bytes. */
  lemma AttemptsMore(before: seq<Entry>, issued: seq<Entry>, after: seq<Entry>,
                     op: byte, ps: seq<byte>, buf: seq<byte>)
    requires Issued(before, issued, op, ps)
    requires |after| == |issued| && after[..|after| - 1] == issued[..|issued| - 1]
    requires var e := after[|after| - 1]; e.Cmd? && e.op == op && e.params == ps && e.sent <= buf
    ensures Attempts(before, after, op, ps, buf) && Attempts(before, after[..|after| - 1], op, ps, buf)
  {
    assert after == after[..|after| - 1] + [after[|after| - 1]];
  }

  /** The errors `send_command` gives for `op` with `n` parameters. */
  predicate CommandError(e: FloppyError, op: byte, n: nat) {
    && e.SendCommandError? && e.cmd.op == op
    && (e.cmd.BadParameter? ==> e.cmd.idx < n)
  }

  /** The status a sense interrupt must report in each state. */
  predicate SenseAccepts(state: SenseIntState, st0: byte, drive: byte) {
    match state
    case SeekOrRecal => st0 as int == 0x20 + drive
    case FirstReset => st0 as int == 0xC0 + drive
    case OtherReset => st0 != 0x80
  }

  /** Why a status is not accepted: 0x80 alone is a lock-up, anything else depends on the state. */
  function SenseError(state: SenseIntState, st0: byte): SenseIntError {
    if st0 == 0x80 then ControllerLockup else if state == SeekOrRecal then ResendCommand else UnknownError
  }

  /** Entry `i` is a sense interrupt with both result bytes. */
  predicate SenseReported(script: seq<Entry>, i: nat) {
    && i < |script| && script[i].Cmd? && script[i].op == SENSE_INTERRUPT && |script[i].got| == 2
  }

  /** `error` is what the status in entry `i` calls for. A lock-up after a seek is answered by a reset,
      whose own error may come instead. */
  predicate SenseRejects(state: SenseIntState, script: seq<Entry>, i: nat, error: SenseIntError, drive: byte)
    requires SenseReported(script, i)
  {
    var st0 := script[i].got[0];
    && !SenseAccepts(state, st0, drive)
    && if state == SeekOrRecal && st0 == 0x80 then |script| > i + 1 && script[i + 1] == Reset && error != ResendCommand
       else |script| == i + 1 && error == SenseError(state, st0)
  }

  /** The errors of `init_fdc`. */
  predicate ResetFailure(e: FloppyError) {
    && !e.ReadOrWrite? && (e.SenseInterruptError? ==> e.sense == ControllerLockup || e.sense == UnknownError)
    && (e.SendCommandError? ==> e.cmd.op == CONFIGURE || e.cmd.op == SPECIFY)
  }

  /** The first `n` entries end with a seek or recalibrate and a sense interrupt reporting its success. */
  ghost predicate SeekComplete(script: seq<Entry>, n: nat, drive: byte, cyl: Option<byte>) {
    && 2 <= n <= |script|
    && script[n - 2] == (if cyl.Some? then Cmd(SEEK, [drive, cyl.value], [], [])
                         else Cmd(RECALIBRATE, [drive], [], []))
    && SenseReported(script, n - 1) && SenseAccepts(SeekOrRecal, script[n - 1].got[0], drive)
  }

  /** Step rate 8 ms, head load time 10 ms and no DMA, at 1000 and 500 kbps. */
  function SpecifyParams(space: nat): seq<byte> {
    if space == 2880 then [0x00, 0x15] else [0x80, 0x0B]
  }

  /** The CCR value for a drive's capacity: 500 kbps, or 1000 kbps for 2880 KB. */
  function RateOf(space: nat): byte {
    if space == 2880 then 3 else 0
  }

  ghost predicate Steady(before: View, after: View) {
    && before.View? && after.View?
    && after.cuts == before.cuts && after.lockups == before.lockups && after.resets == before.resets
    && before.faults <= after.faults
  }

  /** The data phase of an issued transfer touches its own entry alone. */
  ghost predicate DataPhase(issued: View, after: View) {
    && Steady(issued, after)
    && |after.script| == |issued.script| > 0
    && after.script[..|after.script| - 1] == issued.script[..|issued.script| - 1]
  }

  /** What holds of the command as issued holds of it after the data phase. */
  lemma AfterData(before: View, issued: View, after: View, op: byte, ps: seq<byte>, buf: seq<byte>)
    requires DataPhase(issued, after) && CutLaw(before, issued) && Issued(before.script, issued.script, op, ps)
    requires var e := after.script[|after.script| - 1]; e.Cmd? && e.op == op && e.params == ps && e.sent <= buf
    ensures CutLaw(before, after)
    ensures Attempts(before.script, after.script, op, ps, buf)
    ensures Attempts(before.script, after.script[..|after.script| - 1], op, ps, buf)
  {
    AttemptsMore(before.script, issued.script, after.script, op, ps, buf);
    var k, n := |before.script|, |after.script| - 1;
    if k < n {
      assert after.script[k] == after.script[..n][k] == issued.script[..n][k] == issued.script[k];
    }
  }

  /** The controller answered the version command with something other than 0x90. */
  ghost predicate OtherVersion(script: seq<Entry>, e: FloppyError) {
    && e == UnsupportedVersion && script != [] && script[|script| - 1].Cmd?
    && var last := script[|script| - 1]; last.op == VERSION && |last.got| == 1 && last.got[0] != 0x90
  }

  /** Start-up in the order of the source, between `before` and entry `end`: version 0x90, configure, reset,
      and specify for the capacity. */
  ghost predicate StartedUp(before: seq<Entry>, after: seq<Entry>, end: nat, space: nat) {
    exists i: nat, j: nat, k: nat, l: nat :: |before| <= i && l < end && StartedAt(after, space, i, j, k, l)
  }

  ghost predicate StartedAt(after: seq<Entry>, space: nat, i: nat, j: nat, k: nat, l: nat) {
    && i < j < k < l < |after| && after[i] == Cmd(VERSION, [], [], [0x90])
    && after[j] == Cmd(CONFIGURE, [0, 0x57, 0], [], []) && after[k] == Reset
    && after[l] == Cmd(SPECIFY, SpecifyParams(space), [], [])
  }

  lemma StartedBy(before: seq<Entry>, s1: seq<Entry>, s2: seq<Entry>, s3: seq<Entry>, space: nat)
    requires before < s1 && s1[|s1| - 1] == Cmd(VERSION, [], [], [0x90])
    requires Issued(s1, s2, CONFIGURE, [0, 0x57, 0]) && Restarted(s2, s3)
    requires s3[|s3| - 1] == Cmd(SPECIFY, SpecifyParams(space), [], [])
    ensures StartedUp(before, s3, |s3|, space)
  {
    assert s3[|s1| - 1] == s2[|s1| - 1] == s1[|s1| - 1] && s3[|s2| - 1] == s2[|s2| - 1];
    assert StartedAt(s3, space, |s1| - 1, |s2| - 1, |s2|, |s3| - 1);
  }

  /** What follows start-up does not undo it. */
  lemma StartedStays(before: seq<Entry>, after: seq<Entry>, later: seq<Entry>, end: nat, space: nat)
    requires StartedUp(before, after, |after|, space) && after <= later && |after| <= end
    ensures StartedUp(before, later, end, space)
  {
    var i: nat, j: nat, k: nat, l: nat :| |before| <= i && l < |after| && StartedAt(after, space, i, j, k, l);
    assert StartedAt(later, space, i, j, k, l);
  }

  class Fdc {
    /** DRIVE_ONE and FLOPPY_SPACE. */
    const drive: bool
    const space: nat

    /** Ready transfers the hardware will still grant. */
    var grants: nat
    var motor: Motor.State
    /** FLOPPY_INIT, READ_BYTES and WRITTEN_BYTES. */
    var floppyInit: bool
    var readBytes: nat
    var writtenBytes: nat

    /** Everything that crossed the bus, what the controller made of it, the deepest nesting of
        `send_command` so far, and whether a stopped motor was ever told to stop. */
    ghost var bus: seq<Event>
    ghost var view: View
    ghost var peak: nat
    ghost var stray: bool

    function DriveNum(): byte { if drive then 1 else 0 }

    ghost predicate DorSane() reads this {
      motor.dor == Motor.OnCommand(drive) || motor.dor == Motor.OffCommand(drive)
    }

    /** The bookkeeping of the motor is right, and every FIFO transfer so far found it running, unless
        a stopped motor has been told to stop. */
    ghost predicate MotorKnown() reads this {
      !stray ==>
        && (motor.mode == Motor.Off <==> motor.dor == Motor.OffCommand(drive))
        && (motor.mode == Motor.Disabling ==> motor.left <= Motor.TIMEOUT)
        && MotorThroughout(bus)
    }

    /** In terms of the motor's own invariant. */
    lemma MotorAgrees()
      requires Valid() && !stray
      ensures Motor.Agrees(motor, drive) && MotorThroughout(bus)
    {
    }

    /** No protocol violation has ever happened and no reset pulse is in progress. */
    ghost predicate Valid() reads this {
      Observed(bus, view) && view.View? && view.restore.None? && view.dor == motor.dor && DorSane()
      && view.drive == DriveNum()
      && MotorKnown() && readBytes < MOD64 && writtenBytes < MOD64
    }

    /** Moreover the controller is not waiting for parameters. */
    ghost predicate Ready() reads this {
      Valid() && view.open.NoCommand?
    }

    /** The point in `init` after the base address is known and the motor has been switched on. */
    constructor (drive: bool, space: nat, grants: nat)
      ensures this.drive == drive && this.space == space && this.grants == grants
      ensures Ready() && !floppyInit && readBytes == writtenBytes == 0 && peak == 0 && !stray
      ensures bus == [Dor(Motor.OnCommand(drive))] && view.script == [] && view.since == Settled
      ensures view.cuts == view.lockups == view.faults == 0
    {
      this.drive, this.space, this.grants := drive, space, grants;
      motor := Motor.State(Motor.On, 0, Motor.OnCommand(drive));
      floppyInit, readBytes, writtenBytes, peak, stray := false, 0, 0, 0, false;
      var e := Dor(Motor.OnCommand(drive));
      bus := [e];
      view := Step(PowerOn(if drive then 1 else 0), e);
      new;
      ObservedFirst(if drive then 1 else 0, e);
    }

    ghost method Emit(e: Event)
      requires Observed(bus, view) && view.View?
      modifies `bus, `view
      ensures bus == old(bus) + [e]
      ensures view == Step(old(view), e) && Observed(bus, view)
      ensures old(MotorThroughout(bus)) && (IsFifo(e) ==> MotorOn(old(view.dor))) ==> MotorThroughout(bus)
    {
      if MotorThroughout(bus) && (IsFifo(e) ==> MotorOn(view.dor)) {
        MotorMore(bus, view, e);
      }
      ObservedAppend(bus, view, e);
      bus := bus + [e];
      view := Step(view, e);
    }

    /** An event that leaves the DOR alone, as seen from a state that differs in the DOR only. */
    ghost method EmitSame(e: Event, before: View)
      requires Observed(bus, view) && Same(view, before) && Step(before, e).View? && !e.Dor?
      modifies `bus, `view
      ensures bus == old(bus) + [e] && Observed(bus, view) && Same(view, Step(before, e))
      ensures view.dor == old(view.dor) && view.restore == old(view.restore) && view.drive == old(view.drive)
      ensures old(MotorThroughout(bus)) && (IsFifo(e) ==> MotorOn(old(view.dor))) ==> MotorThroughout(bus)
    {
      StepSame(view, before, e);
      Emit(e);
    }

    // ----- motor.rs, as the driver sees it

    /** Any number of timer ticks go by. A motor that is on is left alone; at most one DOR write
        stops one that is not. */
    method Elapse()
      requires Observed(bus, view) && view.View? && view.dor == motor.dor
      requires motor.mode == Motor.On || Valid()
      modifies `motor, `bus, `view
      ensures old(motor.mode) == Motor.On ==> motor == old(motor) && bus == old(bus) && view == old(view)
      ensures old(Valid()) ==> Valid()
      ensures Same(view, old(view))
      ensures bus == old(bus) || bus == old(bus) + [Dor(Motor.OffCommand(drive))]
      ensures old(motor.mode) == Motor.Off ==> motor.mode == Motor.Off
    {
      var ticks: nat := *;
      while ticks > 0
        invariant old(motor.mode) == Motor.On ==> motor == old(motor) && bus == old(bus) && view == old(view)
        invariant motor.mode == Motor.On || Valid()
        invariant old(Valid()) ==> Valid()
        invariant Same(view, old(view))
        invariant bus == old(bus) || (motor.mode == Motor.Off && bus == old(bus) + [Dor(Motor.OffCommand(drive))])
        invariant old(motor.mode) == Motor.Off ==> motor.mode == Motor.Off
      {
        Tick();
        ticks := ticks - 1;
      }
    }

    /** One timer tick. */
    method Tick()
      requires Observed(bus, view) && view.View? && view.dor == motor.dor
      requires motor.mode == Motor.On || Valid()
      modifies `motor, `bus, `view
      ensures motor == Motor.Tick(old(motor), drive)
      ensures old(Valid()) ==> Valid()
      ensures motor.mode == old(motor.mode) ==> bus == old(bus) && view == old(view)
      ensures motor.mode != old(motor.mode) ==>
        Same(view, old(view)) && bus == old(bus) + [Dor(Motor.OffCommand(drive))]
    {
      var next := Motor.Tick(motor, drive);
      if motor.mode == Motor.Disabling && next.mode == Motor.Off {
        Emit(Dor(next.dor));
      }
      motor := next;
    }

    method EnableMotor()
      requires Valid()
      modifies `motor, `bus, `view
      ensures Valid() && motor.mode == Motor.On && Same(view, old(view)) && old(bus) <= bus
      ensures !stray ==> MotorOn(view.dor)
    {
      if motor.mode == Motor.Off {
        Emit(Dor(Motor.OnCommand(drive)));
      }
      motor := Motor.Enable(motor, drive);
    }

    /** Telling a stopped motor to stop leaves a state that claims it is running down. */
    method DisableMotor()
      requires Valid()
      modifies `motor, `stray
      ensures Valid() && motor == Motor.Disable(old(motor))
      ensures stray == (old(stray) || old(motor.mode) == Motor.Off)
    {
      stray := stray || motor.mode == Motor.Off;
      motor := Motor.Disable(motor);
    }

    /** Ticks, and then the `disable_motor` that closes an operation. */
    method CloseMotor()
      requires Valid()
      modifies `motor, `bus, `view, `stray
      ensures Valid() && Same(view, old(view))
      ensures bus == old(bus) || bus == old(bus) + [Dor(Motor.OffCommand(drive))]
      ensures old(motor.mode) == Motor.Off ==> stray
    {
      Elapse();
      DisableMotor();
    }

    /** Ticks, and then the motor is switched on for a transfer. */
    method SpinUp()
      requires Valid()
      modifies `motor, `bus, `view
      ensures Valid() && motor.mode == Motor.On && Same(view, old(view)) && old(bus) <= bus
      ensures !stray ==> MotorOn(view.dor)
    {
      Elapse();
      EnableMotor();
    }

    // ----- fifo.rs

    method SendByte(e: Event) returns (r: Outcome<FloppyError>)
      requires Valid() && (e.Opcode? || e.Param? || e.Data?) && Step(view, e).View?
      modifies `grants, `motor, `bus, `view, `stray
      ensures Valid() && old(bus) <= bus && stray == old(stray)
      ensures r.Pass? ==> Same(view, Step(old(view), e)) && grants == old(grants) - 1
      ensures r.Fail? ==>
        Same(view, Late(old(view))) && grants == old(grants) && r.error == FifoWrite(FifoByte(e))
    {
      SpinUp();
      var ready: bool := *;
      if ready && grants > 0 {
        grants := grants - 1;
        EmitSame(e, old(view));
        r := Pass;
      } else {
        EmitSame(Timeout, old(view));
        r := Fail(FifoWrite(FifoByte(e)));
      }
      DisableMotor();
    }

    method ReadByte() returns (r: Outcome<FloppyError>, b: byte)
      requires Valid() && CanRead(view)
      modifies `grants, `motor, `bus, `view, `stray
      ensures Valid() && old(bus) <= bus && stray == old(stray)
      ensures r.Pass? ==> Same(view, Step(old(view), Got(b))) && grants == old(grants) - 1
      ensures r.Fail? ==> Same(view, Late(old(view))) && grants == old(grants) && r.error == FifoRead
    {
      SpinUp();
      var ready: bool := *;
      b := *;
      if ready && grants > 0 {
        grants := grants - 1;
        DisableMotor();
        EmitSame(Got(b), old(view));
        r := Pass;
      } else {
        EmitSame(Timeout, old(view));
        DisableMotor();
        r := Fail(FifoRead);
      }
    }

    /** `send_command`: up to five attempts, each failure answered by a controller reset that may
        itself send commands. `depth` is the number of `send_command` calls already active. */
    method SendCommand(op: byte, params: seq<byte>, ghost depth: nat) returns (r: Outcome<FloppyError>)
      requires Ready() && IsCommand(op) && |params| == Arity(op)
      requires (op == CONFIGURE ==> ConfigureDue(view.since)) && (op == SPECIFY ==> view.rate.Some?)
      modifies `grants, `motor, `floppyInit, `bus, `view, `peak, `stray
      ensures Ready() && old(bus) <= bus && grants <= old(grants)
      ensures LatchKept(old(floppyInit), old(view), floppyInit, view) && CutLaw(old(view), view)
      ensures r.Pass? ==> Issued(old(view.script), view.script, op, params)
      ensures r.Pass? ==> |view.script| == |old(view.script)| + 1 || view.script[|old(view.script)|] == Reset
      ensures r.Pass? ==> grants + 1 + |params| <= old(grants)
      ensures r.Pass? && (op == CONFIGURE || old(view.since) == Settled) ==> view.since == Settled
      ensures r.Pass? && op != SENSE_INTERRUPT ==> !view.since.Sensing?
      ensures r.Pass? ==> view.inData ==> IsTransferOp(op)
      ensures r.Fail? ==> CommandError(r.error, op, |params|) && Extends(old(view.script), view.script)
      ensures r.Fail? ==> !view.inData && view.faults > old(view.faults) && view.resets > old(view.resets)
      ensures r.Fail? && !r.error.cmd.ResetError? ==>
        view.resets >= old(view.resets) + 5 && view.faults >= old(view.faults) + 5
      ensures r.Pass? ==> view.rate == old(view.rate) || view.rate == Some(RateOf(space))
      ensures DepthBound(old(peak), peak, depth + 1, old(grants))
      decreases grants, 7
    {
      peak := Max(peak, depth + 1);
      r := Pass;
      var attempt := 0;
      while attempt < RETRIES
        invariant 0 <= attempt <= RETRIES
        invariant Ready() && old(bus) <= bus && grants <= old(grants)
        invariant attempt > 0 ==> r.Fail? && CommandError(r.error, op, |params|)
        invariant LatchKept(old(floppyInit), old(view), floppyInit, view) && Resending(old(view), view, attempt)
        invariant view.rate == old(view.rate) || view.rate == Some(RateOf(space))
        invariant DepthBound(old(peak), peak, depth + 1, old(grants))
      {
        var again;
        r, again := SendAgain(op, params, depth, old(view), attempt);
        if !again { return; }
        attempt := attempt + 1;
      }
    }

    /** A pass as part of a `send_command` that began at `first` and has made `attempt` passes so far. */
    method SendAgain(op: byte, params: seq<byte>, ghost depth: nat, ghost first: View, ghost attempt: nat)
      returns (r: Outcome<FloppyError>, again: bool)
      requires Ready() && IsCommand(op) && |params| == Arity(op) && Resending(first, view, attempt)
      requires (op == CONFIGURE ==> ConfigureDue(view.since)) && (op == SPECIFY ==> view.rate.Some?)
      modifies `grants, `motor, `floppyInit, `bus, `view, `peak, `stray
      ensures Ready() && old(bus) <= bus && grants <= old(grants)
      ensures LatchKept(old(floppyInit), old(view), floppyInit, view) && CutLaw(first, view)
      ensures r.Pass? ==>
        && !again && Issued(first.script, view.script, op, params) && grants + 1 + |params| <= old(grants)
        && (|view.script| == |first.script| + 1 || view.script[|first.script|] == Reset)
        && view.since == SinceOpcode(old(view.since), op) && (view.inData ==> IsTransferOp(op))
        && view.rate == old(view.rate)
      ensures r.Fail? ==>
        && CommandError(r.error, op, |params|) && (again <==> !r.error.cmd.ResetError?)
        && Extends(first.script, view.script) && !view.inData
        && view.resets > first.resets && view.faults > first.faults
      ensures again ==> Resending(first, view, attempt + 1) && view.rate == Some(RateOf(space))
      ensures DepthBound(old(peak), peak, depth + 1, old(grants))
      decreases grants, 6
    {
      ghost var before := view;
      r, again := SendOrReset(op, params, depth);
      Resent(first, before, view, attempt, op, params, r);
    }

    /** One pass of the retry loop: the command, and a reset if it cannot be sent. Only a failed reset
        ends the loop early. */
    method SendOrReset(op: byte, params: seq<byte>, ghost depth: nat) returns (r: Outcome<FloppyError>, again: bool)
      requires Ready() && IsCommand(op) && |params| == Arity(op)
      requires (op == CONFIGURE ==> ConfigureDue(view.since)) && (op == SPECIFY ==> view.rate.Some?)
      modifies `grants, `motor, `floppyInit, `bus, `view, `peak, `stray
      ensures Ready() && old(bus) <= bus && grants <= old(grants)
      ensures LatchKept(old(floppyInit), old(view), floppyInit, view) && CutLaw(old(view), view)
      ensures r.Pass? ==>
        && !again && Issued(old(view.script), view.script, op, params) && |view.script| == |old(view.script)| + 1
        && grants + 1 + |params| <= old(grants)
        && view.since == SinceOpcode(old(view.since), op) && (view.inData ==> IsTransferOp(op))
        && view.rate == old(view.rate)
      ensures r.Fail? ==>
        && CommandError(r.error, op, |params|) && (again <==> !r.error.cmd.ResetError?)
        && Restarted(old(view.script), view.script) && !view.inData
        && view.resets > old(view.resets) && view.faults > old(view.faults)
        && (again ==> view.since == Settled && view.rate == Some(RateOf(space)))
      ensures DepthBound(old(peak), peak, depth + 1, old(grants))
      decreases grants, 5
    {
      r := SendCommandOnce(op, params);
      again := r.Fail?;
      if r.Fail? {
        var reset := InitFdc(depth + 1);
        if reset.Fail? {
          return Fail(SendCommandError(ResetError(op))), false;
        }
      }
    }

    /** The opcode and then each parameter. */
    method SendCommandOnce(op: byte, params: seq<byte>) returns (r: Outcome<FloppyError>)
      requires Ready() && IsCommand(op) && |params| == Arity(op)
      requires (op == CONFIGURE ==> ConfigureDue(view.since)) && (op == SPECIFY ==> view.rate.Some?)
      modifies `grants, `motor, `bus, `view, `stray
      ensures Valid() && old(bus) <= bus && grants <= old(grants)
      ensures view.lockups == old(view.lockups) && view.resets == old(view.resets) && view.rate == old(view.rate)
      ensures view.faults == old(view.faults) + if r.Fail? then 1 else 0
      ensures r.Pass? ==> view.open.NoCommand? && view.script == AddCmd(old(view.script), op, params)
      ensures r.Pass? ==> grants + 1 + |params| == old(grants)
      ensures r.Pass? ==> view.since == SinceOpcode(old(view.since), op) && (view.inData ==> IsTransferOp(op))
      ensures r.Fail? ==> CommandError(r.error, op, |params|) && !r.error.cmd.ResetError?
      ensures r.Fail? ==> view.script == old(view.script)
      ensures r.Fail? && r.error.cmd.BadCommand? ==> view.open.NoCommand? && grants == old(grants)
      ensures r.Fail? && r.error.cmd.BadParameter? ==>
        view.open == Collecting(op, params[..r.error.cmd.idx]) && grants + 1 + r.error.cmd.idx == old(grants)
      ensures view.cuts == if r.Fail? && r.error.cmd.BadCommand? then old(view.cuts) else Cuts(old(view), Opcode(op))
    {
      var sent := SendByte(Opcode(op));
      if sent.Fail? {
        return Fail(SendCommandError(BadCommand(op)));
      }
      r := SendParams(op, params);
    }

    /** The parameters, once the opcode has been taken. */
    method SendParams(op: byte, params: seq<byte>) returns (r: Outcome<FloppyError>)
      requires Valid() && |params| == Arity(op)
      requires if params == [] then view.open.NoCommand? else view.open == Collecting(op, [])
      modifies `grants, `motor, `bus, `view, `stray
      ensures Valid() && old(bus) <= bus
      ensures view.since == old(view.since) && view.cuts == old(view.cuts)
      ensures view.lockups == old(view.lockups) && view.resets == old(view.resets) && view.rate == old(view.rate)
      ensures view.faults == old(view.faults) + if r.Fail? then 1 else 0
      ensures r.Pass? && params == [] ==> view == old(view) && grants == old(grants)
      ensures r.Pass? && params != [] ==>
        && view.open.NoCommand? && view.script == AddCmd(old(view.script), op, params)
        && grants + |params| == old(grants) && (view.inData ==> IsTransferOp(op))
      ensures r.Fail? ==>
        && r.error.SendCommandError? && r.error.cmd.BadParameter? && r.error.cmd.op == op
        && r.error.cmd.idx < |params| && grants + r.error.cmd.idx == old(grants)
        && view.open == Collecting(op, params[..r.error.cmd.idx]) && view.script == old(view.script)
    {
      var idx := 0;
      while idx < |params|
        invariant 0 <= idx <= |params| && (idx == 0 ==> view == old(view))
        invariant Valid() && old(bus) <= bus && grants + idx == old(grants)
        invariant view.since == old(view.since) && view.cuts == old(view.cuts)
        invariant view.lockups == old(view.lockups) && view.resets == old(view.resets) && view.rate == old(view.rate)
        invariant view.faults == old(view.faults)
        invariant idx < |params| ==>
          view.open == Collecting(op, params[..idx]) && view.script == old(view.script)
        invariant 0 < idx == |params| ==>
          && view.open.NoCommand? && view.script == AddCmd(old(view.script), op, params)
          && (view.inData ==> IsTransferOp(op))
      {
        var sent := SendByte(Param(params[idx]));
        if sent.Fail? {
          return Fail(SendCommandError(BadParameter(op, idx)));
        }
        assert params[..idx] + [params[idx]] == params[..idx + 1];
        assert params[..|params|] == params;
        idx := idx + 1;
      }
      return Pass;
    }

    /** The traffic of a sense interrupt: the opcode and two result bytes, of which ST0 matters. */
    method SenseTraffic() returns (r: Outcome<FloppyError>, st0: byte)
      requires Ready() && !view.inData
      requires view.since.Sensing? ==> view.since.owed == 0 && view.since.done < 4
      modifies `grants, `motor, `bus, `view, `stray
      ensures Ready() && old(bus) <= bus && grants <= old(grants)
      ensures Extends(old(view.script), view.script) && !view.inData && view.cuts == old(view.cuts)
      ensures r.Pass? ==>
        && grants + 3 == old(grants)
        && |view.script| == |old(view.script)| + 1
        && var e := view.script[|old(view.script)|];
           e.Cmd? && e.op == SENSE_INTERRUPT && |e.got| == 2 && e.got[0] == st0
      ensures r.Pass? && old(view.since).Sensing? ==> view.since == Sensing(old(view.since.done) + 1, 0)
      ensures r.Pass? && !old(view.since).Sensing? ==> view.since == old(view.since)
      ensures view.resets == old(view.resets)
      ensures view.faults == old(view.faults) + if r.Pass? && StatusFits(old(view.since), st0, DriveNum()) then 0 else 1
      ensures view.lockups == old(view.lockups) + if r.Pass? && old(view.since).Sensing? && st0 == 0x80 then 1 else 0
      ensures r.Fail? ==> r.error == FifoWrite(SENSE_INTERRUPT) || r.error == FifoRead
    {
      st0 := 0;
      r := SendByte(Opcode(SENSE_INTERRUPT));
      if r.Fail? { return; }
      r, st0 := SenseResults(old(view.since));
    }

    /** The two result bytes of a sense interrupt whose opcode was sent in state `since`. */
    method SenseResults(ghost since: Since) returns (r: Outcome<FloppyError>, st0: byte)
      requires Ready() && !view.inData && view.script != [] && view.script[|view.script| - 1] == Cmd(SENSE_INTERRUPT, [], [], [])
      requires if since.Sensing? then view.since == Sensing(since.done, 2) else view.since == since
      modifies `grants, `motor, `bus, `view, `stray
      ensures Ready() && old(bus) <= bus && grants <= old(grants) && !view.inData
      ensures view.cuts == old(view.cuts) && view.resets == old(view.resets)
      ensures var n := |old(view.script)| - 1;
              && |view.script| == n + 1 && view.script[..n] == old(view.script)[..n]
              && view.script[n].Cmd? && view.script[n].op == SENSE_INTERRUPT
              && (r.Pass? ==> |view.script[n].got| == 2 && view.script[n].got[0] == st0)
      ensures r.Pass? ==> grants + 2 == old(grants)
      ensures r.Pass? ==> view.since == if since.Sensing? then Sensing(since.done + 1, 0) else since
      ensures view.lockups == old(view.lockups) + if r.Pass? && since.Sensing? && st0 == 0x80 then 1 else 0
      ensures view.faults == old(view.faults) + if r.Pass? && StatusFits(since, st0, DriveNum()) then 0 else 1
      ensures r.Fail? ==> r.error == FifoRead
    {
      r, st0 := ReadByte();
      if r.Fail? { return; }
      var cylinder;
      r, cylinder := ReadByte();
    }

    /** `sense_int`, right after a seek or recalibrate, or as one of the four after a reset. After a
        seek a lock-up triggers a reset; during a reset it disables the driver. */
    method SenseInt(state: SenseIntState, ghost depth: nat) returns (r: Outcome<FloppyError>)
      requires Ready() && !view.inData && (state == SeekOrRecal <==> !view.since.Sensing?)
      requires view.since.Sensing? ==>
        view.since.owed == 0 && view.since.done < 4 && (state == FirstReset <==> view.since.done == 0)
      modifies `grants, `motor, `floppyInit, `bus, `view, `peak, `stray
      ensures Ready() && old(bus) <= bus && grants <= old(grants)
      ensures LatchKept(old(floppyInit), old(view), floppyInit, view)
      ensures Extends(old(view.script), view.script) && !view.inData && view.cuts == old(view.cuts)
      ensures r.Pass? ==>
        && grants + 3 == old(grants)
        && |view.script| == |old(view.script)| + 1
        && SenseReported(view.script, |old(view.script)|)
        && SenseAccepts(state, view.script[|old(view.script)|].got[0], DriveNum())
      ensures r.Fail? && r.error.SenseInterruptError? ==>
        && |view.script| > |old(view.script)| && SenseReported(view.script, |old(view.script)|)
        && SenseRejects(state, view.script, |old(view.script)|, r.error.sense, DriveNum())
      ensures r.Pass? && old(view.since).Sensing? ==> view.since == Sensing(old(view.since.done) + 1, 0)
      ensures r.Pass? && old(view.since) == Settled ==> view.since == Settled
      ensures r != Fail(SenseInterruptError(CommandFailed))
      ensures if r.Pass? then view.faults == old(view.faults) else view.faults > old(view.faults)
      ensures state == SeekOrRecal && view.lockups > old(view.lockups) ==> view.resets > old(view.resets)
      ensures r.Fail? ==> !r.error.ReadOrWrite? && (r.error.SendCommandError? ==> ResetFailure(r.error))
      ensures DepthBound(old(peak), peak, depth, old(grants))
      ensures state != SeekOrRecal ==> peak == old(peak)
      decreases grants, if state == SeekOrRecal then 4 else 0
    {
      var st0;
      r, st0 := SenseTraffic();
      if r.Fail? { return; }

      var seekRecalOk := st0 == 0x20 + DriveNum();
      var resetOrErr := st0 == 0xC0 + DriveNum();
      if (resetOrErr && state == FirstReset) || (seekRecalOk && state == SeekOrRecal) {
        r := Pass;
      } else if st0 == 0x80 {
        if state != SeekOrRecal {
          floppyInit := false;
        } else {
          r := InitFdc(depth);
          if r.Fail? { return; }
        }
        r := Fail(SenseInterruptError(ControllerLockup));
      } else if !seekRecalOk && state == SeekOrRecal {
        r := Fail(SenseInterruptError(ResendCommand));
      } else if resetOrErr && state == SeekOrRecal {
        r := Fail(SenseInterruptError(CommandFailed));
      } else if state == OtherReset {
        r := Pass;
      } else {
        r := Fail(SenseInterruptError(UnknownError));
      }
    }

    /** `seek`: recalibrate, or seek to a cylinder, then ask whether it worked. */
    method Seek(cyl: Option<byte>) returns (r: Outcome<FloppyError>)
      requires Ready()
      modifies `grants, `motor, `floppyInit, `bus, `view, `peak, `stray
      ensures Ready() && old(bus) <= bus && grants <= old(grants)
      ensures LatchKept(old(floppyInit), old(view), floppyInit, view) && CutLaw(old(view), view)
      ensures Extends(old(view.script), view.script) && !view.inData
      ensures r.Pass? ==>
        |view.script| >= |old(view.script)| + 2 && SeekComplete(view.script, |view.script|, DriveNum(), cyl)
      ensures r.Fail? ==> !r.error.ReadOrWrite? && !IsTransferError(r.error) && view.faults > old(view.faults)
      ensures r.Fail? ==> view.faults >= old(view.faults) + 5
                          || (if cyl.Some? then CommandError(r.error, SEEK, 2) else CommandError(r.error, RECALIBRATE, 1))
      ensures DepthBound(old(peak), peak, 1, old(grants))
    {
      r := Pass;
      var op := if cyl.Some? then SEEK else RECALIBRATE;
      var params := if cyl.Some? then [DriveNum(), cyl.value] else [DriveNum()];
      var attempt := 0;
      while attempt < RETRIES
        invariant Ready() && old(bus) <= bus && grants <= old(grants)
        invariant 0 <= attempt <= RETRIES && (attempt == 0 ==> view == old(view) && floppyInit == old(floppyInit))
        invariant attempt > 0 ==> r.Fail? && !r.error.ReadOrWrite? && !IsTransferError(r.error) && !view.inData
        invariant view.faults >= old(view.faults) + attempt
        invariant LatchKept(old(floppyInit), old(view), floppyInit, view) && CutLaw(old(view), view)
        invariant Extends(old(view.script), view.script)
        invariant DepthBound(old(peak), peak, 1, old(grants))
      {
        var sent;
        r, sent := SeekOnce(op, params);
        if r.Pass? || !sent { return; }
        attempt := attempt + 1;
      }
    }

    /** One pass of the retry loop of `seek`. A command that cannot be sent ends the loop. */
    method SeekOnce(op: byte, params: seq<byte>) returns (r: Outcome<FloppyError>, sent: bool)
      requires Ready() && (op == SEEK || op == RECALIBRATE) && |params| == Arity(op)
      modifies `grants, `motor, `floppyInit, `bus, `view, `peak, `stray
      ensures Ready() && old(bus) <= bus && grants <= old(grants)
      ensures LatchKept(old(floppyInit), old(view), floppyInit, view) && CutLaw(old(view), view)
      ensures Extends(old(view.script), view.script) && !view.inData
      ensures r.Pass? ==>
        var n := |view.script|;
        && n >= |old(view.script)| + 2 && view.script[n - 2] == Cmd(op, params, [], [])
        && SenseReported(view.script, n - 1) && SenseAccepts(SeekOrRecal, view.script[n - 1].got[0], DriveNum())
      ensures r.Fail? ==> !r.error.ReadOrWrite? && !IsTransferError(r.error) && view.faults > old(view.faults)
      ensures r.Fail? && !sent ==> CommandError(r.error, op, |params|)
      ensures DepthBound(old(peak), peak, 1, old(grants))
    {
      r := SendCommand(op, params, 0);
      sent := r.Pass?;
      if r.Fail? { return; }
      r := SenseInt(SeekOrRecal, 0);
    }

    // ----- reset.rs

    method SendConfigure(ghost depth: nat) returns (r: Outcome<FloppyError>)
      requires Ready() && ConfigureDue(view.since) && !view.inData
      modifies `grants, `motor, `floppyInit, `bus, `view, `peak, `stray
      ensures Ready() && old(bus) <= bus && grants <= old(grants)
      ensures LatchKept(old(floppyInit), old(view), floppyInit, view)
      ensures Extends(old(view.script), view.script) && !view.inData && view.cuts == old(view.cuts)
      ensures r.Pass? ==> view.since == Settled && Issued(old(view.script), view.script, CONFIGURE, [0, 0x57, 0])
      ensures r.Fail? ==> CommandError(r.error, CONFIGURE, 3) && view.faults > old(view.faults)
      ensures DepthBound(old(peak), peak, depth + 1, old(grants))
      decreases grants, 8
    {
      r := SendCommand(CONFIGURE, CONFIGURE_PARAMS, depth);
    }

    /** `init_fdc`: legal at any time, in particular with a command half sent or inside a data phase. */
    method InitFdc(ghost depth: nat) returns (r: Outcome<FloppyError>)
      requires Valid()
      modifies `grants, `motor, `floppyInit, `bus, `view, `peak, `stray
      ensures Ready() && old(bus) <= bus && grants <= old(grants)
      ensures LatchKept(old(floppyInit), old(view), floppyInit, view)
      ensures Restarted(old(view.script), view.script) && !view.inData && view.cuts == old(view.cuts)
      ensures view.resets > old(view.resets)
      ensures r.Pass? ==> view.since == Settled && grants + 12 <= old(grants) && space in {1200, 1440, 2880}
      ensures r.Pass? ==> view.script[|view.script| - 1] == Cmd(SPECIFY, SpecifyParams(space), [], [])
      ensures r.Pass? ==> view.rate == Some(RateOf(space))
      ensures r.Fail? ==> ResetFailure(r.error)
      ensures r.Fail? ==> view.faults > old(view.faults) || (r.error == UnsupportedCapacity && space !in {1200, 1440, 2880})
      ensures DepthBound(old(peak), peak, depth, old(grants))
      decreases grants, 3
    {
      Elapse();
      EnableMotor();
      PulseReset();
      r := AfterPulse(depth);
    }

    /** `init_fdc` once the reset pulse is over. */
    method AfterPulse(ghost depth: nat) returns (r: Outcome<FloppyError>)
      requires Ready() && view.since == Sensing(0, 0) && !view.inData
      modifies `grants, `motor, `floppyInit, `bus, `view, `peak, `stray
      ensures Ready() && old(bus) <= bus && grants <= old(grants)
      ensures LatchKept(old(floppyInit), old(view), floppyInit, view)
      ensures Extends(old(view.script), view.script) && !view.inData && view.cuts == old(view.cuts)
      ensures r.Pass? ==> view.since == Settled && grants + 12 <= old(grants) && space in {1200, 1440, 2880}
      ensures r.Pass? ==>
        view.script != [] && view.script[|view.script| - 1] == Cmd(SPECIFY, SpecifyParams(space), [], [])
      ensures r.Pass? ==> view.rate == Some(RateOf(space))
      ensures r.Fail? ==> ResetFailure(r.error)
      ensures r.Fail? ==> view.faults > old(view.faults) || (r.error == UnsupportedCapacity && space !in {1200, 1440, 2880})
      ensures DepthBound(old(peak), peak, depth, old(grants))
      decreases grants, 2
    {
      ghost var script := view.script;
      r := SenseFour(depth);
      if r.Fail? { return; }
      ghost var sensed := view.script;
      r := ConfigureAndRate(depth);
      ExtendsTrans(script, sensed, view.script);
      if r.Fail? { return; }
      CloseMotor();
    }

    method ConfigureAndRate(ghost depth: nat) returns (r: Outcome<FloppyError>)
      requires Ready() && view.since == Sensing(4, 0) && !view.inData
      modifies `grants, `motor, `floppyInit, `bus, `view, `peak, `stray
      ensures Ready() && old(bus) <= bus && grants <= old(grants)
      ensures LatchKept(old(floppyInit), old(view), floppyInit, view)
      ensures Extends(old(view.script), view.script) && !view.inData && view.cuts == old(view.cuts)
      ensures r.Pass? ==> view.since == Settled && space in {1200, 1440, 2880} && view.rate == Some(RateOf(space))
      ensures r.Pass? ==>
        view.script != [] && view.script[|view.script| - 1] == Cmd(SPECIFY, SpecifyParams(space), [], [])
      ensures r.Fail? ==> ResetFailure(r.error)
      ensures r.Fail? ==> view.faults > old(view.faults) || (r.error == UnsupportedCapacity && space !in {1200, 1440, 2880})
      ensures DepthBound(old(peak), peak, depth + 1, old(grants))
      decreases grants, 10
    {
      ghost var script := view.script;
      r := SendConfigure(depth);
      if r.Fail? { return; }
      ghost var configured := view.script;
      r := SetDataRate(depth);
      ExtendsTrans(script, configured, view.script);
    }

    /** The end of `init_fdc`: the data rate, and the step rate and head load time that fit it. */
    method SetDataRate(ghost depth: nat) returns (r: Outcome<FloppyError>)
      requires Ready() && view.since == Settled && !view.inData
      modifies `grants, `motor, `floppyInit, `bus, `view, `peak, `stray
      ensures Ready() && old(bus) <= bus && grants <= old(grants)
      ensures LatchKept(old(floppyInit), old(view), floppyInit, view)
      ensures Extends(old(view.script), view.script) && !view.inData && view.cuts == old(view.cuts)
      ensures r == Fail(UnsupportedCapacity) <==> space !in {1200, 1440, 2880}
      ensures r.Pass? ==> view.since == Settled && Issued(old(view.script), view.script, SPECIFY, SpecifyParams(space))
      ensures r == Fail(UnsupportedCapacity) ==> bus == old(bus)
      ensures r != Fail(UnsupportedCapacity) ==>
        var ccr := [Ccr(RateOf(space))];
        old(bus) + ccr <= bus || old(bus) + [Dor(Motor.OffCommand(drive))] + ccr <= bus
      ensures r.Pass? ==> view.rate == Some(RateOf(space))
      ensures r.Fail? ==> r == Fail(UnsupportedCapacity) || (CommandError(r.error, SPECIFY, 2) && view.faults > old(view.faults))
      ensures DepthBound(old(peak), peak, depth + 1, old(grants))
      decreases grants, 9
    {
      var ccr, datarate;
      if space == 1200 || space == 1440 {
        ccr, datarate := 0, 500_000;
      } else if space == 2880 {
        ccr, datarate := 3, 1_000_000;
      } else {
        return Fail(UnsupportedCapacity);
      }
      WriteCcr(ccr);
      var srt := 16 - 8 * datarate / 500_000;
      var hlt := 10 * datarate / 1_000_000;
      r := SendCommand(SPECIFY, [srt * 16 % 0x100, hlt * 2 + 1], depth);
    }

    /** Ticks, and then a write to the configuration control register. */
    method WriteCcr(ccr: byte)
      requires Ready() && view.since == Settled
      modifies `motor, `bus, `view
      ensures Ready() && Same(view, Step(old(view), Ccr(ccr)))
      ensures bus == old(bus) + [Ccr(ccr)] || bus == old(bus) + [Dor(Motor.OffCommand(drive))] + [Ccr(ccr)]
    {
      Elapse();
      Emit(Ccr(ccr));
    }

    /** Clear the DOR's reset bit, wait, restore: ticks in between cannot touch the DOR because
        the motor is on. */
    method PulseReset()
      requires Valid() && motor.mode == Motor.On
      modifies `motor, `bus, `view
      ensures Ready() && old(bus) <= bus
      ensures bus == old(bus) + [Dor(0), Dor(old(motor.dor))]
      ensures view.since == Sensing(0, 0) && view.script == old(view.script) + [Reset]
      ensures view.cuts == old(view.cuts) && view.lockups == old(view.lockups) && !view.inData
      ensures view.resets == old(view.resets) + 1 && view.faults == old(view.faults)
    {
      var prev := motor.dor;
      motor := motor.(dor := 0);
      Emit(Dor(0));
      Elapse();
      motor := motor.(dor := prev);
      Emit(Dor(prev));
    }

    method SenseFour(ghost depth: nat) returns (r: Outcome<FloppyError>)
      requires Ready() && view.since == Sensing(0, 0) && !view.inData
      modifies `grants, `motor, `floppyInit, `bus, `view, `peak, `stray
      ensures Ready() && old(bus) <= bus && grants <= old(grants)
      ensures LatchKept(old(floppyInit), old(view), floppyInit, view)
      ensures Extends(old(view.script), view.script) && !view.inData && view.cuts == old(view.cuts)
      ensures r.Pass? ==> view.since == Sensing(4, 0) && grants + 12 == old(grants)
      ensures peak == old(peak)
      ensures r.Fail? ==> ResetFailure(r.error) && view.faults > old(view.faults)
      decreases grants, 1
    {
      r := SenseInt(FirstReset, depth);
      if r.Fail? { return; }
      r := SenseInt(OtherReset, depth);
      if r.Fail? { return; }
      r := SenseInt(OtherReset, depth);
      if r.Fail? { return; }
      r := SenseInt(OtherReset, depth);
    }

    // ----- disk.rs

    /** Polls the RQM bit until it is set or the wait times out. */
    method WaitForRqm() returns (r: Outcome<FloppyError>)
      requires Ready()
      modifies `bus, `view
      ensures Ready() && old(bus) <= bus
      ensures r.Pass? ==> view == old(view)
      ensures r.Fail? ==> r.error == ReadOrWrite(FifoTimeout) && view == Late(old(view))
    {
      var ready: bool := *;
      if ready {
        return Pass;
      }
      Emit(Timeout);
      r := Fail(ReadOrWrite(FifoTimeout));
    }

    /** `send_read_write`: check the address, recalibrate, seek, and issue the transfer command. */
    method SendReadWrite(op: byte, ptr: nat, sects: nat) returns (r: Outcome<FloppyError>)
      requires Ready() && IsTransferOp(op)
      modifies `grants, `motor, `floppyInit, `bus, `view, `peak, `stray
      ensures Ready() && old(bus) <= bus && grants <= old(grants)
      ensures LatchKept(old(floppyInit), old(view), floppyInit, view) && CutLaw(old(view), view)
      ensures r.Pass? ==> old(floppyInit) && Check(ptr, sects) == Accept
      ensures r.Pass? ==> Issued(old(view.script), view.script, op, TransferParams(drive, ptr, sects))
      ensures r.Pass? ==> Positioned(old(view.script), view.script, DriveNum(), LbaToChs(ptr).cyl)
      ensures r.Pass? ==> !view.since.Sensing?
      ensures r.Fail? ==> Extends(old(view.script), view.script) && (view == old(view) || !view.inData)
      ensures !old(floppyInit) || Check(ptr, sects) != Accept ==>
        && bus == old(bus) && view == old(view) && motor == old(motor)
        && floppyInit == old(floppyInit) && grants == old(grants)
        && r == Fail(ReadOrWrite(if old(floppyInit) then BadAddress(Check(ptr, sects)) else ControllerUninit))
      ensures r.Fail? && Check(ptr, sects) == Accept ==> NotAddress(r.error) && (old(floppyInit) ==> !view.inData)
      ensures r.Fail? && Check(ptr, sects) == Accept && old(floppyInit) ==>
        && view.faults > old(view.faults) && !IsTransferError(r.error)
        && (r.error == ReadOrWrite(SendCommandTimeout) ==>
              view.resets >= old(view.resets) + 5 && view.faults >= old(view.faults) + 5)
      ensures DepthBound(old(peak), peak, 1, old(grants))
    {
      if !floppyInit {
        return Fail(ReadOrWrite(ControllerUninit));
      }
      var verdict := Check(ptr, sects);
      if verdict != Accept {
        return Fail(ReadOrWrite(BadAddress(verdict)));
      }
      var attempt := 0;
      while attempt < SEEK_RETRIES
        invariant Ready() && old(bus) <= bus && grants <= old(grants)
        invariant 0 <= attempt <= SEEK_RETRIES && (attempt == 0 ==> view == old(view) && floppyInit == old(floppyInit))
        invariant attempt > 0 ==> !view.inData
        invariant view.resets >= old(view.resets) + attempt && view.faults >= old(view.faults) + attempt
        invariant LatchKept(old(floppyInit), old(view), floppyInit, view) && CutLaw(old(view), view)
        invariant Extends(old(view.script), view.script)
        invariant DepthBound(old(peak), peak, 1, old(grants))
      {
        ghost var before := view.script;
        var sent;
        r, sent := PositionAndSend(op, ptr, sects);
        if sent && r.Pass? {
          PositionedEarlier(old(view.script), before, view.script, DriveNum(), LbaToChs(ptr).cyl);
        }
        if r.Pass? || !sent { return; }
        attempt := attempt + 1;
      }
      r := Fail(ReadOrWrite(SendCommandTimeout));
    }

    /** One pass of the retry loop: recalibrate, seek, wait, send. Only a command that could not be sent
        is retried. */
    method PositionAndSend(op: byte, ptr: nat, sects: nat) returns (r: Outcome<FloppyError>, sent: bool)
      requires Ready() && IsTransferOp(op)
      modifies `grants, `motor, `floppyInit, `bus, `view, `peak, `stray
      ensures Ready() && old(bus) <= bus && grants <= old(grants)
      ensures LatchKept(old(floppyInit), old(view), floppyInit, view) && CutLaw(old(view), view)
      ensures r.Pass? ==> sent && Issued(old(view.script), view.script, op, TransferParams(drive, ptr, sects))
      ensures r.Pass? ==> Positioned(old(view.script), view.script, DriveNum(), LbaToChs(ptr).cyl)
      ensures r.Pass? ==> !view.since.Sensing?
      ensures r.Fail? ==> NotAddress(r.error) && Extends(old(view.script), view.script) && !view.inData
      ensures r.Fail? ==> view.faults > old(view.faults)
      ensures r.Fail? && sent ==> view.resets > old(view.resets)
      ensures r.Fail? && !sent ==> !IsTransferError(r.error) && r.error != ReadOrWrite(SendCommandTimeout)
      ensures DepthBound(old(peak), peak, 1, old(grants))
    {
      sent := false;
      ghost var before := view;
      ghost var home;
      r, home := Position(LbaToChs(ptr).cyl);
      if r.Fail? { return; }
      r := WaitForRqm();
      if r.Fail? { return; }
      sent := true;
      r := SendFrom(op, TransferParams(drive, ptr, sects), before, home, LbaToChs(ptr).cyl);
    }

    /** The transfer command, from the position that was sought since `before`. */
    method SendFrom(op: byte, params: seq<byte>, ghost before: View, ghost home: nat, ghost cyl: byte)
      returns (r: Outcome<FloppyError>)
      requires Ready() && IsTransferOp(op) && |params| == 8 && !view.inData
      requires CutLaw(before, view) && Extends(before.script, view.script) && |before.script| < home < |view.script|
      requires SeekComplete(view.script, home, DriveNum(), None)
      requires SeekComplete(view.script, |view.script|, DriveNum(), Some(cyl))
      modifies `grants, `motor, `floppyInit, `bus, `view, `peak, `stray
      ensures Ready() && old(bus) <= bus && grants <= old(grants)
      ensures LatchKept(old(floppyInit), old(view), floppyInit, view) && CutLaw(before, view)
      ensures r.Pass? ==> Issued(before.script, view.script, op, params) && !view.since.Sensing?
      ensures r.Pass? ==> Positioned(before.script, view.script, DriveNum(), cyl)
      ensures r.Fail? ==> CommandError(r.error, op, 8) && Extends(before.script, view.script) && !view.inData
      ensures r.Fail? ==> view.faults > old(view.faults) && view.resets > old(view.resets)
      ensures DepthBound(old(peak), peak, 1, old(grants))
    {
      ghost var sought := view;
      r := SendCommand(op, params, 0);
      SentFrom(before, sought, view, home, op, params, r.Pass?, DriveNum(), cyl);
    }

    /** Recalibrate and seek; `home` is where the recalibrate was complete. */
    method Position(cyl: byte) returns (r: Outcome<FloppyError>, ghost home: nat)
      requires Ready()
      modifies `grants, `motor, `floppyInit, `bus, `view, `peak, `stray
      ensures Ready() && old(bus) <= bus && grants <= old(grants)
      ensures LatchKept(old(floppyInit), old(view), floppyInit, view) && CutLaw(old(view), view)
      ensures Extends(old(view.script), view.script) && !view.inData
      ensures r.Pass? ==>
        && |old(view.script)| < home < |view.script| && SeekComplete(view.script, home, DriveNum(), None)
        && SeekComplete(view.script, |view.script|, DriveNum(), Some(cyl))
      ensures r.Fail? ==> !r.error.ReadOrWrite? && !IsTransferError(r.error) && view.faults > old(view.faults)
      ensures DepthBound(old(peak), peak, 1, old(grants))
    {
      ghost var before := view;
      r := Seek(None);
      home := |view.script|;
      if r.Fail? { return; }
      ghost var homed := view;
      r := Seek(Some(cyl));
      SeekStays(homed.script, view.script, home, DriveNum(), None);
      ExtendsTrans(before.script, homed.script, view.script);
      CutLawTrans(before, homed, view);
    }

    /** The casts to u16 with which a read or write of `len` bytes reaches `send_read_write`. */
    method StartTransfer(op: byte, ptr: nat, len: nat) returns (r: Outcome<FloppyError>)
      requires Ready() && IsTransferOp(op)
      modifies `grants, `motor, `floppyInit, `bus, `view, `peak, `stray
      ensures Ready() && old(bus) <= bus && grants <= old(grants)
      ensures LatchKept(old(floppyInit), old(view), floppyInit, view) && CutLaw(old(view), view)
      ensures r.Pass? ==>
        && !Refused(ptr, len) && !view.since.Sensing?
        && Issued(old(view.script), view.script, op, RequestParams(drive, ptr, len))
      ensures r.Fail? ==> Extends(old(view.script), view.script) && (view == old(view) || !view.inData)
      ensures old(floppyInit) && Refused(ptr, len) ==>
        && r == Fail(ReadOrWrite(BadAddress(CheckRequest(ptr, len))))
        && bus == old(bus) && view == old(view) && floppyInit && motor == old(motor)
      ensures r.Fail? && !Refused(ptr, len) ==>
        NotAddress(r.error) && (old(floppyInit) ==> !view.inData && view.faults > old(view.faults))
      ensures DepthBound(old(peak), peak, 1, old(grants))
    {
      r := SendReadWrite(op, ptr % MOD16, len / SECTOR_SIZE % MOD16);
    }

    /** The data phase of a read: one FIFO byte for each byte of `buf[lo..hi]`, in order. */
    method ReadData(buf: array<byte>, lo: nat, hi: nat) returns (t: Transfer)
      requires Ready() && lo <= hi <= buf.Length
      requires view.script != [] && view.script[|view.script| - 1].Cmd?
      requires view.script[|view.script| - 1].got == [] && !view.since.Sensing?
      modifies `grants, `motor, `bus, `view, `stray, buf
      ensures Ready() && old(bus) <= bus && grants <= old(grants)
      ensures Steady(old(view), view) && !view.since.Sensing?
      ensures buf[..lo] == old(buf[..lo]) && buf[hi..] == old(buf[hi..])
      ensures var n := |old(view.script)| - 1; var last := old(view.script)[n];
              && |view.script| == n + 1 && view.script[..n] == old(view.script)[..n]
              && view.script[n].Cmd? && view.script[n] == last.(got := view.script[n].got)
              && (t == Done ==> view.script[n].got == buf[lo..hi]) && (t.Short? ==> |view.script[n].got| < hi - lo)
      ensures !t.NotSent? && (t.Short? ==> t.error == FifoRead) && (t.Abort? ==> t.error == ReadOrWrite(FifoTimeout))
      ensures t != Done ==> view.faults > old(view.faults)
    {
      ghost var n := |view.script| - 1;
      ghost var last := view.script[n];
      var k := lo;
      assert buf[lo..k] == [];
      while k < hi
        invariant lo <= k <= hi
        invariant Ready() && old(bus) <= bus && grants <= old(grants)
        invariant Steady(old(view), view) && !view.since.Sensing?
        invariant buf[..lo] == old(buf[..lo]) && buf[k..] == old(buf[k..])
        invariant view.script == old(view.script)[n := last.(got := buf[lo..k])]
      {
        var b;
        t, b := FetchByte();
        if t != Done {
          return;
        }
        buf[k] := b;
        assert buf[lo..k + 1] == buf[lo..k] + [b] && buf[k + 1..] == old(buf[k..])[1..] == old(buf[k + 1..]);
        k := k + 1;
      }
      return Done;
    }

    /** One byte of a read's data phase: a missing RQM bit abandons the read, a missing byte breaks it off. */
    method FetchByte() returns (t: Transfer, b: byte)
      requires Ready() && CanRead(view)
      modifies `grants, `motor, `bus, `view, `stray
      ensures Valid() && old(bus) <= bus && grants <= old(grants)
      ensures t == Done ==> Same(view, Step(old(view), Got(b)))
      ensures t != Done ==> Same(view, Late(old(view))) && (t == Short(FifoRead) || t == Abort(ReadOrWrite(FifoTimeout)))
    {
      b := 0;
      var r := WaitForRqm();
      if r.Fail? {
        return Abort(r.error), b;
      }
      r, b := ReadByte();
      t := if r.Pass? then Done else Short(r.error);
    }

    /** The data phase of a write. */
    method WriteData(data: seq<byte>) returns (t: Transfer)
      requires Ready()
      requires view.script != [] && view.script[|view.script| - 1].Cmd?
      requires view.script[|view.script| - 1].op == WRITE_DATA && view.script[|view.script| - 1].sent == []
      modifies `grants, `motor, `bus, `view, `stray
      ensures Ready() && old(bus) <= bus && grants <= old(grants)
      ensures Steady(old(view), view)
      ensures var n := |old(view.script)| - 1; var last := old(view.script)[n];
              && |view.script| == n + 1 && view.script[..n] == old(view.script)[..n]
              && view.script[n].Cmd? && view.script[n] == last.(sent := view.script[n].sent)
              && view.script[n].sent <= data
              && (t == Done ==> view.script[n].sent == data) && (t.Short? ==> |view.script[n].sent| < |data|)
      ensures !t.NotSent? && (t.Short? ==> t.error.FifoWrite?) && (t.Abort? ==> t.error == ReadOrWrite(FifoTimeout))
      ensures t != Done ==> view.faults > old(view.faults)
    {
      ghost var n := |view.script| - 1;
      ghost var last := view.script[n];
      var k := 0;
      while k < |data|
        invariant 0 <= k <= |data|
        invariant Ready() && old(bus) <= bus && grants <= old(grants)
        invariant Steady(old(view), view)
        invariant view.script == old(view.script)[n := last.(sent := data[..k])]
      {
        var rqm := WaitForRqm();
        if rqm.Fail? {
          return Abort(rqm.error);
        }
        var r := SendByte(Data(data[k]));
        if r.Fail? {
          return Short(r.error);
        }
        assert data[..k + 1] == data[..k] + [data[k]];
        k := k + 1;
      }
      assert data[..|data|] == data;
      return Done;
    }

    /** `read_write_status`: seven result bytes, of which three are examined. */
    method ReadWriteStatus() returns (r: Outcome<FloppyError>)
      requires Ready() && CanRead(view) && !view.since.Sensing?
      modifies `grants, `motor, `bus, `view, `stray
      ensures Ready() && old(bus) <= bus && grants <= old(grants)
      ensures Steady(old(view), view)
      ensures var n := |old(view.script)| - 1; var last := old(view.script)[n];
              && |view.script| == n + 1 && view.script[..n] == old(view.script)[..n]
              && view.script[n].Cmd? && last.got <= view.script[n].got
              && view.script[n] == last.(got := view.script[n].got)
              && (r.Pass? ==> StatusClean(view.script[n].got[|last.got|..]))
      ensures r.Fail? ==> r.error == FifoRead || (r.error.ReadOrWrite? && StatusFailure(r.error.disk))
      ensures r.Fail? ==> view.faults > old(view.faults) || StatusSays(view.script, r.error)
    {
      r := WaitForRqm();
      if r.Fail? { return; }
      ghost var n := |view.script| - 1;
      ghost var last := view.script[n];
      var st: seq<byte> := [];
      assert last.got + st == last.got;
      while |st| < 7
        invariant |st| <= 7 && Ready() && old(bus) <= bus && grants <= old(grants)
        invariant Steady(old(view), view) && !view.since.Sensing?
        invariant view.script == old(view.script)[n := last.(got := last.got + st)]
      {
        var b;
        r, b := ReadByte();
        if r.Fail? { return; }
        assert last.got + (st + [b]) == last.got + st + [b];
        st := st + [b];
      }
      assert (last.got + st)[|last.got|..] == st;
      ghost var got := view.script[n].got;
      assert got[|got| - 7] == st[0] && got[|got| - 6] == st[1] && got[|got| - 5] == st[2];
      match StatusError(st[0], st[1], st[2])
      case Some(e) => r := Fail(ReadOrWrite(e));
      case None => r := Pass;
    }

    /** One pass of the retry loop of `disk::read`: command, data, status. */
    method ReadOnce(ptr: nat, buf: array<byte>, lo: nat, hi: nat) returns (t: Transfer)
      requires Ready() && lo < hi <= buf.Length && (hi - lo) % SECTOR_SIZE == 0
      modifies `grants, `motor, `floppyInit, `bus, `view, `peak, `stray, buf
      ensures Ready() && old(bus) <= bus && grants <= old(grants)
      ensures LatchKept(old(floppyInit), old(view), floppyInit, view) && CutLaw(old(view), view)
      ensures buf[..lo] == old(buf[..lo]) && buf[hi..] == old(buf[hi..])
      ensures Attempts(old(view.script), view.script, READ_DATA, RequestParams(drive, ptr, hi - lo), [])
      ensures t == Done ==>
        && !Refused(ptr, hi - lo)
        && ReadComplete(old(view.script), view.script, RequestParams(drive, ptr, hi - lo), buf[lo..hi])
      ensures old(floppyInit) && Refused(ptr, hi - lo) ==>
        && t == NotSent(ReadOrWrite(BadAddress(CheckRequest(ptr, hi - lo))))
        && bus == old(bus) && view == old(view) && floppyInit && motor == old(motor)
      ensures t.NotSent? ==> view == old(view) || !view.inData
      ensures t.NotSent? && !Refused(ptr, hi - lo) ==> NotAddress(t.error)
      ensures old(floppyInit) && Proper(ptr, hi - lo) ==> Attempted(t, old(view), view)
      ensures old(floppyInit) && !Refused(ptr, hi - lo) ==> Caused(t, old(view), view)
      ensures t.Short? ==> t.error == FifoRead
      ensures t.Abort? ==>
        t.error == FifoRead || (t.error.ReadOrWrite? && StatusFailure(t.error.disk))
      ensures DepthBound(old(peak), peak, 1, old(grants))
    {
      ghost var before := view;
      var sent := StartTransfer(READ_DATA, ptr, hi - lo);
      if sent.Fail? {
        return NotSent(sent.error);
      }
      t := FinishRead(ptr, buf, lo, hi, before);
    }

    /** What follows the command of a read that began at `before`. */
    method FinishRead(ptr: nat, buf: array<byte>, lo: nat, hi: nat, ghost before: View) returns (t: Transfer)
      requires Ready() && lo < hi <= buf.Length && (hi - lo) % SECTOR_SIZE == 0 && !view.since.Sensing?
      requires CutLaw(before, view) && Issued(before.script, view.script, READ_DATA, RequestParams(drive, ptr, hi - lo))
      modifies `grants, `motor, `bus, `view, `stray, buf
      ensures Ready() && old(bus) <= bus && grants <= old(grants)
      ensures Steady(old(view), view) && CutLaw(before, view) && |view.script| > |before.script|
      ensures buf[..lo] == old(buf[..lo]) && buf[hi..] == old(buf[hi..])
      ensures Attempts(before.script, view.script, READ_DATA, RequestParams(drive, ptr, hi - lo), [])
      ensures t == Done ==> ReadComplete(before.script, view.script, RequestParams(drive, ptr, hi - lo), buf[lo..hi])
      ensures !t.NotSent? && (t.Short? ==> t.error == FifoRead && (Proper(ptr, hi - lo) ==> view.inData))
      ensures Caused(t, old(view), view)
      ensures t.Abort? ==> t.error == FifoRead || (t.error.ReadOrWrite? && StatusFailure(t.error.disk))
    {
      ghost var issued, ps := view, RequestParams(drive, ptr, hi - lo);
      t := ReadTransfer(buf, lo, hi);
      AfterData(before, issued, view, READ_DATA, ps, []);
      if t.Short? && Proper(ptr, hi - lo) {
        ShortStays(bus, view, drive, ptr, hi - lo);
      }
    }

    /** Data and status of an issued read. */
    method ReadTransfer(buf: array<byte>, lo: nat, hi: nat) returns (t: Transfer)
      requires Ready() && lo < hi <= buf.Length && !view.since.Sensing?
      requires view.script != [] && view.script[|view.script| - 1].Cmd? && view.script[|view.script| - 1].got == []
      modifies `grants, `motor, `bus, `view, `stray, buf
      ensures Ready() && old(bus) <= bus && grants <= old(grants) && DataPhase(old(view), view)
      ensures buf[..lo] == old(buf[..lo]) && buf[hi..] == old(buf[hi..])
      ensures var n := |view.script| - 1; var e := view.script[n];
              && e.Cmd? && e == old(view.script)[n].(got := e.got)
              && (t == Done ==> buf[lo..hi] <= e.got && StatusClean(e.got[hi - lo..]))
              && (t.Short? ==> |e.got| < hi - lo)
      ensures !t.NotSent? && (t.Short? ==> t.error == FifoRead)
      ensures t != Done ==> view.faults > old(view.faults) || (t.Abort? && StatusSays(view.script, t.error))
      ensures t.Abort? ==> t.error == FifoRead || (t.error.ReadOrWrite? && StatusFailure(t.error.disk))
    {
      t := ReadData(buf, lo, hi);
      if t != Done {
        return;
      }
      var status := ReadWriteStatus();
      if status.Fail? {
        return Abort(status.error);
      }
    }

    /** `disk::read` into `buf[lo..hi]`. */
    method Read(ptr: nat, buf: array<byte>, lo: nat, hi: nat) returns (r: Outcome<FloppyError>, ghost log: Log)
      requires Ready() && lo <= hi <= buf.Length
      modifies `grants, `motor, `floppyInit, `readBytes, `bus, `view, `peak, `stray, buf
      ensures Ready() && old(bus) <= bus && grants <= old(grants)
      ensures Decides(log, r) && CutsExplained(log, old(view), view, Proper(ptr, hi - lo))
      ensures log.tries > 0 && !Refused(ptr, hi - lo) ==> Reasons(log, old(view), view)
      ensures Explained(old(floppyInit), old(view), view, ptr, hi - lo, r)
      ensures log.tries == 0 <==> lo == hi || !old(floppyInit) || (hi - lo) % SECTOR_SIZE != 0
      ensures LatchAfter(log, old(floppyInit), old(view), floppyInit, view)
      ensures buf[..lo] == old(buf[..lo]) && buf[hi..] == old(buf[hi..])
      ensures readBytes == if r.Pass? then (old(readBytes) + hi - lo) % MOD64 else old(readBytes)
      ensures lo == hi ==> r.Pass? && bus == old(bus) && view == old(view)
      ensures lo < hi && !old(floppyInit) ==> r == Fail(ReadOrWrite(ControllerUninit)) && bus == old(bus) && view == old(view)
      ensures lo < hi && old(floppyInit) && (hi - lo) % SECTOR_SIZE != 0 ==>
        r == Fail(ReadOrWrite(BadBufLen(hi - lo))) && bus == old(bus) && view == old(view)
      ensures log.tries > 0 && Refused(ptr, hi - lo) ==>
        && r == Fail(ReadOrWrite(BadAddress(CheckRequest(ptr, hi - lo)))) && Exhausted(log)
        && (bus == old(bus) || bus == old(bus) + [Dor(Motor.OffCommand(drive))])
        && (old(motor.mode) == Motor.Off ==> stray)
      ensures r.Fail? && !Refused(ptr, hi - lo) ==> NotAddress(r.error)
      ensures lo < hi && r.Pass? ==>
        && !Refused(ptr, hi - lo)
        && ReadComplete(old(view.script), view.script, RequestParams(drive, ptr, hi - lo), buf[lo..hi])
      ensures r.Fail? ==>
        Attempts(old(view.script), view.script, READ_DATA, RequestParams(drive, ptr, hi - lo), [])
      ensures log.tries > 0 && log.last.Abort? ==>
        r.error == FifoRead || (r.error.ReadOrWrite? && StatusFailure(r.error.disk))
      ensures DepthBound(old(peak), peak, 1, old(grants))
    {
      log := Log(0, Done, false);
      if lo == hi { return Pass, log; }
      if !floppyInit { return Fail(ReadOrWrite(ControllerUninit)), log; }
      if (hi - lo) % SECTOR_SIZE != 0 { return Fail(ReadOrWrite(BadBufLen(hi - lo))), log; }
      r, log := ReadSectors(ptr, buf, lo, hi);
    }

    /** `disk::read` past its first checks. */
    method ReadSectors(ptr: nat, buf: array<byte>, lo: nat, hi: nat) returns (r: Outcome<FloppyError>, ghost log: Log)
      requires Ready() && lo < hi <= buf.Length && (hi - lo) % SECTOR_SIZE == 0 && floppyInit
      modifies `grants, `motor, `floppyInit, `readBytes, `bus, `view, `peak, `stray, buf
      ensures Ready() && old(bus) <= bus && grants <= old(grants)
      ensures log.tries > 0 && Decides(log, r) && CutsExplained(log, old(view), view, Proper(ptr, hi - lo))
      ensures !Refused(ptr, hi - lo) ==> Reasons(log, old(view), view)
      ensures LatchAfter(log, true, old(view), floppyInit, view)
      ensures buf[..lo] == old(buf[..lo]) && buf[hi..] == old(buf[hi..])
      ensures readBytes == if r.Pass? then (old(readBytes) + hi - lo) % MOD64 else old(readBytes)
      ensures Refused(ptr, hi - lo) ==>
        && r == Fail(ReadOrWrite(BadAddress(CheckRequest(ptr, hi - lo)))) && Exhausted(log)
        && (bus == old(bus) || bus == old(bus) + [Dor(Motor.OffCommand(drive))])
        && (old(motor.mode) == Motor.Off ==> stray)
      ensures r.Fail? && !Refused(ptr, hi - lo) ==> NotAddress(r.error)
      ensures r.Pass? ==>
        && !Refused(ptr, hi - lo)
        && ReadComplete(old(view.script), view.script, RequestParams(drive, ptr, hi - lo), buf[lo..hi])
      ensures r.Fail? ==>
        Attempts(old(view.script), view.script, READ_DATA, RequestParams(drive, ptr, hi - lo), [])
      ensures log.last.Abort? ==>
        r.error == FifoRead || (r.error.ReadOrWrite? && StatusFailure(r.error.disk))
      ensures DepthBound(old(peak), peak, 1, old(grants))
    {
      var t;
      t, log := ReadRetrying(ptr, buf, lo, hi);
      if t.Done? {
        readBytes := (readBytes + (hi - lo)) % MOD64;
      }
      r := Conclude(t);
    }

    /** The end of a disk operation: the motor is left to run down unless the operation was abandoned,
        and exhausted retries disable the driver. */
    method Conclude(t: Transfer) returns (r: Outcome<FloppyError>)
      requires Ready()
      modifies `motor, `floppyInit, `bus, `view, `stray
      ensures Ready() && Same(view, old(view))
      ensures floppyInit == (old(floppyInit) && !Retries(t))
      ensures r == if t.Done? then Pass else Fail(t.error)
      ensures bus == old(bus) || bus == old(bus) + [Dor(Motor.OffCommand(drive))]
      ensures Retries(t) && old(motor.mode) == Motor.Off ==> stray
    {
      if t.Abort? {
        return Fail(t.error);
      }
      if Retries(t) {
        floppyInit := false;
      }
      CloseMotor();
      r := if t.Done? then Pass else Fail(t.error);
    }

    /** The retry loop of `disk::read`. */
    method ReadRetrying(ptr: nat, buf: array<byte>, lo: nat, hi: nat) returns (t: Transfer, ghost log: Log)
      requires Ready() && lo < hi <= buf.Length && (hi - lo) % SECTOR_SIZE == 0 && floppyInit
      modifies `grants, `motor, `floppyInit, `bus, `view, `peak, `stray, buf
      ensures Ready() && old(bus) <= bus && grants <= old(grants)
      ensures Concludes(log, t) && CutsExplained(log, old(view), view, Proper(ptr, hi - lo))
      ensures !Refused(ptr, hi - lo) ==> Reasons(log, old(view), view)
      ensures LatchKept(true, old(view), floppyInit, view)
      ensures buf[..lo] == old(buf[..lo]) && buf[hi..] == old(buf[hi..])
      ensures Refused(ptr, hi - lo) ==>
        && t == NotSent(ReadOrWrite(BadAddress(CheckRequest(ptr, hi - lo))))
        && bus == old(bus) && motor == old(motor)
      ensures !t.Done? && !Refused(ptr, hi - lo) ==> NotAddress(t.error)
      ensures t.Done? ==>
        && !Refused(ptr, hi - lo)
        && ReadComplete(old(view.script), view.script, RequestParams(drive, ptr, hi - lo), buf[lo..hi])
      ensures Attempts(old(view.script), view.script, READ_DATA, RequestParams(drive, ptr, hi - lo), [])
      ensures t.Abort? ==> t.error == FifoRead || (t.error.ReadOrWrite? && StatusFailure(t.error.disk))
      ensures DepthBound(old(peak), peak, 1, old(grants))
    {
      t, log := NotSent(ReadOrWrite(IoTimeout)), Log(0, Done, false);
      ghost var ps, proper := RequestParams(drive, ptr, hi - lo), Proper(ptr, hi - lo);
      var attempt := 0;
      while attempt < DISK_RETRIES
        invariant 0 <= attempt <= DISK_RETRIES
        invariant Ready() && old(bus) <= bus && grants <= old(grants)
        invariant Retrying(log, attempt, t, old(view), view, proper, !Refused(ptr, hi - lo))
        invariant LatchKept(true, old(view), floppyInit, view)
        invariant !Refused(ptr, hi - lo) && attempt > 0 ==> Reasons(log, old(view), view)
        invariant buf[..lo] == old(buf[..lo]) && buf[hi..] == old(buf[hi..])
        invariant Attempts(old(view.script), view.script, READ_DATA, ps, [])
        invariant Refused(ptr, hi - lo) ==>
          && bus == old(bus) && floppyInit && motor == old(motor)
          && (attempt > 0 ==> t == NotSent(ReadOrWrite(BadAddress(CheckRequest(ptr, hi - lo)))))
        invariant !Refused(ptr, hi - lo) ==> NotAddress(t.error)
        invariant DepthBound(old(peak), peak, 1, old(grants))
      {
        t := ReadAgain(ptr, buf, lo, hi, log, t, attempt, old(view));
        log := Again(log, t);
        if !Retries(t) { return; }
        attempt := attempt + 1;
      }
    }

    /** An attempt as part of a read that began at `first` and has made `attempt` attempts so far. */
    method ReadAgain(ptr: nat, buf: array<byte>, lo: nat, hi: nat,
                     ghost log: Log, ghost prev: Transfer, ghost attempt: nat, ghost first: View) returns (t: Transfer)
      requires Ready() && lo < hi <= buf.Length && (hi - lo) % SECTOR_SIZE == 0 && attempt < DISK_RETRIES
      requires Retrying(log, attempt, prev, first, view, Proper(ptr, hi - lo), !Refused(ptr, hi - lo))
      requires LatchKept(true, first, floppyInit, view)
      requires Attempts(first.script, view.script, READ_DATA, RequestParams(drive, ptr, hi - lo), [])
      modifies `grants, `motor, `floppyInit, `bus, `view, `peak, `stray, buf
      ensures Ready() && old(bus) <= bus && grants <= old(grants) && LatchKept(true, first, floppyInit, view)
      ensures CutsExplained(Again(log, t), first, view, Proper(ptr, hi - lo))
      ensures !Refused(ptr, hi - lo) ==> Reasons(Again(log, t), first, view)
      ensures if Retries(t) then Retrying(Again(log, t), attempt + 1, t, first, view, Proper(ptr, hi - lo), !Refused(ptr, hi - lo))
              else Concludes(Again(log, t), t)
      ensures buf[..lo] == old(buf[..lo]) && buf[hi..] == old(buf[hi..])
      ensures Attempts(first.script, view.script, READ_DATA, RequestParams(drive, ptr, hi - lo), [])
      ensures t.Done? ==>
        && !Refused(ptr, hi - lo)
        && ReadComplete(first.script, view.script, RequestParams(drive, ptr, hi - lo), buf[lo..hi])
      ensures old(floppyInit) && Refused(ptr, hi - lo) ==>
        && t == NotSent(ReadOrWrite(BadAddress(CheckRequest(ptr, hi - lo))))
        && bus == old(bus) && floppyInit && motor == old(motor)
      ensures !t.Done? && !Refused(ptr, hi - lo) ==> NotAddress(t.error)
      ensures t.Abort? ==> t.error == FifoRead || (t.error.ReadOrWrite? && StatusFailure(t.error.disk))
      ensures DepthBound(old(peak), peak, 1, old(grants))
    {
      ghost var before, ps := view, RequestParams(drive, ptr, hi - lo);
      t := ReadOnce(ptr, buf, lo, hi);
      LogTry(log, prev, t, attempt, first, before, view, Proper(ptr, hi - lo), !Refused(ptr, hi - lo));
      AttemptsTrans(first.script, before.script, view.script, READ_DATA, ps, []);
      if t.Done? {
        AttemptsTrans(first.script, before.script, view.script[..|view.script| - 1], READ_DATA, ps, []);
      }
    }

    /** One pass of the retry loop of `disk::write`; the status is not read back. */
    method WriteOnce(ptr: nat, data: seq<byte>) returns (t: Transfer)
      requires Ready() && data != [] && |data| % SECTOR_SIZE == 0
      modifies `grants, `motor, `floppyInit, `bus, `view, `peak, `stray
      ensures Ready() && old(bus) <= bus && grants <= old(grants)
      ensures LatchKept(old(floppyInit), old(view), floppyInit, view) && CutLaw(old(view), view)
      ensures Attempts(old(view.script), view.script, WRITE_DATA, RequestParams(drive, ptr, |data|), data)
      ensures t == Done ==>
        && !Refused(ptr, |data|)
        && WriteComplete(old(view.script), view.script, RequestParams(drive, ptr, |data|), data)
      ensures old(floppyInit) && Refused(ptr, |data|) ==>
        && t == NotSent(ReadOrWrite(BadAddress(CheckRequest(ptr, |data|))))
        && bus == old(bus) && view == old(view) && floppyInit && motor == old(motor)
      ensures t.NotSent? ==> view == old(view) || !view.inData
      ensures t.NotSent? && !Refused(ptr, |data|) ==> NotAddress(t.error)
      ensures old(floppyInit) && Proper(ptr, |data|) ==> Attempted(t, old(view), view)
      ensures old(floppyInit) && !Refused(ptr, |data|) ==> Caused(t, old(view), view)
      ensures t.Short? ==> t.error.FifoWrite?
      ensures t.Abort? ==> t.error == ReadOrWrite(FifoTimeout)
      ensures DepthBound(old(peak), peak, 1, old(grants))
    {
      ghost var before := view;
      ghost var ps := RequestParams(drive, ptr, |data|);
      var sent := StartTransfer(WRITE_DATA, ptr, |data|);
      if sent.Fail? {
        return NotSent(sent.error);
      }
      ghost var issued := view;
      t := WriteData(data);
      AfterData(before, issued, view, WRITE_DATA, ps, data);
      if t.Short? && Proper(ptr, |data|) {
        ShortStays(bus, view, drive, ptr, |data|);
      }
    }

    /** `disk::write` of `data`. */
    method Write(ptr: nat, data: seq<byte>) returns (r: Outcome<FloppyError>, ghost log: Log)
      requires Ready()
      modifies `grants, `motor, `floppyInit, `writtenBytes, `bus, `view, `peak, `stray
      ensures Ready() && old(bus) <= bus && grants <= old(grants)
      ensures Decides(log, r) && CutsExplained(log, old(view), view, Proper(ptr, |data|))
      ensures log.tries > 0 && !Refused(ptr, |data|) ==> Reasons(log, old(view), view)
      ensures Explained(old(floppyInit), old(view), view, ptr, |data|, r)
      ensures log.tries == 0 <==> data == [] || !old(floppyInit) || |data| % SECTOR_SIZE != 0
      ensures LatchAfter(log, old(floppyInit), old(view), floppyInit, view)
      ensures writtenBytes == if r.Pass? then (old(writtenBytes) + |data|) % MOD64 else old(writtenBytes)
      ensures data == [] ==> r.Pass? && bus == old(bus) && view == old(view)
      ensures data != [] && !old(floppyInit) ==> r == Fail(ReadOrWrite(ControllerUninit)) && bus == old(bus) && view == old(view)
      ensures data != [] && old(floppyInit) && |data| % SECTOR_SIZE != 0 ==>
        r == Fail(ReadOrWrite(BadBufLen(|data|))) && bus == old(bus) && view == old(view)
      ensures log.tries > 0 && Refused(ptr, |data|) ==>
        && r == Fail(ReadOrWrite(BadAddress(CheckRequest(ptr, |data|)))) && Exhausted(log)
        && (bus == old(bus) || bus == old(bus) + [Dor(Motor.OffCommand(drive))])
        && (old(motor.mode) == Motor.Off ==> stray)
      ensures r.Fail? && !Refused(ptr, |data|) ==> NotAddress(r.error)
      ensures data != [] && r.Pass? ==>
        && !Refused(ptr, |data|)
        && WriteComplete(old(view.script), view.script, RequestParams(drive, ptr, |data|), data)
      ensures r.Fail? ==>
        Attempts(old(view.script), view.script, WRITE_DATA, RequestParams(drive, ptr, |data|), data)
      ensures log.tries > 0 && log.last.Abort? ==> r.error == ReadOrWrite(FifoTimeout)
      ensures DepthBound(old(peak), peak, 1, old(grants))
    {
      log := Log(0, Done, false);
      if data == [] { return Pass, log; }
      if !floppyInit { return Fail(ReadOrWrite(ControllerUninit)), log; }
      if |data| % SECTOR_SIZE != 0 { return Fail(ReadOrWrite(BadBufLen(|data|))), log; }
      r, log := WriteSectors(ptr, data);
    }

    /** `disk::write` past its first checks. */
    method WriteSectors(ptr: nat, data: seq<byte>) returns (r: Outcome<FloppyError>, ghost log: Log)
      requires Ready() && data != [] && |data| % SECTOR_SIZE == 0 && floppyInit
      modifies `grants, `motor, `floppyInit, `writtenBytes, `bus, `view, `peak, `stray
      ensures Ready() && old(bus) <= bus && grants <= old(grants)
      ensures log.tries > 0 && Decides(log, r) && CutsExplained(log, old(view), view, Proper(ptr, |data|))
      ensures !Refused(ptr, |data|) ==> Reasons(log, old(view), view)
      ensures LatchAfter(log, true, old(view), floppyInit, view)
      ensures writtenBytes == if r.Pass? then (old(writtenBytes) + |data|) % MOD64 else old(writtenBytes)
      ensures Refused(ptr, |data|) ==>
        && r == Fail(ReadOrWrite(BadAddress(CheckRequest(ptr, |data|)))) && Exhausted(log)
        && (bus == old(bus) || bus == old(bus) + [Dor(Motor.OffCommand(drive))])
        && (old(motor.mode) == Motor.Off ==> stray)
      ensures r.Fail? && !Refused(ptr, |data|) ==> NotAddress(r.error)
      ensures r.Pass? ==>
        && !Refused(ptr, |data|)
        && WriteComplete(old(view.script), view.script, RequestParams(drive, ptr, |data|), data)
      ensures r.Fail? ==>
        Attempts(old(view.script), view.script, WRITE_DATA, RequestParams(drive, ptr, |data|), data)
      ensures log.last.Abort? ==> r.error == ReadOrWrite(FifoTimeout)
      ensures DepthBound(old(peak), peak, 1, old(grants))
    {
      var t;
      t, log := WriteRetrying(ptr, data);
      if t.Done? {
        writtenBytes := (writtenBytes + |data|) % MOD64;
      }
      r := Conclude(t);
    }

    /** The retry loop of `disk::write`. */
    method WriteRetrying(ptr: nat, data: seq<byte>) returns (t: Transfer, ghost log: Log)
      requires Ready() && data != [] && |data| % SECTOR_SIZE == 0 && floppyInit
      modifies `grants, `motor, `floppyInit, `bus, `view, `peak, `stray
      ensures Ready() && old(bus) <= bus && grants <= old(grants)
      ensures Concludes(log, t) && CutsExplained(log, old(view), view, Proper(ptr, |data|))
      ensures !Refused(ptr, |data|) ==> Reasons(log, old(view), view)
      ensures LatchKept(true, old(view), floppyInit, view)
      ensures Refused(ptr, |data|) ==>
        && t == NotSent(ReadOrWrite(BadAddress(CheckRequest(ptr, |data|))))
        && bus == old(bus) && motor == old(motor)
      ensures !t.Done? && !Refused(ptr, |data|) ==> NotAddress(t.error)
      ensures t.Done? ==>
        && !Refused(ptr, |data|)
        && WriteComplete(old(view.script), view.script, RequestParams(drive, ptr, |data|), data)
      ensures Attempts(old(view.script), view.script, WRITE_DATA, RequestParams(drive, ptr, |data|), data)
      ensures t.Abort? ==> t.error == ReadOrWrite(FifoTimeout)
      ensures DepthBound(old(peak), peak, 1, old(grants))
    {
      t, log := NotSent(ReadOrWrite(IoTimeout)), Log(0, Done, false);
      ghost var ps, proper := RequestParams(drive, ptr, |data|), Proper(ptr, |data|);
      var attempt := 0;
      while attempt < DISK_RETRIES
        invariant 0 <= attempt <= DISK_RETRIES
        invariant Ready() && old(bus) <= bus && grants <= old(grants)
        invariant Retrying(log, attempt, t, old(view), view, proper, !Refused(ptr, |data|))
        invariant !Refused(ptr, |data|) && attempt > 0 ==> Reasons(log, old(view), view)
        invariant LatchKept(true, old(view), floppyInit, view)
        invariant Attempts(old(view.script), view.script, WRITE_DATA, ps, data)
        invariant Refused(ptr, |data|) ==>
          && bus == old(bus) && floppyInit && motor == old(motor)
          && (attempt > 0 ==> t == NotSent(ReadOrWrite(BadAddress(CheckRequest(ptr, |data|)))))
        invariant !Refused(ptr, |data|) ==> NotAddress(t.error)
        invariant DepthBound(old(peak), peak, 1, old(grants))
      {
        ghost var before, prev := view, t;
        t := WriteOnce(ptr, data);
        LogTry(log, prev, t, attempt, old(view), before, view, proper, !Refused(ptr, |data|));
        log := Again(log, t);
        AttemptsTrans(old(view.script), before.script, view.script, WRITE_DATA, ps, data);
        if t.Done? {
          AttemptsTrans(old(view.script), before.script, view.script[..|view.script| - 1], WRITE_DATA, ps, data);
        }
        if !Retries(t) { return; }
        attempt := attempt + 1;
      }
    }

    // ----- floppy.rs

    /** The controller must answer the version command with 0x90. */
    method Identify() returns (r: Outcome<FloppyError>)
      requires Ready() && view.since == Settled && !view.inData
      modifies `grants, `motor, `floppyInit, `bus, `view, `peak, `stray
      ensures Ready() && old(bus) <= bus && grants <= old(grants)
      ensures LatchKept(old(floppyInit), old(view), floppyInit, view)
      ensures Extends(old(view.script), view.script) && !view.inData && view.cuts == old(view.cuts)
      ensures r.Pass? ==>
        && view.since == Settled && |view.script| > |old(view.script)|
        && view.script[|view.script| - 1] == Cmd(VERSION, [], [], [0x90])
      ensures r.Fail? ==> view.faults > old(view.faults) || OtherVersion(view.script, r.error)
      ensures DepthBound(old(peak), peak, 1, old(grants))
    {
      r := SendCommand(VERSION, [], 0);
      if r.Fail? { return; }
      var version;
      r, version := ReadVersion();
      if r.Fail? { return; }
      if version != 0x90 { return Fail(UnsupportedVersion); }
    }

    /** The single result byte of the version command. */
    method ReadVersion() returns (r: Outcome<FloppyError>, b: byte)
      requires Ready() && !view.inData && view.since == Settled
      requires view.script != [] && view.script[|view.script| - 1] == Cmd(VERSION, [], [], [])
      modifies `grants, `motor, `bus, `view, `stray
      ensures Ready() && old(bus) <= bus && grants <= old(grants) && !view.inData && view.since == Settled
      ensures view.cuts == old(view.cuts) && view.lockups == old(view.lockups) && view.resets == old(view.resets)
      ensures view.faults == old(view.faults) + if r.Pass? then 0 else 1
      ensures view.script == if r.Pass? then old(view.script)[|old(view.script)| - 1 := Cmd(VERSION, [], [], [b])]
                             else old(view.script)
    {
      var none: seq<byte> := [];
      r, b := ReadByte();
      assert none + [b] == [b];
    }

    /** The rest of `init` in floppy.rs: identify the controller, configure, reset, recalibrate. */
    method Init() returns (r: Outcome<FloppyError>)
      requires Ready() && view.since == Settled && !view.inData && !floppyInit
      modifies `grants, `motor, `floppyInit, `bus, `view, `peak, `stray
      ensures Ready() && old(bus) <= bus && grants <= old(grants)
      ensures Extends(old(view.script), view.script) && !view.inData && view.cuts == old(view.cuts)
      ensures floppyInit <==> r.Pass?
      ensures r.Pass? ==> space in {1200, 1440, 2880} && SeekComplete(view.script, |view.script|, DriveNum(), None)
      ensures r.Pass? ==> StartedUp(old(view.script), view.script, |view.script| - 2, space)
      ensures r.Fail? ==>
        || view.faults > old(view.faults) || OtherVersion(view.script, r.error)
        || (r.error == UnsupportedCapacity && space !in {1200, 1440, 2880})
      ensures DepthBound(old(peak), peak, 1, old(grants))
    {
      r := BringUp();
      if r.Fail? { return; }
      floppyInit := true;
      CloseMotor();
    }

    /** Everything but enabling the driver. */
    method BringUp() returns (r: Outcome<FloppyError>)
      requires Ready() && view.since == Settled && !view.inData && !floppyInit
      modifies `grants, `motor, `floppyInit, `bus, `view, `peak, `stray
      ensures Ready() && old(bus) <= bus && grants <= old(grants) && !floppyInit
      ensures Extends(old(view.script), view.script) && !view.inData && view.cuts == old(view.cuts)
      ensures r.Pass? ==> space in {1200, 1440, 2880} && SeekComplete(view.script, |view.script|, DriveNum(), None)
      ensures r.Pass? ==> StartedUp(old(view.script), view.script, |view.script| - 2, space)
      ensures r.Fail? ==>
        || view.faults > old(view.faults) || OtherVersion(view.script, r.error)
        || (r.error == UnsupportedCapacity && space !in {1200, 1440, 2880})
      ensures DepthBound(old(peak), peak, 1, old(grants))
    {
      ghost var script := view.script;
      r := IdentifyAndReset();
      if r.Fail? { return; }
      ghost var ready := view;
      r := Seek(None);
      ExtendsTrans(script, ready.script, view.script);
      if r.Pass? {
        StartedStays(script, ready.script, view.script, |view.script| - 2, space);
      }
    }

    method IdentifyAndReset() returns (r: Outcome<FloppyError>)
      requires Ready() && view.since == Settled && !view.inData && !floppyInit
      modifies `grants, `motor, `floppyInit, `bus, `view, `peak, `stray
      ensures Ready() && old(bus) <= bus && grants <= old(grants) && !floppyInit
      ensures Extends(old(view.script), view.script) && !view.inData && view.cuts == old(view.cuts)
      ensures r.Pass? ==> space in {1200, 1440, 2880} && StartedUp(old(view.script), view.script, |view.script|, space)
      ensures r.Fail? ==>
        || view.faults > old(view.faults) || OtherVersion(view.script, r.error)
        || (r.error == UnsupportedCapacity && space !in {1200, 1440, 2880})
      ensures old(view.faults) <= view.faults
      ensures DepthBound(old(peak), peak, 1, old(grants))
    {
      ghost var script := view.script;
      r := Identify();
      if r.Fail? { return; }
      ghost var identified := view.script;
      r := SendConfigure(0);
      ghost var configured := view.script;
      ExtendsTrans(script, identified, configured);
      if r.Fail? { return; }
      r := InitFdc(0);
      ExtendsTrans(script, configured, view.script);
      if r.Pass? {
        StartedBy(script, identified, configured, view.script, space);
      }
    }
  }
}
