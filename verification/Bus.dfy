/** What crosses the bus between the driver and the 82077AA controller, and the controller's
    side of the conversation: a deterministic observer that rebuilds the commands it was given,
    rejects broken command framing and broken resets, and counts what the driver does not prevent:
    opcodes sent inside a data phase. */
module FloppyBus {
  import opened Words

  /** A port access, FIFO writes tagged with the role the driver gives the byte, or the controller letting
      a wait for it time out. */
  datatype Event =
    | Opcode(op: byte)
    | Param(b: byte)
    | Data(b: byte)
    | Got(b: byte)
    | Dor(v: byte)
    | Ccr(v: byte)
    | Timeout

  const SPECIFY: byte := 3
  const WRITE_DATA: byte := 0x45
  const READ_DATA: byte := 0x46
  const RECALIBRATE: byte := 7
  const SENSE_INTERRUPT: byte := 8
  const SEEK: byte := 15
  const VERSION: byte := 16
  const CONFIGURE: byte := 19

  predicate IsCommand(op: byte) {
    op in {SPECIFY, WRITE_DATA, READ_DATA, RECALIBRATE, SENSE_INTERRUPT, SEEK, VERSION, CONFIGURE}
  }

  /** The number of parameter bytes the controller waits for after the opcode. */
  function Arity(op: byte): nat {
    if op == SPECIFY || op == SEEK then 2
    else if op == WRITE_DATA || op == READ_DATA then 8
    else if op == RECALIBRATE then 1
    else if op == CONFIGURE then 3
    else 0
  }

  /** The command set of the 82077AA as the driver uses it: opcodes and numbers of parameters. */
  lemma CommandSet()
    ensures forall op: byte :: IsCommand(op) <==> op in {0x03, 0x45, 0x46, 0x07, 0x08, 0x0F, 0x10, 0x13}
    ensures Arity(0x03) == Arity(0x0F) == 2 && Arity(0x45) == Arity(0x46) == 8 && Arity(0x07) == 1 && Arity(0x13) == 3
    ensures Arity(0x08) == Arity(0x10) == 0
    ensures READ_DATA == 0x46 && WRITE_DATA == 0x45 && SENSE_INTERRUPT == 0x08 && SEEK == 0x0F && CONFIGURE == 0x13
  {
  }

  /** One thing the controller was made to do: a reset, or a complete command with the bytes
      transferred to and from the FIFO since. */
  datatype Entry = Reset | Cmd(op: byte, params: seq<byte>, sent: seq<byte>, got: seq<byte>)

  /** A command whose parameters are still arriving. */
  datatype Partial = NoCommand | Collecting(op: byte, params: seq<byte>)

  /** Progress of the obligations a reset leaves behind: four sense interrupts of two result
      bytes each, then a configure. `Lost`: the driver gave up on them. */
  datatype Since = Settled | Sensing(done: nat, owed: nat) | Lost

  /** The bytes that the parameters of a transfer make the drive move: sectors `ps[3]` to `ps[5]`. */
  function SpanOf(ps: seq<byte>): nat
    requires |ps| == 8
  {
    var first, last := ps[3] as int, ps[5] as int;
    if first <= last then 512 * (last - first + 1) else 0
  }

  /** A transfer whose data phase has not moved all its bytes. */
  predicate Unfinished(e: Entry) {
    e.Cmd? && |e.params| == 8 &&
    ((e.op == WRITE_DATA && |e.sent| < SpanOf(e.params)) || (e.op == READ_DATA && |e.got| < SpanOf(e.params)))
  }

  /** The controller is inside a data phase. */
  predicate Midway(script: seq<Entry>) {
    script != [] && Unfinished(script[|script| - 1])
  }

  /** Whether the motor of the drive that the DOR selects is running. */
  predicate MotorOn(dor: byte) {
    if dor % 4 == 1 then Bit(dor, 0x20) else Bit(dor, 0x10)
  }

  /** `inData` while a transfer has not moved all its bytes, `cuts` counts opcodes taken then,
      `resets` the resets, and `lockups` the sense interrupts of a reset that reported a lock-up.
      `rate` is the CCR as written since the last reset. `faults` counts what the hardware did wrong:
      waits that timed out and sense interrupts with a status other than the expected one. */
  datatype View =
    | Bad
    | View(drive: byte, dor: byte, restore: Option<byte>, since: Since, open: Partial, script: seq<Entry>,
           inData: bool, cuts: nat, resets: nat, lockups: nat, rate: Option<byte>, faults: nat)

  /** Before the driver's first access; the DOR is written before it is read. */
  function PowerOn(drive: byte): View {
    View(drive, 0, None, Settled, NoCommand, [], false, 0, 0, 0, None, 0)
  }

  /** The status a sense interrupt should report: right after a reset, later after a reset, or after a
      seek or recalibrate of the drive. */
  predicate StatusFits(since: Since, st0: byte, drive: byte) {
    match since
    case Sensing(done, _) => if done == 0 then st0 as int == 0xC0 + drive else st0 != 0x80
    case _ => st0 as int == 0x20 + drive
  }

  predicate ConfigureDue(since: Since) {
    since == Settled || since == Sensing(4, 0)
  }

  function SinceOpcode(since: Since, op: byte): Since {
    if op == CONFIGURE then Settled
    else match since
      case Settled => Settled
      case Sensing(done, owed) =>
        if op == SENSE_INTERRUPT && owed == 0 && done < 4 then Sensing(done, 2) else Lost
      case Lost => Lost
  }

  function SinceGot(since: Since): Since {
    match since
    case Sensing(done, owed) =>
      if owed == 0 then Lost
      else if owed == 1 then Sensing(done + 1, 0)
      else Sensing(done, owed - 1)
    case _ => since
  }

  function AddCmd(script: seq<Entry>, op: byte, params: seq<byte>): seq<Entry> {
    script + [Cmd(op, params, [], [])]
  }

  /** The opcodes taken inside a data phase, after `e`. */
  function Cuts(v: View, e: Event): nat
    requires v.View?
  {
    v.cuts + if e.Opcode? && v.inData then 1 else 0
  }

  /** ST0 is the first result byte of a sense interrupt, and counts once the second has come. */
  function Lockups(v: View, got: seq<byte>): nat
    requires v.View?
  {
    v.lockups + if v.since.Sensing? && v.since.owed == 1 && got != [] && got[0] == 0x80 then 1 else 0
  }

  function Faults(v: View, last: Entry): nat
    requires v.View? && last.Cmd?
  {
    v.faults + if last.op == SENSE_INTERRUPT && |last.got| == 1 && !StatusFits(v.since, last.got[0], v.drive) then 1 else 0
  }

  /** A complete command joins the script; a transfer of any length starts its data phase. */
  function Complete(v: View, op: byte, params: seq<byte>): View
    requires v.View?
  {
    var script := AddCmd(v.script, op, params);
    v.(open := NoCommand, script := script, inData := Midway(script))
  }

  /** The last command of the script after another byte. */
  function Amend(v: View, e: Entry): View
    requires v.View? && v.script != []
  {
    v.(script := v.script[|v.script| - 1 := e], inData := Unfinished(e))
  }

  /** The controller's reaction to one event; `Bad` marks a protocol violation for good. */
  function Step(v: View, e: Event): View {
    if v.Bad? then Bad
    else match e
      case Dor(x) =>
        if x == 0 then
          if v.restore.Some? then Bad
          else v.(dor := 0, restore := Some(v.dor), since := Sensing(0, 0), open := NoCommand,
                  script := v.script + [Reset], inData := false, resets := v.resets + 1, rate := None)
        else if v.restore.Some? && v.restore.value != x then Bad
        else v.(dor := x, restore := None)
      case Ccr(x) =>
        if v.restore.Some? || v.since != Settled then Bad else v.(rate := Some(x))
      case Timeout =>
        if v.restore.Some? then Bad else v.(faults := v.faults + 1)
      case Opcode(op) =>
        if v.restore.Some? || !v.open.NoCommand? || !IsCommand(op) then Bad
        else if op == CONFIGURE && !ConfigureDue(v.since) then Bad
        else if op == SPECIFY && v.rate.None? then Bad
        else
          var v := v.(since := SinceOpcode(v.since, op), inData := false, cuts := Cuts(v, e));
          if Arity(op) == 0 then Complete(v, op, []) else v.(open := Collecting(op, []))
      case Param(b) =>
        if v.restore.Some? || v.open.NoCommand? then Bad
        else
          var op, params := v.open.op, v.open.params + [b];
          if |params| >= Arity(op) then Complete(v, op, params) else v.(open := Collecting(op, params))
      case Data(b) =>
        if v.restore.Some? || !v.open.NoCommand? || v.script == [] then Bad
        else
          var last := v.script[|v.script| - 1];
          if last.Reset? || last.op != WRITE_DATA then Bad
          else Amend(v, last.(sent := last.sent + [b]))
      case Got(b) =>
        if v.restore.Some? || !v.open.NoCommand? || v.script == [] then Bad
        else
          var last := v.script[|v.script| - 1];
          if last.Reset? then Bad
          else Amend(v, last.(got := last.got + [b])).(since := SinceGot(v.since), lockups := Lockups(v, last.got),
                                                       faults := Faults(v, last))
  }

  /** `views` are the controller's states before, between and after the events of `bus`. */
  ghost predicate Traces(bus: seq<Event>, views: seq<View>) {
    && |views| == |bus| + 1 && views[0].View? && views[0] == PowerOn(views[0].drive)
    && forall i | 0 <= i < |bus| :: views[i + 1] == Step(views[i], bus[i])
  }

  /** `v` is what the controller makes of the whole trace. */
  ghost predicate Observed(bus: seq<Event>, v: View) {
    exists views | Traces(bus, views) :: views[|bus|] == v
  }

  lemma ObservedAppend(bus: seq<Event>, v: View, e: Event)
    requires Observed(bus, v)
    ensures Observed(bus + [e], Step(v, e))
  {
    var views: seq<View> :| Traces(bus, views) && views[|bus|] == v;
    assert Traces(bus + [e], views + [Step(v, e)]);
  }

  lemma ObservedFirst(drive: byte, e: Event)
    ensures Observed([e], Step(PowerOn(drive), e))
  {
    assert Traces([e], [PowerOn(drive), Step(PowerOn(drive), e)]);
  }

  /** A violation is never forgotten, so a trace that is clean at the end was clean throughout. */
  lemma {:induction false} CleanThroughout(bus: seq<Event>, views: seq<View>, k: nat)
    requires Traces(bus, views) && views[|bus|].View? && k <= |bus|
    ensures views[k].View?
    decreases |bus| - k
  {
    if k < |bus| {
      CleanThroughout(bus, views, k + 1);
      assert views[k + 1] == Step(views[k], bus[k]);
    }
  }

  // ----- what a clean trace looks like

  /** An event that starts something new: an opcode or a reset. */
  predicate Mark(e: Event) {
    e.Opcode? || e == Dor(0)
  }

  /** The last opcode or reset among the first `k` events, or -1. */
  ghost function LastMark(bus: seq<Event>, k: nat): (m: int)
    requires k <= |bus|
    ensures -1 <= m < k && (m >= 0 ==> Mark(bus[m]))
    ensures forall i | m < i < k :: !Mark(bus[i])
  {
    if k == 0 then -1 else if Mark(bus[k - 1]) then k - 1 else LastMark(bus, k - 1)
  }

  /** The parameter, data and result bytes at positions [lo, hi), in order. */
  ghost function ParamsIn(bus: seq<Event>, lo: nat, hi: nat): seq<byte>
    requires hi <= |bus|
  {
    if hi <= lo then []
    else if bus[hi - 1].Param? then ParamsIn(bus, lo, hi - 1) + [bus[hi - 1].b]
    else ParamsIn(bus, lo, hi - 1)
  }

  ghost function DataIn(bus: seq<Event>, lo: nat, hi: nat): seq<byte>
    requires hi <= |bus|
  {
    if hi <= lo then []
    else if bus[hi - 1].Data? then DataIn(bus, lo, hi - 1) + [bus[hi - 1].b]
    else DataIn(bus, lo, hi - 1)
  }

  ghost function GotIn(bus: seq<Event>, lo: nat, hi: nat): seq<byte>
    requires hi <= |bus|
  {
    if hi <= lo then []
    else if bus[hi - 1].Got? then GotIn(bus, lo, hi - 1) + [bus[hi - 1].b]
    else GotIn(bus, lo, hi - 1)
  }

  ghost function OpcodesIn(bus: seq<Event>, lo: nat, hi: nat): nat
    requires hi <= |bus|
  {
    if hi <= lo then 0 else OpcodesIn(bus, lo, hi - 1) + if bus[hi - 1].Opcode? then 1 else 0
  }

  /** The event at `m` is an opcode whose parameters have not all come by position `k`. */
  ghost predicate Partway(bus: seq<Event>, m: int, k: nat)
    requires m < k <= |bus|
  {
    m >= 0 && bus[m].Opcode? && |ParamsIn(bus, m + 1, k)| < Arity(bus[m].op)
  }

  /** The commands and resets in the first `k` events, read off the bytes alone. */
  ghost function Heard(bus: seq<Event>, k: nat): seq<Entry>
    requires k <= |bus|
    decreases k
  {
    var m := LastMark(bus, k);
    if m < 0 then []
    else if Partway(bus, m, k) then Heard(bus, m)
    else if bus[m].Opcode? then
      Heard(bus, m) + [Cmd(bus[m].op, ParamsIn(bus, m + 1, k), DataIn(bus, m + 1, k), GotIn(bus, m + 1, k))]
    else Heard(bus, m) + [Reset]
  }

  /** `v` is what the first `k` events say, `base` being the script at the last mark `m`. */
  ghost predicate Agrees(bus: seq<Event>, k: nat, m: int, base: seq<Entry>, v: View)
    requires m < k <= |bus| || m == -1
    requires k <= |bus|
  {
    v.View? &&
    if m < 0 then v.script == [] && v.open.NoCommand?
    else if bus[m].Opcode? then
      var ps := ParamsIn(bus, m + 1, k);
      var ds := DataIn(bus, m + 1, k);
      var gs := GotIn(bus, m + 1, k);
      if |ps| < Arity(bus[m].op) then
        v.open == Collecting(bus[m].op, ps) && v.script == base && ds == gs == []
      else
        v.open.NoCommand? && |ps| == Arity(bus[m].op) && v.script == base + [Cmd(bus[m].op, ps, ds, gs)]
    else v.open.NoCommand? && v.script == base + [Reset]
  }

  /** An event that starts nothing new. */
  lemma AgreesStep(bus: seq<Event>, k: nat, m: int, base: seq<Entry>, v: View)
    requires m < k < |bus| && -1 <= m && Agrees(bus, k, m, base, v) && !Mark(bus[k]) && Step(v, bus[k]).View?
    ensures Agrees(bus, k + 1, m, base, Step(v, bus[k]))
  {
    if m >= 0 && bus[m].Opcode? && v.open.NoCommand? {
      var n, e, e' := |base|, v.script[|base|], Step(v, bus[k]).script[|base|];
      assert (base + [e])[n := e'] == base + [e'];
    }
  }

  lemma AgreesMark(bus: seq<Event>, k: nat, v: View)
    requires k < |bus| && v.View? && Mark(bus[k]) && Step(v, bus[k]).View?
    ensures Agrees(bus, k + 1, k, v.script, Step(v, bus[k]))
  {
  }

  /** What was heard before mark `m`. */
  ghost function Base(bus: seq<Event>, m: int): seq<Entry>
    requires m <= |bus|
  {
    if m < 0 then [] else Heard(bus, m)
  }

  lemma HeardFrom(bus: seq<Event>, k: nat, m: int, v: View)
    requires k <= |bus| && m == LastMark(bus, k) && Agrees(bus, k, m, Base(bus, m), v)
    ensures v.script == Heard(bus, k)
  {
  }

  /** What ScriptIsHeard says of `v` after `k` events. */
  ghost predicate HeardBy(bus: seq<Event>, k: nat, v: View)
    requires k <= |bus|
  {
    && v.View? && v.script == Heard(bus, k)
    && Agrees(bus, k, LastMark(bus, k), Base(bus, LastMark(bus, k)), v)
  }

  lemma HeardStep(bus: seq<Event>, k: nat, v: View)
    requires k < |bus| && HeardBy(bus, k, v) && Step(v, bus[k]).View?
    ensures HeardBy(bus, k + 1, Step(v, bus[k]))
  {
    if Mark(bus[k]) {
      AgreesMark(bus, k, v);
    } else {
      AgreesStep(bus, k, LastMark(bus, k), Base(bus, LastMark(bus, k)), v);
    }
    HeardFrom(bus, k + 1, LastMark(bus, k + 1), Step(v, bus[k]));
  }

  /** At every point of a clean trace the controller's script is what the bytes so far say, and it is
      waiting for parameters exactly when the last opcode has not had all of its own. */
  lemma {:induction false} ScriptIsHeard(bus: seq<Event>, views: seq<View>, k: nat)
    requires Traces(bus, views) && views[|bus|].View? && k <= |bus|
    ensures HeardBy(bus, k, views[k])
  {
    CleanThroughout(bus, views, k);
    if k == 0 {
      HeardNothing(bus, views[0].drive);
    } else {
      ScriptIsHeard(bus, views, k - 1);
      assert views[k] == Step(views[k - 1], bus[k - 1]);
      HeardStep(bus, k - 1, views[k - 1]);
    }
  }

  lemma HeardNothing(bus: seq<Event>, drive: byte)
    ensures HeardBy(bus, 0, PowerOn(drive))
  {
  }

  lemma HeardAt(bus: seq<Event>, views: seq<View>, k: nat)
    requires Traces(bus, views) && views[|bus|].View? && k <= |bus|
    ensures views[k].View? && views[k].script == Heard(bus, k)
  {
    ScriptIsHeard(bus, views, k);
  }

  /** The whole script of a clean trace, byte for byte. */
  lemma ScriptMeaning(bus: seq<Event>, v: View)
    requires Observed(bus, v) && v.View?
    ensures v.script == Heard(bus, |bus|)
    ensures v.open.NoCommand? <==> !Partway(bus, LastMark(bus, |bus|), |bus|)
  {
    var views: seq<View> :| Traces(bus, views) && views[|bus|] == v;
    ScriptIsHeard(bus, views, |bus|);
  }

  /** The first `k` events end with opcode `op`, exactly these parameter, data and result bytes after it,
      and no other opcode or reset. */
  ghost predicate EndsWith(bus: seq<Event>, k: nat, op: byte, ps: seq<byte>, ds: seq<byte>, gs: seq<byte>)
    requires k <= |bus|
  {
    var m := LastMark(bus, k);
    && m >= 0 && bus[m] == Opcode(op) && |ps| == Arity(op)
    && ParamsIn(bus, m + 1, k) == ps && DataIn(bus, m + 1, k) == ds && GotIn(bus, m + 1, k) == gs
  }

  /** The last command of the script is the end of the trace, byte for byte; when the one before it is
      a command too, that is the end of the trace up to the last opcode. */
  lemma LastOnBus(bus: seq<Event>, v: View)
    requires Observed(bus, v) && v.View? && v.open.NoCommand?
    requires v.script != [] && v.script[|v.script| - 1].Cmd?
    ensures var e := v.script[|v.script| - 1];
            EndsWith(bus, |bus|, e.op, e.params, e.sent, e.got)
    ensures |v.script| > 1 && v.script[|v.script| - 2].Cmd? ==>
            var e := v.script[|v.script| - 2];
            EndsWith(bus, LastMark(bus, |bus|), e.op, e.params, e.sent, e.got)
  {
    var views: seq<View> :| Traces(bus, views) && views[|bus|] == v;
    var m := LastMark(bus, |bus|);
    ScriptIsHeard(bus, views, |bus|);
    EndsOnBus(bus, |bus|, v);
    ScriptIsHeard(bus, views, m);
    CleanThroughout(bus, views, m + 1);
    assert views[m + 1] == Step(views[m], bus[m]);
    assert Heard(bus, m) == v.script[..|v.script| - 1];
    if |v.script| > 1 && v.script[|v.script| - 2].Cmd? {
      EndsOnBus(bus, m, views[m]);
    }
  }

  lemma EndsOnBus(bus: seq<Event>, k: nat, v: View)
    requires k <= |bus| && Agrees(bus, k, LastMark(bus, k), Base(bus, LastMark(bus, k)), v)
    requires v.open.NoCommand? && v.script != [] && v.script[|v.script| - 1].Cmd?
    ensures LastMark(bus, k) >= 0 && v.script[..|v.script| - 1] == Heard(bus, LastMark(bus, k))
    ensures var e := v.script[|v.script| - 1];
            EndsWith(bus, k, e.op, e.params, e.sent, e.got)
  {
  }

  /** Command framing at position `j`: a parameter byte continues the last opcode, which still lacks
      parameters and was not reset; any other FIFO byte comes only when it lacks none; data belongs to a
      write, and results to some command. */
  ghost predicate FramedAt(bus: seq<Event>, j: nat)
    requires j < |bus|
  {
    var m := LastMark(bus, j);
    match bus[j]
    case Param(_) => Partway(bus, m, j)
    case Opcode(_) => !Partway(bus, m, j)
    case Data(_) => !Partway(bus, m, j) && m >= 0 && bus[m] == Opcode(WRITE_DATA)
    case Got(_) => !Partway(bus, m, j) && m >= 0 && bus[m].Opcode?
    case _ => true
  }

  ghost predicate WellFramed(bus: seq<Event>) {
    forall j: nat | j < |bus| :: FramedAt(bus, j)
  }

  /** Command framing, read off the trace alone. */
  lemma FramingMeaning(bus: seq<Event>, v: View)
    requires Observed(bus, v) && v.View?
    ensures WellFramed(bus)
  {
    var views: seq<View> :| Traces(bus, views) && views[|bus|] == v;
    forall j: nat | j < |bus|
      ensures FramedAt(bus, j)
    {
      ScriptIsHeard(bus, views, j);
      CleanThroughout(bus, views, j + 1);
      assert views[j + 1] == Step(views[j], bus[j]);
    }
  }

  // ----- data phases and the motor

  /** While no command is half sent, `inData` says whether the last entry is an unfinished transfer. */
  ghost predicate PhaseKnown(v: View) {
    v.View? && if v.open.NoCommand? then v.inData == Midway(v.script) else !v.inData
  }

  lemma PhaseStep(v: View, e: Event)
    requires PhaseKnown(v) && Step(v, e).View?
    ensures PhaseKnown(Step(v, e))
  {
  }

  lemma {:induction false} PhaseThroughout(bus: seq<Event>, views: seq<View>, k: nat)
    requires Traces(bus, views) && views[|bus|].View? && k <= |bus|
    ensures PhaseKnown(views[k])
  {
    CleanThroughout(bus, views, k);
    if k > 0 {
      PhaseThroughout(bus, views, k - 1);
      assert views[k] == Step(views[k - 1], bus[k - 1]);
      PhaseStep(views[k - 1], bus[k - 1]);
    }
  }

  lemma PhaseMeaning(bus: seq<Event>, v: View)
    requires Observed(bus, v) && v.View? && v.open.NoCommand?
    ensures v.inData == Midway(v.script)
  {
    var views: seq<View> :| Traces(bus, views) && views[|bus|] == v;
    PhaseThroughout(bus, views, |bus|);
  }

  /** Opcodes among the first `k` events that came inside the data phase of a transfer. */
  ghost function CutsIn(bus: seq<Event>, k: nat): nat
    requires k <= |bus|
  {
    if k == 0 then 0
    else CutsIn(bus, k - 1) + if bus[k - 1].Opcode? && Midway(Heard(bus, k - 1)) then 1 else 0
  }

  lemma {:induction false} CutsAre(bus: seq<Event>, views: seq<View>, k: nat)
    requires Traces(bus, views) && views[|bus|].View? && k <= |bus|
    ensures views[k].View? && views[k].cuts == CutsIn(bus, k)
  {
    CleanThroughout(bus, views, k);
    if k > 0 {
      CutsAre(bus, views, k - 1);
      HeardAt(bus, views, k - 1);
      PhaseThroughout(bus, views, k - 1);
      assert views[k] == Step(views[k - 1], bus[k - 1]);
      CutsNext(bus, k - 1, views[k - 1]);
    }
  }

  lemma CutsStep(v: View, e: Event)
    requires v.View? && Step(v, e).View?
    ensures Step(v, e).cuts == Cuts(v, e) && (e.Opcode? ==> v.open.NoCommand?)
  {
  }

  lemma CutsNext(bus: seq<Event>, k: nat, v: View)
    requires k < |bus| && PhaseKnown(v) && v.script == Heard(bus, k) && Step(v, bus[k]).View?
    requires v.cuts == CutsIn(bus, k)
    ensures Step(v, bus[k]).cuts == CutsIn(bus, k + 1)
  {
    CutsStep(v, bus[k]);
    var script := Heard(bus, k);
    assert CutsIn(bus, k + 1) == CutsIn(bus, k) + if bus[k].Opcode? && Midway(script) then 1 else 0;
  }

  lemma CutsMeaning(bus: seq<Event>, v: View)
    requires Observed(bus, v) && v.View?
    ensures v.cuts == CutsIn(bus, |bus|) && (v.open.NoCommand? ==> v.inData == Midway(Heard(bus, |bus|)))
  {
    var views: seq<View> :| Traces(bus, views) && views[|bus|] == v;
    CutsAre(bus, views, |bus|);
    HeardAt(bus, views, |bus|);
    PhaseThroughout(bus, views, |bus|);
  }

  /** A transfer cut short is followed by nothing but a reset. */
  ghost predicate DataFramed(script: seq<Entry>) {
    forall i: nat | i < |script| - 1 && Unfinished(script[i]) :: script[i + 1] == Reset
  }

  /** A view without cuts has a script with proper data phases, also when a command is half sent. */
  ghost predicate Uncut(v: View) {
    PhaseKnown(v) && (v.cuts == 0 ==> DataFramed(v.script) && (v.open.Collecting? ==> !Midway(v.script)))
  }

  lemma UncutStep(v: View, e: Event)
    requires Uncut(v) && Step(v, e).View?
    ensures Uncut(Step(v, e))
  {
    PhaseStep(v, e);
    var v' := Step(v, e);
    var n := |v.script|;
    if v'.cuts == 0 {
      assert forall i | 0 <= i < n - 1 :: v'.script[i] == v.script[i];
    }
  }

  lemma {:induction false} UncutThroughout(bus: seq<Event>, views: seq<View>, k: nat)
    requires Traces(bus, views) && views[|bus|].View? && k <= |bus|
    ensures Uncut(views[k])
  {
    CleanThroughout(bus, views, k);
    if k > 0 {
      UncutThroughout(bus, views, k - 1);
      assert views[k] == Step(views[k - 1], bus[k - 1]);
      UncutStep(views[k - 1], bus[k - 1]);
    }
  }

  /** Without cuts, every transfer whose data phase was left early is followed by a reset. */
  lemma UncutMeaning(bus: seq<Event>, v: View)
    requires Observed(bus, v) && v.View? && v.cuts == 0
    ensures DataFramed(v.script)
  {
    var views: seq<View> :| Traces(bus, views) && views[|bus|] == v;
    UncutThroughout(bus, views, |bus|);
  }

  /** Inside any data phase the next opcode is a cut, and nothing else about the trace is wrong. */
  lemma OpcodeCuts(v: View, op: byte)
    requires v.View? && v.restore.None? && v.open.NoCommand? && v.inData
    requires IsCommand(op) && (op == CONFIGURE ==> ConfigureDue(v.since)) && (op == SPECIFY ==> v.rate.Some?)
    ensures Step(v, Opcode(op)).View? && Step(v, Opcode(op)).cuts == v.cuts + 1
  {
  }

  const ONE_SECTOR: seq<byte> := [0, 0, 0, 1, 2, 1, 0x1B, 0xFF]

  /** Three of the 512 bytes of a write, then a recalibrate: commands and resets are framed properly, the
      data phase is not. */
  lemma CutExample() returns (bus: seq<Event>, v: View)
    ensures bus == [Dor(0x14), Opcode(WRITE_DATA)] + Bytes(ONE_SECTOR) + [Data(1), Data(2), Data(3), Opcode(RECALIBRATE)]
    ensures Observed(bus, v) && v.View? && v.cuts == 1
    ensures v.script == [Cmd(WRITE_DATA, ONE_SECTOR, [1, 2, 3], [])]
  {
    bus, v := [Dor(0x14)], Step(PowerOn(0), Dor(0x14));
    ObservedFirst(0, Dor(0x14));
    bus, v := Next(bus, v, Opcode(WRITE_DATA));
    bus, v := Collect(bus, v, ONE_SECTOR, 0);
    bus, v := CutAfterThree(bus, v, ONE_SECTOR);
  }

  /** The rest of a command's parameters. */
  lemma {:induction false} Collect(bus: seq<Event>, v: View, ps: seq<byte>, k: nat) returns (bus': seq<Event>, v': View)
    requires Observed(bus, v) && v.View? && v.restore.None?
    requires v.open.Collecting? && k < |ps| == Arity(v.open.op) && v.open.params == ps[..k]
    ensures bus' == bus + Bytes(ps[k..]) && Observed(bus', v')
    ensures v' == Complete(v, v.open.op, ps)
    decreases |ps| - k
  {
    assert ps[..k + 1] == ps[..k] + [ps[k]] && Bytes(ps[k..]) == [Param(ps[k])] + Bytes(ps[k + 1..]);
    bus', v' := Next(bus, v, Param(ps[k]));
    if k + 1 < |ps| {
      bus', v' := Collect(bus', v', ps, k + 1);
    } else {
      assert ps[..|ps|] == ps;
    }
  }

  lemma Send(bus: seq<Event>, v: View, ps: seq<byte>, sent: seq<byte>, b: byte, more: seq<byte>)
    returns (bus': seq<Event>, v': View)
    requires Observed(bus, v) && v.View? && v.restore.None? && v.open.NoCommand?
    requires v.script == [Cmd(WRITE_DATA, ps, sent, [])] && more == sent + [b]
    ensures bus' == bus + [Data(b)] && Observed(bus', v')
    ensures v' == v.(script := [Cmd(WRITE_DATA, ps, more, [])], inData := Unfinished(Cmd(WRITE_DATA, ps, more, [])))
  {
    bus', v' := Next(bus, v, Data(b));
    assert v.script[0 := Cmd(WRITE_DATA, ps, more, [])] == [Cmd(WRITE_DATA, ps, more, [])];
  }

  lemma CutAfterThree(bus: seq<Event>, v: View, ps: seq<byte>) returns (bus': seq<Event>, v': View)
    requires Observed(bus, v) && v.View? && v.restore.None? && v.open.NoCommand?
    requires v.script == [Cmd(WRITE_DATA, ps, [], [])] && |ps| == 8 && SpanOf(ps) > 3
    ensures bus' == bus + [Data(1), Data(2), Data(3), Opcode(RECALIBRATE)] && Observed(bus', v')
    ensures v'.View? && v'.cuts == v.cuts + 1
    ensures v'.script == [Cmd(WRITE_DATA, ps, [1, 2, 3], [])]
  {
    bus', v' := Send(bus, v, ps, [], 1, [1]);
    bus', v' := Send(bus', v', ps, [1], 2, [1, 2]);
    bus', v' := Send(bus', v', ps, [1, 2], 3, [1, 2, 3]);
    bus', v' := Next(bus', v', Opcode(RECALIBRATE));
  }

  function Bytes(ps: seq<byte>): (r: seq<Event>)
    ensures |r| == |ps|
  {
    seq(|ps|, i requires 0 <= i < |ps| => Param(ps[i]))
  }

  lemma Next(bus: seq<Event>, v: View, e: Event) returns (bus': seq<Event>, v': View)
    requires Observed(bus, v)
    ensures bus' == bus + [e] && v' == Step(v, e) && Observed(bus', v')
  {
    ObservedAppend(bus, v, e);
    bus', v' := bus + [e], Step(v, e);
  }

  /** The value of the DOR after the first `k` events: whatever was written to it last. */
  ghost function LastDor(bus: seq<Event>, k: nat): byte
    requires k <= |bus|
  {
    if k == 0 then 0
    else match bus[k - 1]
      case Dor(x) => x
      case _ => LastDor(bus, k - 1)
  }

  lemma {:induction false} DorIsLast(bus: seq<Event>, views: seq<View>, k: nat)
    requires Traces(bus, views) && views[|bus|].View? && k <= |bus|
    ensures views[k].View? && views[k].dor == LastDor(bus, k)
  {
    CleanThroughout(bus, views, k);
    if k > 0 {
      DorIsLast(bus, views, k - 1);
      DorStep(views[k - 1], bus[k - 1]);
    }
  }

  lemma DorStep(v: View, e: Event)
    requires v.View? && Step(v, e).View?
    ensures Step(v, e).dor == if e.Dor? then e.v else v.dor
  {
  }

  /** The CCR after the first `k` events, if it was written since the last reset. */
  ghost function RateAt(bus: seq<Event>, k: nat): Option<byte>
    requires k <= |bus|
  {
    if k == 0 then None
    else match bus[k - 1]
      case Ccr(x) => Some(x)
      case Dor(x) => if x == 0 then None else RateAt(bus, k - 1)
      case _ => RateAt(bus, k - 1)
  }

  lemma RateStep(v: View, e: Event)
    requires v.View? && Step(v, e).View?
    ensures Step(v, e).rate == if e.Ccr? then Some(e.v) else if e == Dor(0) then None else v.rate
    ensures e == Opcode(SPECIFY) ==> v.rate.Some?
  {
  }

  lemma {:induction false} RateIs(bus: seq<Event>, views: seq<View>, k: nat)
    requires Traces(bus, views) && views[|bus|].View? && k <= |bus|
    ensures views[k].View? && views[k].rate == RateAt(bus, k)
  {
    CleanThroughout(bus, views, k);
    if k > 0 {
      RateIs(bus, views, k - 1);
      assert views[k] == Step(views[k - 1], bus[k - 1]);
      RateStep(views[k - 1], bus[k - 1]);
    }
  }

  /** Every specify finds the data rate chosen since the last reset. */
  lemma SpecifyMeaning(bus: seq<Event>, v: View, j: nat)
    requires Observed(bus, v) && v.View? && j < |bus| && bus[j] == Opcode(SPECIFY)
    ensures RateAt(bus, j).Some?
  {
    var views: seq<View> :| Traces(bus, views) && views[|bus|] == v;
    RateIs(bus, views, j);
    CleanThroughout(bus, views, j + 1);
    assert views[j + 1] == Step(views[j], bus[j]);
    RateStep(views[j], bus[j]);
  }

  /** Without faults no wait timed out. */
  lemma {:induction false} FaultlessTrace(bus: seq<Event>, views: seq<View>, k: nat)
    requires Traces(bus, views) && views[|bus|].View? && k <= |bus|
    ensures views[k].View? && (views[k].faults == 0 ==> Timeout !in bus[..k])
  {
    CleanThroughout(bus, views, k);
    if k > 0 {
      FaultlessTrace(bus, views, k - 1);
      assert views[k] == Step(views[k - 1], bus[k - 1]);
      FaultStep(views[k - 1], bus[k - 1]);
      assert bus[..k] == bus[..k - 1] + [bus[k - 1]];
    }
  }

  /** The hardware is at fault exactly when a wait times out or a sense interrupt completes with a status
      that does not fit. */
  lemma FaultStep(v: View, e: Event)
    requires v.View? && Step(v, e).View?
    ensures Step(v, e).faults == v.faults + if e.Timeout? || Misreports(v, e) then 1 else 0
  {
  }

  predicate Misreports(v: View, e: Event)
    requires v.View?
  {
    && e.Got? && v.script != []
    && var last := v.script[|v.script| - 1];
       last.Cmd? && last.op == SENSE_INTERRUPT && |last.got| == 1 && !StatusFits(v.since, last.got[0], v.drive)
  }

  predicate IsFifo(e: Event) {
    e.Opcode? || e.Param? || e.Data? || e.Got?
  }

  /** Every FIFO transfer happened while the DOR had the selected drive's motor running. */
  ghost predicate MotorThroughout(bus: seq<Event>) {
    forall j: nat {:trigger LastDor(bus, j)} | j < |bus| && IsFifo(bus[j]) :: MotorOn(LastDor(bus, j))
  }

  lemma {:induction false} LastDorPrefix(bus: seq<Event>, e: Event, k: nat)
    requires k <= |bus|
    ensures LastDor(bus + [e], k) == LastDor(bus, k)
  {
    if k > 0 {
      LastDorPrefix(bus, e, k - 1);
    }
  }

  lemma MotorMore(bus: seq<Event>, v: View, e: Event)
    requires Observed(bus, v) && v.View? && MotorThroughout(bus) && (IsFifo(e) ==> MotorOn(v.dor))
    ensures MotorThroughout(bus + [e])
  {
    var views: seq<View> :| Traces(bus, views) && views[|bus|] == v;
    DorIsLast(bus, views, |bus|);
    forall j: nat | j < |bus + [e]| && IsFifo((bus + [e])[j])
      ensures MotorOn(LastDor(bus + [e], j))
    {
      LastDorPrefix(bus, e, j);
    }
  }

  /** Sense interrupts in progress since the restore, as counted from the trace. */
  ghost predicate SensingMatches(v: View, ops: nat, gots: nat, onlySense: bool) {
    && v.View? && v.restore.None? && v.since != Settled
    && (v.since.Sensing? ==>
          && onlySense && v.since.owed <= 2
          && ops == v.since.done + (if v.since.owed > 0 then 1 else 0)
          && gots == 2 * v.since.done + (if v.since.owed > 0 then 2 - v.since.owed else 0))
  }

  lemma SensingStep(v: View, e: Event, ops: nat, gots: nat, onlySense: bool)
    requires SensingMatches(v, ops, gots, onlySense)
    requires Step(v, e).View? && e != Dor(0) && e != Opcode(CONFIGURE)
    ensures SensingMatches(Step(v, e), ops + (if e.Opcode? then 1 else 0), gots + (if e.Got? then 1 else 0),
                           onlySense && (e.Opcode? ==> e.op == SENSE_INTERRUPT))
  {
  }

  ghost predicate OnlySense(bus: seq<Event>, lo: nat, hi: nat)
    requires hi <= |bus|
  {
    forall k | lo <= k < hi && bus[k].Opcode? :: bus[k].op == SENSE_INTERRUPT
  }

  lemma ResetStep(v: View, e: Event)
    requires v.View? && Step(v, Dor(0)).View? && Step(Step(v, Dor(0)), e).View? && e != Dor(0)
    ensures e == Dor(v.dor) && SensingMatches(Step(Step(v, Dor(0)), e), 0, 0, true)
  {
  }

  lemma {:induction false} AfterReset(bus: seq<Event>, views: seq<View>, i: nat, j: nat)
    requires Traces(bus, views) && views[|bus|].View? && i + 1 < j <= |bus| && bus[i] == Dor(0)
    requires forall k | i < k < j :: bus[k] != Dor(0) && bus[k] != Opcode(CONFIGURE)
    ensures bus[i + 1] == Dor(LastDor(bus, i))
    ensures SensingMatches(views[j], OpcodesIn(bus, i + 2, j), |GotIn(bus, i + 2, j)|, OnlySense(bus, i + 2, j))
    decreases j
  {
    CleanThroughout(bus, views, j);
    if j == i + 2 {
      DorIsLast(bus, views, i);
      CleanThroughout(bus, views, i + 1);
      assert views[i + 1] == Step(views[i], bus[i]) && views[i + 2] == Step(views[i + 1], bus[i + 1]);
      ResetStep(views[i], bus[i + 1]);
    } else {
      AfterReset(bus, views, i, j - 1);
      SensingStep(views[j - 1], bus[j - 1], OpcodesIn(bus, i + 2, j - 1), |GotIn(bus, i + 2, j - 1)|,
                  OnlySense(bus, i + 2, j - 1));
    }
  }

  lemma ConfigureNeeds(v: View)
    requires v.View? && Step(v, Opcode(CONFIGURE)).View?
    ensures v.restore.None? && ConfigureDue(v.since)
  {
  }

  /** Reset discipline, read off the trace alone: when a configure `j` is the first since reset
      `i`, the very next event restored the DOR value the reset interrupted, and between the two
      came exactly four sense interrupts with their eight result bytes and no other command. */
  lemma ResetMeaning(bus: seq<Event>, v: View, i: nat, j: nat)
    requires Observed(bus, v) && v.View? && i < j < |bus|
    requires bus[i] == Dor(0) && bus[j] == Opcode(CONFIGURE)
    requires forall k | i < k < j :: bus[k] != Dor(0) && bus[k] != Opcode(CONFIGURE)
    ensures i + 1 < j && bus[i + 1] == Dor(LastDor(bus, i))
    ensures OpcodesIn(bus, i + 2, j) == 4 && |GotIn(bus, i + 2, j)| == 8 && OnlySense(bus, i + 2, j)
  {
    var views: seq<View> :| Traces(bus, views) && views[|bus|] == v;
    CleanThroughout(bus, views, i);
    CleanThroughout(bus, views, j);
    CleanThroughout(bus, views, j + 1);
    ConfigureNeeds(views[j]);
    assert views[i + 1] == Step(views[i], bus[i]);
    AfterReset(bus, views, i, j);
  }

  /** Entries that neither move data nor touch the platters. */
  predicate Quiet(e: Entry) {
    e.Reset? || (e.op != READ_DATA && e.op != WRITE_DATA)
  }

  /** `after` continues `before` with quiet entries only. */
  predicate Extends(before: seq<Entry>, after: seq<Entry>) {
    before <= after && forall i | |before| <= i < |after| :: Quiet(after[i])
  }
}
