/** The floppy motor (kernel/src/floppy/motor.rs): two statics and the motor bit of the
    digital output register (DOR), driven by calls from the driver and by timer ticks.
    Each call is one atomic step. */
module Motor {
  import opened Words

  datatype Mode = On | Disabling | Off

  /** MOTOR_STATE, MOTOR_TIME_LEFT and the DOR as last written. */
  datatype State = State(mode: Mode, left: nat, dor: byte)

  /** Ticks (less one) between `disable_motor` and the motor stopping. */
  const TIMEOUT: nat := 50

  function OnCommand(drive: bool): byte { if drive then 0x25 else 0x14 }

  function OffCommand(drive: bool): byte { if drive then 0x05 else 0x04 }

  /** Bit 4 runs drive 0's motor, bit 5 drive 1's. */
  predicate MotorRuns(dor: byte, drive: bool) {
    if drive then Bit(dor, 0x20) else Bit(dor, 0x10)
  }

  function Enable(s: State, drive: bool): State {
    match s.mode
    case Off => State(On, s.left, OnCommand(drive))
    case Disabling => s.(mode := On)
    case On => s
  }

  function Disable(s: State): State {
    s.(mode := Disabling, left := TIMEOUT)
  }

  /** One timer tick; the countdown is a u16 whose decrement wraps. */
  function Tick(s: State, drive: bool): State {
    if s.mode != Disabling then s
    else if s.left == 0 then State(Off, MOD16 - 1, OffCommand(drive))
    else s.(left := s.left - 1)
  }

  function ForceDisable(s: State, drive: bool): State {
    Tick(s.(mode := Disabling, left := 0), drive)
  }

  /** The bookkeeping tells the truth about the hardware, and no tick can wrap the countdown
      before the motor has been stopped. */
  ghost predicate Agrees(s: State, drive: bool) {
    && (s.mode == Off <==> !MotorRuns(s.dor, drive))
    && (s.mode == Disabling ==> s.left <= TIMEOUT)
  }

  datatype Call = CallEnable | CallDisable | CallForce | TimerTick

  function Apply(s: State, call: Call, drive: bool): State {
    match call
    case CallEnable => Enable(s, drive)
    case CallDisable => Disable(s)
    case CallForce => ForceDisable(s, drive)
    case TimerTick => Tick(s, drive)
  }

  ghost function Run(s: State, calls: seq<Call>, drive: bool): State {
    if calls == [] then s
    else Apply(Run(s, calls[..|calls| - 1], drive), calls[|calls| - 1], drive)
  }

  /** One step keeps the agreement exactly when it is not a disable of a stopped motor. */
  lemma StepAgrees(s: State, call: Call, drive: bool)
    requires Agrees(s, drive)
    ensures Agrees(Apply(s, call, drive), drive) <==> !(call == CallDisable && s.mode == Off)
  {
  }

  /** Whether some call in the run disables an already stopped motor. */
  ghost predicate DisablesStopped(s: State, calls: seq<Call>, drive: bool) {
    calls != [] &&
    var front := calls[..|calls| - 1];
    || (calls[|calls| - 1] == CallDisable && Run(s, front, drive).mode == Off)
    || DisablesStopped(s, front, drive)
  }

  /** Whether mode and motor bit agree before the run and after each of its calls. */
  ghost predicate AgreesThroughout(s: State, calls: seq<Call>, drive: bool) {
    && Agrees(Run(s, calls, drive), drive)
    && (calls != [] ==> AgreesThroughout(s, calls[..|calls| - 1], drive))
  }

  /** Over every interleaving of calls and ticks: the mode and the motor bit agree at every
      point of the run if and only if nobody disables a motor that is already off. */
  lemma {:induction false} RunAgreesIff(s: State, calls: seq<Call>, drive: bool)
    requires Agrees(s, drive)
    ensures AgreesThroughout(s, calls, drive) <==> !DisablesStopped(s, calls, drive)
  {
    if calls != [] {
      var front := calls[..|calls| - 1];
      RunAgreesIff(s, front, drive);
      if AgreesThroughout(s, front, drive) {
        StepAgrees(Run(s, front, drive), calls[|calls| - 1], drive);
      }
    }
  }

  /** From any state in agreement: enabling makes the motor run, forcing stops it at once, and ticks leave
      a motor that is on alone. */
  lemma CallsDo(s: State, drive: bool)
    requires Agrees(s, drive)
    ensures Enable(s, drive).mode == On && MotorRuns(Enable(s, drive).dor, drive)
    ensures ForceDisable(s, drive).mode == Off && !MotorRuns(ForceDisable(s, drive).dor, drive)
    ensures s.mode == On ==> Tick(s, drive) == s
  {
  }

  /** Every command keeps the controller out of reset, with interrupts and DMA off, on its own drive. */
  lemma CommandBits(drive: bool)
    ensures forall c | c in {OnCommand(drive), OffCommand(drive)} ::
              Bit(c, 4) && !Bit(c, 8) && c % 4 == if drive then 1 else 0
  {
  }

  lemma {:induction false} OnStaysOn(s: State, n: nat, drive: bool)
    requires s.mode == On
    ensures Run(s, Ticks(n), drive) == s
  {
    if n > 0 {
      assert Ticks(n)[..n - 1] == Ticks(n - 1);
      OnStaysOn(s, n - 1, drive);
    }
  }

  /** The call to avoid: a stopped motor that is told to stop, and then wanted again within 51 ticks,
      counts as running while its bit stays clear. */
  lemma StoppedTwice(s: State, n: nat, drive: bool)
    requires Agrees(s, drive) && s.mode == Off && n <= TIMEOUT
    ensures var after := Enable(Run(Disable(s), Ticks(n), drive), drive);
            after.mode == On && !MotorRuns(after.dor, drive)
  {
    TicksLeft(Disable(s), n, drive);
  }

  lemma {:induction false} TicksLeft(s: State, n: nat, drive: bool)
    requires s.mode == Disabling && n <= s.left
    ensures Run(s, Ticks(n), drive) == s.(left := s.left - n)
  {
    if n > 0 {
      assert Ticks(n)[..n - 1] == Ticks(n - 1);
      TicksLeft(s, n - 1, drive);
    }
  }

  ghost function Ticks(n: nat): seq<Call> {
    seq(n, _ => TimerTick)
  }

  /** After the last `disable_motor` the motor bit is still set through tick 50 and is clear
      from tick 51 on, whatever run came before. */
  lemma {:induction false} StopsOnTick51(s: State, n: nat, drive: bool)
    requires Agrees(s, drive) && s.mode != Off
    ensures var after := Run(Disable(s), Ticks(n), drive);
            && (MotorRuns(after.dor, drive) <==> n <= TIMEOUT)
            && (after.mode == if n <= TIMEOUT then Disabling else Off)
            && (n <= TIMEOUT ==> after.left == TIMEOUT - n)
  {
    if n > 0 {
      assert Ticks(n)[..n - 1] == Ticks(n - 1);
      StopsOnTick51(s, n - 1, drive);
    }
  }

  /** The statics themselves, changed in place. */
  class MotorDriver {
    const drive: bool
    var mode: Mode
    var left: nat
    var dor: byte

    function Now(): State reads this { State(mode, left, dor) }

    constructor (drive: bool, dor: byte)
      ensures this.drive == drive && Now() == State(Off, 0, dor)
    {
      this.drive, mode, left, this.dor := drive, Off, 0, dor;
    }

    method EnableMotor()
      modifies this
      ensures Now() == Enable(old(Now()), drive)
    {
      match mode
      case Off =>
        dor := if drive then 0x25 else 0x14;
        mode := On;
      case Disabling =>
        mode := On;
      case On =>
    }

    method DisableMotor()
      modifies this
      ensures Now() == Disable(old(Now()))
    {
      left := 50;
      mode := Disabling;
    }

    method ForceDisableMotor()
      modifies this
      ensures Now() == ForceDisable(old(Now()), drive)
    {
      mode := Disabling;
      left := 0;
      DecreaseMotorTime();
    }

    method DecreaseMotorTime()
      modifies this
      ensures Now() == Tick(old(Now()), drive)
    {
      if mode == Disabling {
        var before := left;
        left := if before == 0 then 0xFFFF else before - 1;
        if before == 0 {
          dor := if drive then 0x05 else 0x04;
          mode := Off;
        }
      }
    }
  }
}
