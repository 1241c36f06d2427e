/** ContAccess (kernel/src/interrupts/cont_access.rs) on one core: calls and interrupt handlers nest on
    one stack and only the innermost activity runs. One ContAccess is followed; the counter is the
    kernel-wide INTERRUPT_DEPTH. */
module ContinuousAccess {

  datatype Kind = Btemap | Write | Copy

  /** An activity on the stack. A handler counts itself only after saving registers and uncounts
      itself before returning. An access has loaded `locked`, then passed its check, and for `btemap`
      holds the lock while its closure runs. */
  datatype Frame =
    | Base
    | Entering | Handling | Leaving
    | Sampled(kind: Kind, locked: bool) | Passed(kind: Kind) | Mapping

  /** `dead` once a badbug has been triggered: nothing runs after it. */
  datatype State = State(stack: seq<Frame>, depth: int, locked: bool, dead: bool)

  datatype Step = Interrupt | Access(kind: Kind) | Advance

  const BOOT := State([Base], 0, false, false)

  function TopOf(s: State): Frame
    requires s.stack != []
  {
    s.stack[|s.stack| - 1]
  }

  function Push(s: State, f: Frame): State {
    s.(stack := s.stack + [f])
  }

  function Pop(s: State): State
    requires s.stack != []
  {
    s.(stack := s.stack[..|s.stack| - 1])
  }

  function Become(s: State, f: Frame): State
    requires s.stack != []
  {
    Push(Pop(s), f)
  }

  /** Ordinary code, a handler's body and a btemap closure can start an access. */
  predicate CanCall(f: Frame) {
    f in {Base, Handling, Mapping}
  }

  predicate InUse(f: Frame) {
    f.Passed? || f.Mapping?
  }

  /** One step of the innermost activity, or an interrupt on top of it. */
  function Next(s: State, step: Step): State
    requires s.stack != []
  {
    if s.dead then s
    else match step
      case Interrupt => Push(s, Entering)
      case Access(kind) => if CanCall(TopOf(s)) then Push(s, Sampled(kind, s.locked)) else s
      case Advance =>
        match TopOf(s)
        case Base => s
        case Entering => Become(s, Handling).(depth := s.depth + 1)
        case Handling => Become(s, Leaving).(depth := s.depth - 1)
        case Leaving => Pop(s)
        case Sampled(kind, locked) => if locked || s.depth != 0 then s.(dead := true) else Become(s, Passed(kind))
        case Passed(kind) => if kind == Btemap then Become(s, Mapping).(locked := true) else Pop(s)
        case Mapping => Pop(s).(locked := false)
  }

  function Run(steps: seq<Step>): (s: State) {
    if steps == [] then BOOT
    else
      var before := Run(steps[..|steps| - 1]);
      if before.stack == [] then before else Next(before, steps[|steps| - 1])
  }

  /** Handlers that are counted. */
  function Counted(stack: seq<Frame>): nat {
    if stack == [] then 0
    else Counted(stack[..|stack| - 1]) + if stack[|stack| - 1] == Handling then 1 else 0
  }

  /** Whether the stack holds a running btemap closure: it can only sit on ordinary code. */
  predicate Locked(stack: seq<Frame>) {
    |stack| > 1 && stack[1] == Mapping
  }

  ghost predicate FrameOk(stack: seq<Frame>, i: nat)
    requires i < |stack|
  {
    && (stack[i].Base? <==> i == 0)
    && (stack[i].Sampled? ==> CanCall(stack[i - 1]) && stack[i].locked == (i > 1 && stack[1] == Mapping))
    && (InUse(stack[i]) ==> i == 1)
  }

  ghost predicate Nested(stack: seq<Frame>) {
    stack != [] && forall i: nat | i < |stack| :: FrameOk(stack, i)
  }

  ghost predicate Inv(s: State) {
    Nested(s.stack) && s.depth == Counted(s.stack) && s.locked == Locked(s.stack)
  }

  lemma PushNested(stack: seq<Frame>, f: Frame)
    requires Nested(stack) && !f.Base? && (InUse(f) ==> |stack| == 1)
    requires f.Sampled? ==> CanCall(stack[|stack| - 1]) && f.locked == Locked(stack)
    ensures Nested(stack + [f])
    ensures Locked(stack + [f]) == (Locked(stack) || f == Mapping)
    ensures Counted(stack + [f]) == Counted(stack) + if f == Handling then 1 else 0
  {
    var stack' := stack + [f];
    CountedLast(stack, f);
    forall i: nat | i < |stack'| ensures FrameOk(stack', i) {
      if i < |stack| {
        assert FrameOk(stack, i);
      }
    }
  }

  lemma PopNested(stack: seq<Frame>, f: Frame)
    requires Nested(stack + [f]) && !f.Base?
    ensures Nested(stack)
    ensures Locked(stack) == (Locked(stack + [f]) && f != Mapping)
    ensures Counted(stack) == Counted(stack + [f]) - if f == Handling then 1 else 0
  {
    var stack' := stack + [f];
    CountedLast(stack, f);
    assert FrameOk(stack', 0) && FrameOk(stack', |stack|);
    forall i: nat | i < |stack| ensures FrameOk(stack, i) {
      assert FrameOk(stack', i);
    }
  }

  lemma CountedLast(stack: seq<Frame>, f: Frame)
    ensures Counted(stack + [f]) == Counted(stack) + if f == Handling then 1 else 0
  {
    assert (stack + [f])[..|stack|] == stack;
  }

  /** A counted handler anywhere on the stack keeps the counter above zero. */
  lemma {:induction false} CountedPositive(stack: seq<Frame>, i: nat)
    requires i < |stack| && stack[i] == Handling
    ensures Counted(stack) > 0
  {
    if i < |stack| - 1 {
      CountedPositive(stack[..|stack| - 1], i);
    }
  }

  /** A check can only pass for an access that ordinary code started. */
  lemma PassedFromBase(s: State)
    requires Inv(s) && TopOf(s).Sampled? && !TopOf(s).locked && s.depth == 0
    ensures |s.stack| == 2 && s.stack[0] == Base
  {
    var n := |s.stack| - 1;
    assert FrameOk(s.stack, n);
    assert FrameOk(s.stack, n - 1);
    if s.stack[n - 1] == Handling {
      CountedPositive(s.stack, n - 1);
    }
  }

  lemma AdvanceKeeps(s: State)
    requires Inv(s) && !s.dead && !TopOf(s).Base?
    ensures Inv(Next(s, Advance))
  {
    var rest, f := Pop(s).stack, TopOf(s);
    assert s.stack == rest + [f];
    assert FrameOk(s.stack, |rest|);
    PopNested(rest, f);
    match f
    case Entering => PushNested(rest, Handling);
    case Handling => PushNested(rest, Leaving);
    case Leaving =>
    case Sampled(kind, locked) =>
      if !locked && s.depth == 0 {
        PassedFromBase(s);
        PushNested(rest, Passed(kind));
      }
    case Passed(kind) =>
      if kind == Btemap {
        PushNested(rest, Mapping);
      }
    case Mapping =>
  }

  lemma NextKeeps(s: State, step: Step)
    requires Inv(s)
    ensures Inv(Next(s, step))
  {
    var n := |s.stack| - 1;
    assert FrameOk(s.stack, n);
    if !s.dead {
      match step
      case Interrupt => PushNested(s.stack, Entering);
      case Access(kind) =>
        if CanCall(TopOf(s)) {
          PushNested(s.stack, Sampled(kind, s.locked));
        }
      case Advance =>
        if !TopOf(s).Base? {
          AdvanceKeeps(s);
        }
    }
  }

  lemma {:induction false} RunKeeps(steps: seq<Step>)
    ensures Inv(Run(steps))
  {
    if steps != [] {
      RunKeeps(steps[..|steps| - 1]);
      NextKeeps(Run(steps[..|steps| - 1]), steps[|steps| - 1]);
    }
  }

  /** However interrupts nest and whatever their handlers and the closures call, the ContAccess never
      has two accesses in use at once. */
  lemma AtMostOneAccess(steps: seq<Step>, i: nat, j: nat)
    requires i < |Run(steps).stack| && j < |Run(steps).stack|
    requires InUse(Run(steps).stack[i]) && InUse(Run(steps).stack[j])
    ensures i == j
  {
    RunKeeps(steps);
    assert FrameOk(Run(steps).stack, i) && FrameOk(Run(steps).stack, j);
  }

  /** The rules of use are exact: an access triggers a badbug if and only if it was started inside an
      interrupt handler or inside this ContAccess's own btemap. */
  lemma BadbugIff(steps: seq<Step>)
    requires var s := Run(steps); !s.dead && s.stack != [] && TopOf(s).Sampled?
    ensures var s := Run(steps); var n := |s.stack| - 1;
            && n > 0
            && (Next(s, Advance).dead <==> s.stack[n - 1] == Handling || s.stack[n - 1] == Mapping)
  {
    RunKeeps(steps);
    var s := Run(steps);
    var n := |s.stack| - 1;
    assert FrameOk(s.stack, n) && FrameOk(s.stack, n - 1);
    if s.stack[n - 1] == Handling {
      CountedPositive(s.stack, n - 1);
    } else if s.stack[n - 1] == Base {
      assert s.stack == [Base] + [TopOf(s)];
      CountedLast([Base], TopOf(s));
    }
  }

  /** The lock is set exactly while a btemap closure is on the stack. */
  lemma LockedIff(steps: seq<Step>)
    ensures Run(steps).locked <==> exists i :: 0 <= i < |Run(steps).stack| && Run(steps).stack[i] == Mapping
  {
    RunKeeps(steps);
    var s := Run(steps);
    forall i: nat | i < |s.stack| && s.stack[i] == Mapping
      ensures i == 1
    {
      assert FrameOk(s.stack, i);
    }
  }

  /** An access that ordinary code starts, undisturbed: it passes its check; a btemap then runs its closure
      with the lock set and clears it afterwards, and the others touch the value and are done. */
  lemma AccessCompletes(steps: seq<Step>, kind: Kind)
    requires Run(steps).stack == [Base] && !Run(steps).dead
    ensures var s := Run(steps);
            var passed := Next(Next(s, Access(kind)), Advance);
            && passed.stack == [Base, Passed(kind)] && !passed.dead && !passed.locked
            && (kind == Btemap ==>
                  var inside := Next(passed, Advance);
                  inside.stack == [Base, Mapping] && inside.locked && Next(inside, Advance) == s)
            && (kind != Btemap ==> Next(passed, Advance) == s)
  {
    RunKeeps(steps);
    var s := Run(steps);
    assert Counted([Base]) == 0 && s.depth == 0 && !s.locked;
    var sampled := Next(s, Access(kind));
    assert sampled.stack == [Base, Sampled(kind, false)];
    var passed := Next(sampled, Advance);
    assert passed.stack == [Base, Passed(kind)];
    if kind == Btemap {
      var inside := Next(passed, Advance);
      assert inside.stack == [Base, Mapping];
      assert Next(inside, Advance).stack == [Base];
    } else {
      assert Next(passed, Advance).stack == [Base];
    }
  }

  /** A handler, undisturbed: it is counted while its body runs, and leaves everything as it found it. */
  lemma HandlerReturns(steps: seq<Step>)
    requires !Run(steps).dead
    ensures var s := Run(steps);
            && Run(steps).stack != []
            && var handling := Next(Next(s, Interrupt), Advance);
               && handling.stack == s.stack + [Handling] && handling.depth == s.depth + 1
               && Next(Next(handling, Advance), Advance) == s
  {
    RunKeeps(steps);
    var s := Run(steps);
    var entering := Next(s, Interrupt);
    assert entering.stack[..|s.stack|] == s.stack;
    var handling := Next(entering, Advance);
    assert handling.stack == s.stack + [Handling] && handling.stack[..|s.stack|] == s.stack;
    var leaving := Next(handling, Advance);
    assert leaving.stack == s.stack + [Leaving] && leaving.stack[..|s.stack|] == s.stack;
  }
}
