/** ExclusiveMap (libutil/src/sync.rs): a cell reached only by applying a closure under an access flag.
    Contexts (threads of control, interrupt handlers, closures that call `map` again) interleave
    between any two memory operations. */
module Exclusive {

  /** A closure is a list of updates; each one loads the cell and later stores the new value. */
  type Closure<!T> = seq<T -> T>

  /** A closure being applied: how many updates are complete, and what the current one has loaded. */
  datatype Running<!T> = Idle | Live(body: Closure<T>, done: nat, reg: Loaded<T>)
  datatype Loaded<T> = Nothing | Got(value: T)

  /** `granted` lists the closures admitted so far, in the order of their compare_exchange. */
  datatype State<!T> = State(cell: T, access: bool, contexts: map<nat, Running<T>>, granted: seq<Closure<T>>)

  datatype Step<!T> =
    | Call(id: nat, f: Closure<T>)
    | Load(id: nat)
    | Store(id: nat)
    | Release(id: nat)

  function Context<T>(s: State<T>, id: nat): Running<T> {
    if id in s.contexts then s.contexts[id] else Idle
  }

  function New<T>(v: T): State<T> {
    State(v, false, map[], [])
  }

  /** One memory operation of `map`; an operation the context is not at does nothing. A refused
      compare_exchange changes nothing. */
  function Next<T>(s: State<T>, step: Step<T>): State<T> {
    var me := Context(s, step.id);
    match step
    case Call(id, f) =>
      if s.access then s
      else State(s.cell, true, s.contexts[id := Live(f, 0, Nothing)], s.granted + [f])
    case Load(id) =>
      if me.Live? && me.reg.Nothing? && me.done < |me.body|
      then s.(contexts := s.contexts[id := me.(reg := Got(s.cell))])
      else s
    case Store(id) =>
      if me.Live? && me.reg.Got? && me.done < |me.body|
      then s.(cell := me.body[me.done](me.reg.value),
              contexts := s.contexts[id := Live(me.body, me.done + 1, Nothing)])
      else s
    case Release(id) =>
      if me.Live? && me.done == |me.body|
      then s.(access := false, contexts := s.contexts[id := Idle])
      else s
  }

  function Run<T>(s: State<T>, steps: seq<Step<T>>): State<T> {
    if steps == [] then s else Next(Run(s, steps[..|steps| - 1]), steps[|steps| - 1])
  }

  // ----- the reference: whole closures, one after the other

  function Apply<T>(v: T, f: Closure<T>): T {
    if f == [] then v else f[|f| - 1](Apply(v, f[..|f| - 1]))
  }

  function Fold<T>(v: T, fs: seq<Closure<T>>): T {
    if fs == [] then v else Apply(Fold(v, fs[..|fs| - 1]), fs[|fs| - 1])
  }

  /** The live closure is the last one admitted; the cell is the earlier ones in full and the
      complete updates of the live one, and what it has loaded is still in the cell. */
  ghost predicate InProgress<T(!new)>(v: T, s: State<T>, me: Running<T>) {
    && me.Live? && me.done <= |me.body| && |s.granted| > 0 && s.granted[|s.granted| - 1] == me.body
    && s.cell == Apply(Fold(v, s.granted[..|s.granted| - 1]), me.body[..me.done])
    && (me.reg.Got? ==> me.reg.value == s.cell && me.done < |me.body|)
  }

  ghost predicate Inv<T(!new)>(v: T, s: State<T>) {
    && (forall a, b :: Context(s, a).Live? && Context(s, b).Live? ==> a == b)
    && (forall id :: Context(s, id).Live? ==> s.access && InProgress(v, s, Context(s, id)))
    && (s.access ==> exists id :: Context(s, id).Live?)
    && (!s.access ==> s.cell == Fold(v, s.granted))
  }

  /** A state in which only context `id` runs, as far as it has come. */
  lemma OneRuns<T(!new)>(v: T, s: State<T>, s': State<T>, id: nat, me: Running<T>)
    requires forall a | a != id :: !Context(s, a).Live?
    requires s'.contexts == s.contexts[id := me] && s'.access && InProgress(v, s', me)
    ensures Inv(v, s')
  {
    assert Context(s', id) == me;
    forall a | a != id
      ensures Context(s', a) == Context(s, a)
    {
    }
  }

  lemma StoreKeeps<T(!new)>(v: T, s: State<T>, id: nat)
    requires Inv(v, s) && Context(s, id).Live? && Next(s, Store(id)) != s
    ensures Inv(v, Next(s, Store(id)))
  {
    var me := Context(s, id);
    assert me.body[..me.done + 1][..me.done] == me.body[..me.done];
    OneRuns(v, s, Next(s, Store(id)), id, Live(me.body, me.done + 1, Nothing));
  }

  lemma ReleaseKeeps<T(!new)>(v: T, s: State<T>, id: nat)
    requires Inv(v, s) && Context(s, id).Live? && Next(s, Release(id)) != s
    ensures Inv(v, Next(s, Release(id)))
  {
    var me, s' := Context(s, id), Next(s, Release(id));
    assert me.body[..me.done] == me.body;
    forall a
      ensures !Context(s', a).Live?
    {
      assert a != id ==> Context(s', a) == Context(s, a);
    }
  }

  lemma NextKeeps<T(!new)>(v: T, s: State<T>, step: Step<T>)
    requires Inv(v, s)
    ensures Inv(v, Next(s, step))
  {
    var s', me := Next(s, step), Context(s, step.id);
    if s' != s {
      match step
      case Call(id, f) =>
        assert s'.granted[..|s.granted|] == s.granted && f[..0] == [];
        OneRuns(v, s, s', id, Live(f, 0, Nothing));
      case Load(id) =>
        OneRuns(v, s, s', id, me.(reg := Got(s.cell)));
      case Store(id) =>
        StoreKeeps(v, s, id);
      case Release(id) =>
        ReleaseKeeps(v, s, id);
    }
  }

  lemma {:induction false} RunKeeps<T(!new)>(v: T, steps: seq<Step<T>>)
    ensures Inv(v, Run(New(v), steps))
  {
    if steps != [] {
      RunKeeps(v, steps[..|steps| - 1]);
      NextKeeps(v, Run(New(v), steps[..|steps| - 1]), steps[|steps| - 1]);
    }
  }

  /** In every interleaving at most one closure is live, a call is refused exactly while one is, and
      a refusal changes nothing. */
  lemma MapIsExclusive<T(!new)>(v: T, steps: seq<Step<T>>, id: nat, f: Closure<T>)
    ensures var s := Run(New(v), steps);
            && (forall a, b :: Context(s, a).Live? && Context(s, b).Live? ==> a == b)
            && (Next(s, Call(id, f)) == s <==> exists a :: Context(s, a).Live?)
            && (Next(s, Call(id, f)) != s ==> Next(s, Call(id, f)).granted == s.granted + [f])
  {
    RunKeeps(v, steps);
  }

  /** In every interleaving, whenever no closure is live the cell holds what the admitted closures
      give when applied one after the other, whole, in the order of admission. */
  lemma MapIsAtomic<T(!new)>(v: T, steps: seq<Step<T>>)
    ensures var s := Run(New(v), steps);
            && (forall id :: Context(s, id).Live? ==> InProgress(v, s, Context(s, id)))
            && ((forall id :: !Context(s, id).Live?) ==> s.cell == Fold(v, s.granted))
  {
    RunKeeps(v, steps);
  }

  // ----- progress

  /** A finished closure frees the cell: after its release nothing is live and the next call is admitted. */
  lemma ReleaseFrees<T(!new)>(v: T, steps: seq<Step<T>>, id: nat, next: nat, f: Closure<T>)
    requires var me := Context(Run(New(v), steps), id); me.Live? && me.done == |me.body|
    ensures var s := Next(Run(New(v), steps), Release(id));
            && !s.access && (forall a :: !Context(s, a).Live?) && s.cell == Fold(v, s.granted)
            && Context(Next(s, Call(next, f)), next) == Live(f, 0, Nothing)
            && Next(s, Call(next, f)).granted == s.granted + [f]
  {
    RunKeeps(v, steps);
    var s := Run(New(v), steps);
    NextKeeps(v, s, Release(id));
    var s' := Next(s, Release(id));
    assert forall a | a != id :: Context(s', a) == Context(s, a);
  }

  /** The loads and stores of `n` updates. */
  function Updates<T>(id: nat, n: nat): seq<Step<T>> {
    if n == 0 then [] else Updates(id, n - 1) + [Load(id), Store(id)]
  }

  lemma RunTwo<T(!new)>(s: State<T>, steps: seq<Step<T>>, a: Step<T>, b: Step<T>)
    ensures Run(s, steps + [a, b]) == Next(Next(Run(s, steps), a), b)
  {
    var all := steps + [a, b];
    assert all[..|all| - 1] == steps + [a] && (steps + [a])[..|steps|] == steps;
  }

  lemma UpdateOne<T(!new)>(s: State<T>, id: nat)
    requires Context(s, id).Live? && Context(s, id).reg == Nothing && Context(s, id).done < |Context(s, id).body|
    ensures var me := Context(s, id); var r := Next(Next(s, Load(id)), Store(id));
            && Context(r, id) == Live(me.body, me.done + 1, Nothing) && r.cell == me.body[me.done](s.cell)
            && r.access == s.access && r.granted == s.granted
  {
    var loaded := Next(s, Load(id));
    assert Context(loaded, id) == Context(s, id).(reg := Got(s.cell));
  }

  lemma ApplyOne<T(!new)>(v: T, f: Closure<T>, n: nat)
    requires 0 < n <= |f|
    ensures Apply(v, f[..n]) == f[n - 1](Apply(v, f[..n - 1]))
  {
    assert f[..n][..n - 1] == f[..n - 1];
  }

  /** A context that runs undisturbed completes one update after the other. */
  lemma {:induction false} UpdatesRun<T(!new)>(s: State<T>, id: nat, n: nat)
    requires Context(s, id).Live? && Context(s, id).done == 0 && Context(s, id).reg == Nothing
    requires n <= |Context(s, id).body|
    ensures var me := Context(s, id); var r := Run(s, Updates(id, n));
            && Context(r, id) == Live(me.body, n, Nothing) && r.cell == Apply(s.cell, me.body[..n])
            && r.access == s.access && r.granted == s.granted
  {
    if n > 0 {
      UpdatesRun(s, id, n - 1);
      RunTwo(s, Updates(id, n - 1), Load(id), Store(id));
      UpdateOne(Run(s, Updates(id, n - 1)), id);
      ApplyOne(s.cell, Context(s, id).body, n);
    }
  }

  /** `map` on a free cell, undisturbed: it is admitted, applies the whole closure and frees the cell. */
  lemma MapApplies<T(!new)>(s: State<T>, id: nat, f: Closure<T>)
    requires !s.access
    ensures var r := Next(Run(Next(s, Call(id, f)), Updates(id, |f|)), Release(id));
            r.cell == Apply(s.cell, f) && !r.access && Context(r, id) == Idle && r.granted == s.granted + [f]
  {
    var called := Next(s, Call(id, f));
    assert Context(called, id) == Live(f, 0, Nothing);
    UpdatesRun(called, id, |f|);
    assert f[..|f|] == f;
  }
}
