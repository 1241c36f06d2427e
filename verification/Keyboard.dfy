/** The keyboard ring buffer (kernel/src/interrupts/keyboard.rs): an interrupt handler that stores
    scancodes and a poller that removes them, sharing wrapping u8 indices. The handler runs with
    interrupts off and is one step; the poller may be interrupted between any two of its loads and
    stores. */
module Keyboard {
  import opened Words

  const SIZE: nat := 256

  /** How far the current poll has come, with the values it has loaded. */
  datatype Poll = Idle | HasRead(r: byte) | HasBoth(r: byte, w: byte) | HasCode(r: byte, code: byte)

  /** KBD_BUF, KBD_RPTR, KBD_WPTR and the poller. */
  datatype Ring = Ring(buf: seq<byte>, rptr: byte, wptr: byte, poll: Poll)

  /** The ring with its history: what arrived, what was handed to the decoder, and for the proof the
      arrival numbers taken and discarded, the next arrival to consider, and the number of arrivals
      when the poller last loaded the write index. */
  datatype World = World(ring: Ring, arrived: seq<byte>, delivered: seq<byte>,
                         taken: seq<nat>, discarded: seq<nat>, pos: nat, seen: nat)

  datatype Event = Interrupt(code: byte) | PollStep

  function EmptyBuf(): seq<byte> {
    seq(SIZE, _ => 0)
  }

  function Start(): World {
    World(Ring(EmptyBuf(), 0, 0, Idle), [], [], [], [], 0, 0)
  }

  function Range(lo: nat, hi: nat): (r: seq<nat>)
    requires lo <= hi
    ensures |r| == hi - lo && forall i | 0 <= i < |r| :: r[i] == lo + i
  {
    seq(hi - lo, i requires 0 <= i < hi - lo => lo + i)
  }

  /** The last arrival stored in slot `r`, given `n` arrivals. */
  function LatestAt(n: nat, r: byte): (k: nat)
    requires r < n
    ensures k < n <= k + SIZE && k % SIZE == r
  {
    n - 1 - (n - 1 - r) % SIZE
  }

  function Handler(w: World, code: byte): World {
    if |w.ring.buf| != SIZE then w else
    w.(ring := w.ring.(buf := w.ring.buf[w.ring.wptr := code], wptr := (w.ring.wptr + 1) % SIZE),
       arrived := w.arrived + [code])
  }

  predicate Sane(w: World) {
    |w.ring.buf| == SIZE && w.pos <= w.seen <= |w.arrived|
  }

  /** The next load or store of `poll_keyboard`. */
  function PollNext(w: World): World {
    if !Sane(w) then w else
    var ring := w.ring;
    match ring.poll
    case Idle => w.(ring := ring.(poll := HasRead(ring.rptr)))
    case HasRead(r) => w.(ring := ring.(poll := HasBoth(r, ring.wptr)), seen := |w.arrived|)
    case HasBoth(r, wp) =>
      if r >= wp then
        w.(ring := ring.(rptr := wp, poll := Idle),
           discarded := w.discarded + Range(w.pos, w.seen), pos := w.seen)
      else if r >= |w.arrived| then w
      else
        var k := LatestAt(|w.arrived|, r);
        if k < w.pos then w
        else
          w.(ring := ring.(poll := HasCode(r, ring.buf[r])),
             taken := w.taken + [k], discarded := w.discarded + Range(w.pos, k),
             pos := k + 1, seen := |w.arrived|)
    case HasCode(r, code) =>
      w.(ring := ring.(rptr := (ring.rptr + 1) % SIZE, poll := Idle), delivered := w.delivered + [code])
  }

  function Next(w: World, e: Event): World {
    match e
    case Interrupt(code) => Handler(w, code)
    case PollStep => PollNext(w)
  }

  ghost predicate Increasing(s: seq<nat>, below: nat) {
    && (forall i, j | 0 <= i < j < |s| :: s[i] < s[j])
    && (forall i | 0 <= i < |s| :: s[i] < below)
  }

  /** Slot `i % 256` holds arrival `i` for the last 256 arrivals. */
  ghost predicate Holds(buf: seq<byte>, arrived: seq<byte>) {
    |buf| == SIZE && forall i | 0 <= i < |arrived| && |arrived| - SIZE <= i :: buf[i % SIZE] == arrived[i]
  }

  ghost predicate PollerAt(w: World) {
    match w.ring.poll
    case Idle => w.ring.rptr == w.pos % SIZE
    case HasRead(r) => r == w.ring.rptr == w.pos % SIZE
    case HasBoth(r, wp) => r == w.ring.rptr == w.pos % SIZE && wp == w.seen % SIZE
    case HasCode(r, code) =>
      && r == w.ring.rptr < 255 && 0 < w.pos <= |w.arrived| && r == (w.pos - 1) % SIZE
      && w.taken != [] && w.taken[|w.taken| - 1] == w.pos - 1 && code == w.arrived[w.pos - 1]
  }

  /** What is handed over is what was taken, in order; the last one may still be in hand. */
  ghost predicate Delivered(w: World) {
    && (forall i | 0 <= i < |w.taken| :: w.taken[i] < |w.arrived|)
    && |w.taken| == |w.delivered| + (if w.ring.poll.HasCode? then 1 else 0)
    && (forall i | 0 <= i < |w.delivered| :: w.delivered[i] == w.arrived[w.taken[i]])
  }

  /** Every arrival before `pos` was taken or discarded, and not both. */
  ghost predicate Split(taken: seq<nat>, discarded: seq<nat>, pos: nat) {
    && Increasing(taken, pos) && Increasing(discarded, pos)
    && (forall i: nat | i < pos :: i in taken <==> i !in discarded)
    && |taken| + |discarded| == pos
  }

  ghost predicate Inv(w: World) {
    && Sane(w) && w.ring.wptr == |w.arrived| % SIZE && Holds(w.ring.buf, w.arrived)
    && PollerAt(w) && Delivered(w) && Split(w.taken, w.discarded, w.pos)
  }

  // ----- one step

  lemma HandlerKeeps(w: World, code: byte)
    requires Inv(w)
    ensures Inv(Handler(w, code))
  {
    HoldsMore(w.ring.buf, w.arrived, code);
    ArrivalKeeps(w, Handler(w, code), code);
    NextSlot(|w.arrived|);
  }

  lemma NextSlot(n: nat)
    ensures (n % SIZE + 1) % SIZE == (n + 1) % SIZE
  {
  }

  lemma ArrivalKeeps(w: World, w': World, code: byte)
    requires PollerAt(w) && Delivered(w)
    requires w'.arrived == w.arrived + [code] && w'.ring.poll == w.ring.poll && w'.ring.rptr == w.ring.rptr
    requires w'.delivered == w.delivered && w'.taken == w.taken && w'.pos == w.pos && w'.seen == w.seen
    ensures PollerAt(w') && Delivered(w')
  {
    assert forall i | 0 <= i < |w.arrived| :: w'.arrived[i] == w.arrived[i];
  }

  lemma HoldsMore(buf: seq<byte>, arrived: seq<byte>, code: byte)
    requires Holds(buf, arrived)
    ensures Holds(buf[|arrived| % SIZE := code], arrived + [code])
  {
    var n := |arrived|;
    forall i | 0 <= i <= n && n + 1 - SIZE <= i
      ensures buf[n % SIZE := code][i % SIZE] == (arrived + [code])[i]
    {
      if i < n {
        DifferentSlots(i, n);
      }
    }
  }

  lemma DifferentSlots(i: nat, n: nat)
    requires i < n < i + SIZE
    ensures i % SIZE != n % SIZE
  {
  }

  /** A poll that finds r < w takes an arrival at or after `pos`. */
  lemma TakesLater(pos: nat, seen: nat, n: nat)
    requires pos <= seen <= n && pos % SIZE < seen % SIZE
    ensures pos % SIZE < n && pos <= LatestAt(n, pos % SIZE)
  {
    var r := pos % SIZE;
    var base := seen - seen % SIZE + r;
    assert base % SIZE == r && base < seen;
    SameSlot(pos, base);
    SameSlot(base, LatestAt(n, r));
  }

  /** Of two numbers in the same slot, one that is less than a lap beyond the other's limit. */
  lemma SameSlot(a: nat, b: nat)
    requires a % SIZE == b % SIZE && a < b + SIZE
    ensures a <= b
  {
  }

  lemma SplitTake(taken: seq<nat>, discarded: seq<nat>, pos: nat, k: nat)
    requires Split(taken, discarded, pos) && pos <= k
    ensures Split(taken + [k], discarded + Range(pos, k), k + 1)
  {
    var more := Range(pos, k);
    forall i: nat | i < k + 1
      ensures i in taken + [k] <==> i !in discarded + more
    {
      if pos <= i < k {
        assert more[i - pos] == i;
        assert i in more;
      }
    }
  }

  lemma SplitSkip(taken: seq<nat>, discarded: seq<nat>, pos: nat, k: nat)
    requires Split(taken, discarded, pos) && pos <= k
    ensures Split(taken, discarded + Range(pos, k), k)
  {
    var more := Range(pos, k);
    forall i: nat | i < k
      ensures i in taken <==> i !in discarded + more
    {
      if pos <= i < k {
        assert more[i - pos] == i;
        assert i in more;
      }
    }
  }

  /** The poller takes arrival `k`. */
  lemma TakeKeeps(w: World)
    requires Inv(w) && w.ring.poll.HasBoth? && w.ring.poll.r < w.ring.poll.w
    ensures Inv(PollNext(w)) && PollNext(w).ring.poll.HasCode?
    ensures w.ring.poll.r < |w.arrived| && PollNext(w).pos == LatestAt(|w.arrived|, w.ring.poll.r) + 1
    ensures PollNext(w).discarded == w.discarded + Range(w.pos, PollNext(w).pos - 1)
  {
    TakesLater(w.pos, w.seen, |w.arrived|);
    var k := LatestAt(|w.arrived|, w.ring.poll.r);
    assert w.ring.buf[k % SIZE] == w.arrived[k];
    SplitTake(w.taken, w.discarded, w.pos, k);
    var w' := PollNext(w);
    assert PollerAt(w');
    assert Delivered(w');
  }

  /** The poller gives up everything before the write index it loaded. */
  lemma SkipKeeps(w: World)
    requires Inv(w) && w.ring.poll.HasBoth? && w.ring.poll.r >= w.ring.poll.w
    ensures Inv(PollNext(w))
  {
    SplitSkip(w.taken, w.discarded, w.pos, w.seen);
    var w' := PollNext(w);
    assert PollerAt(w') && Delivered(w');
  }

  /** The poller steps on and hands the scancode over. */
  lemma HandOverKeeps(w: World)
    requires Inv(w) && w.ring.poll.HasCode?
    ensures Inv(PollNext(w))
  {
    var w' := PollNext(w);
    NextSlot(w.pos - 1);
    assert PollerAt(w') && Delivered(w');
  }

  lemma PollKeeps(w: World)
    requires Inv(w)
    ensures Inv(PollNext(w))
  {
    match w.ring.poll
    case Idle =>
    case HasRead(r) =>
    case HasBoth(r, wp) =>
      if r >= wp {
        SkipKeeps(w);
      } else {
        TakeKeeps(w);
      }
    case HasCode(r, code) =>
      HandOverKeeps(w);
  }

  // ----- whole runs

  ghost function Run(events: seq<Event>): World {
    if events == [] then Start() else Next(Run(events[..|events| - 1]), events[|events| - 1])
  }

  lemma {:induction false} RunKeeps(events: seq<Event>)
    ensures Inv(Run(events))
  {
    if events == [] {
      StartKeeps();
    } else {
      var front := events[..|events| - 1];
      RunKeeps(front);
      match events[|events| - 1]
      case Interrupt(code) => HandlerKeeps(Run(front), code);
      case PollStep => PollKeeps(Run(front));
    }
  }

  lemma StartKeeps()
    ensures Inv(Start())
  {
  }

  /** The scancodes of a run's interrupts, in order. */
  ghost function Codes(events: seq<Event>): seq<byte> {
    if events == [] then []
    else
      var front := Codes(events[..|events| - 1]);
      match events[|events| - 1]
      case Interrupt(code) => front + [code]
      case PollStep => front
  }

  lemma {:induction false} ArrivalsAreInterrupts(events: seq<Event>)
    ensures Run(events).arrived == Codes(events)
  {
    if events != [] {
      ArrivalsAreInterrupts(events[..|events| - 1]);
      RunKeeps(events[..|events| - 1]);
    }
  }

  /** For every interleaving: what the decoder receives is an in-order, duplicate-free selection of
      the scancodes that arrived, even when the handler laps the poller; and every arrival is
      delivered (or in hand), discarded or pending, exactly one of the three. */
  lemma RunDelivers(events: seq<Event>)
    ensures var w := Run(events); var codes := Codes(events);
            && |w.delivered| <= |w.taken| <= |w.delivered| + 1
            && Increasing(w.taken, |codes|)
            && (forall i | 0 <= i < |w.delivered| :: w.delivered[i] == codes[w.taken[i]])
            && |w.taken| + |w.discarded| + (|codes| - w.pos) == |codes|
            && (forall i: nat | i < |codes| ::
                  (i in w.taken || i in w.discarded <==> i < w.pos) && !(i in w.taken && i in w.discarded))
  {
    ArrivalsAreInterrupts(events);
    RunKeeps(events);
    var w := Run(events);
    forall i: nat | i < |w.arrived|
      ensures (i in w.taken || i in w.discarded <==> i < w.pos) && !(i in w.taken && i in w.discarded)
    {
    }
  }

  // ----- loss

  /** Something is pending, and the write index has wrapped past the poller or the handler has lapped it. */
  predicate Losing(w: World) {
    w.pos != w.seen && (w.pos / SIZE != w.seen / SIZE || |w.arrived| > w.pos + SIZE)
  }

  /** When the poller decides, it loses nothing exactly when it had nothing to take, or the write
      index has not wrapped past it and the handler has not lapped it since. */
  lemma DecisionLosesNothingIff(w: World)
    requires Inv(w) && w.ring.poll.HasBoth?
    ensures PollNext(w).discarded == w.discarded <==> !Losing(w)
  {
    var r, wp := w.ring.poll.r, w.ring.poll.w;
    if r < wp {
      TakeKeeps(w);
      var k := LatestAt(|w.arrived|, r);
      assert |w.arrived| <= w.pos + SIZE ==> k < w.pos + SIZE;
      if k < w.pos + SIZE {
        SameSlot(k, w.pos);
      }
    }
  }

  /** Event `k` of the run is the poller's decision, and it loses something. */
  ghost predicate LosesAt(events: seq<Event>, k: nat)
    requires k < |events|
  {
    var w := Run(events[..k]);
    events[k] == PollStep && w.ring.poll.HasBoth? && Losing(w)
  }

  lemma DiscardedGrows(w: World, e: Event)
    ensures w.discarded <= Next(w, e).discarded
    ensures Next(w, e).discarded != w.discarded ==> e == PollStep && w.ring.poll.HasBoth?
  {
  }

  lemma LosesLast(events: seq<Event>)
    requires events != []
    ensures var front := events[..|events| - 1];
            LosesAt(events, |events| - 1) <==> Run(events).discarded != Run(front).discarded
  {
    var front, e := events[..|events| - 1], events[|events| - 1];
    var w := Run(front);
    DiscardedGrows(w, e);
    if e == PollStep && w.ring.poll.HasBoth? {
      RunKeeps(front);
      DecisionLosesNothingIff(w);
    }
  }

  /** Over every interleaving: nothing is ever discarded if and only if no decision of the poller meets
      the losing condition. */
  lemma {:induction false} RunLosesNothingIff(events: seq<Event>)
    ensures Run(events).discarded == [] <==> forall k: nat | k < |events| :: !LosesAt(events, k)
  {
    if events != [] {
      var n := |events| - 1;
      var front := events[..n];
      RunLosesNothingIff(front);
      LosesLast(events);
      DiscardedGrows(Run(front), events[n]);
      forall k: nat | k < n
        ensures LosesAt(events, k) <==> LosesAt(front, k)
      {
        assert front[..k] == events[..k];
      }
    }
  }

  ghost function Burst(n: nat, code: byte): seq<Event> {
    seq(n, _ => Interrupt(code))
  }

  /** After `n` interrupts and no poll, everything is pending. */
  lemma {:induction false} AfterBurst(n: nat, code: byte)
    ensures var w := Run(Burst(n, code));
            && Sane(w) && |w.arrived| == n && w.pos == 0 && w.delivered == [] && w.discarded == []
            && w.ring.poll == Idle && w.ring.rptr == 0 && w.ring.wptr == n % SIZE
  {
    if n > 0 {
      AfterBurst(n - 1, code);
      assert Burst(n, code)[..n - 1] == Burst(n - 1, code);
      NextSlot(n - 1);
    }
  }

  /** A run that loses scancodes: any multiple of 256 interrupts before the first poll, which then
      discards every one of them. */
  lemma BurstLost(n: nat, code: byte)
    requires n % SIZE == 0
    ensures var w := Run(Burst(n, code) + [PollStep, PollStep, PollStep]);
            w.discarded == Range(0, n) && w.delivered == [] && |w.arrived| == n
  {
    var events := Burst(n, code);
    AfterBurst(n, code);
    RunNext(events, PollStep);
    RunNext(events + [PollStep], PollStep);
    RunNext(events + [PollStep] + [PollStep], PollStep);
    assert events + [PollStep] + [PollStep] + [PollStep] == events + [PollStep, PollStep, PollStep];
    SkipAll(Run(events));
  }

  lemma RunNext(events: seq<Event>, e: Event)
    ensures Run(events + [e]) == Next(Run(events), e)
  {
    assert (events + [e])[..|events|] == events;
  }

  /** A poll that finds both indices at zero gives up whatever is pending. */
  lemma SkipAll(w: World)
    requires Sane(w) && w.ring.poll == Idle && w.ring.rptr == w.ring.wptr == 0
    ensures var w' := PollNext(PollNext(PollNext(w)));
            && w'.discarded == w.discarded + Range(w.pos, |w.arrived|)
            && w'.delivered == w.delivered && w'.arrived == w.arrived
  {
  }

  /** Consecutive states of the poller, with no interrupt in between. */
  ghost predicate Quiet(ws: seq<World>) {
    forall i {:trigger PollNext(ws[i])} | 0 <= i < |ws| - 1 :: ws[i + 1] == PollNext(ws[i])
  }

  /** `n` uninterrupted actions of the poller lead from `w` to `w'`. */
  ghost predicate PollsTo(w: World, n: nat, w': World) {
    exists ws :: Leads(ws, w, n, w')
  }

  ghost predicate Leads(ws: seq<World>, w: World, n: nat, w': World) {
    |ws| == n + 1 && Quiet(ws) && ws[0] == w && ws[n] == w'
  }

  lemma PollsToSelf(w: World)
    ensures PollsTo(w, 0, w)
  {
    var ws := [w];
    assert Leads(ws, w, 0, w);
  }

  lemma PollsToJoin(a: World, m: nat, b: World, n: nat, c: World)
    requires PollsTo(a, m, b) && PollsTo(b, n, c)
    ensures PollsTo(a, m + n, c)
  {
    var us :| Leads(us, a, m, b);
    var vs :| Leads(vs, b, n, c);
    var ws := us + vs[1..];
    forall i | 0 <= i < |ws| - 1
      ensures ws[i + 1] == PollNext(ws[i])
    {
      if i < m {
        assert us[i + 1] == PollNext(us[i]);
      } else {
        assert ws[i] == vs[i - m] && vs[i - m + 1] == PollNext(vs[i - m]);
      }
    }
    assert Leads(ws, a, m + n, c);
  }

  /** The three actions up to the decision, and what it loses. */
  lemma QuietDecision(w: World) returns (w2: World, w3: World)
    requires Inv(w) && w.ring.poll == Idle
    ensures PollsTo(w, 3, w3) && Inv(w2) && w3 == PollNext(w2)
    ensures w2 == w.(ring := w.ring.(poll := HasBoth(w.ring.rptr, w.ring.wptr)), seen := |w.arrived|)
    ensures w3.discarded == w.discarded <==> w.pos == |w.arrived| || w.pos / SIZE == |w.arrived| / SIZE
  {
    var w1 := PollNext(w);
    PollKeeps(w);
    w2 := PollNext(w1);
    PollKeeps(w1);
    w3 := PollNext(w2);
    DecisionLosesNothingIff(w2);
    var ws := [w, w1, w2, w3];
    assert Leads(ws, w, 3, w3);
  }

  /** One poll without interrupts, from first load to last store. With nothing pending it changes
      nothing. With the write index in the poller's own lap it delivers the next pending scancode and
      discards none; otherwise it discards some. */
  lemma QuietPoll(w: World) returns (w': World, n: nat)
    requires Inv(w) && w.ring.poll == Idle
    ensures PollsTo(w, n, w') && w'.ring.poll == Idle && w'.arrived == w.arrived
    ensures w.pos == |w.arrived| ==> n == 3 && w' == w.(seen := |w.arrived|)
    ensures w.pos < |w.arrived| && w.pos / SIZE == |w.arrived| / SIZE ==>
      && n == 4 && w'.pos == w.pos + 1 && w'.discarded == w.discarded
      && w'.delivered == w.delivered + [w.arrived[w.pos]]
    ensures w.pos / SIZE != |w.arrived| / SIZE ==> w'.discarded != w.discarded
  {
    var w2, w3 := QuietDecision(w);
    if w2.ring.poll.r >= w2.ring.poll.w {
      assert w.discarded + Range(w.pos, w.pos) == w.discarded;
      return w3, 3;
    }
    TakeKeeps(w2);
    w', n := PollNext(w3), 4;
    var ws := [w3, w'];
    assert Leads(ws, w3, 1, w');
    PollsToJoin(w, 3, w3, 1, w');
    assert w3.discarded == w.discarded + Range(w.pos, w3.pos - 1);
  }

  /** Some interleaving leads to `w`. */
  ghost predicate Reached(w: World) {
    exists events :: Run(events) == w
  }

  lemma {:induction false} QuietReached(ws: seq<World>, k: nat)
    requires k < |ws| && Quiet(ws) && Reached(ws[0])
    ensures Reached(ws[k])
  {
    if k > 0 {
      QuietReached(ws, k - 1);
      var events :| Run(events) == ws[k - 1];
      assert (events + [PollStep])[..|events|] == events;
      assert ws[k] == PollNext(ws[k - 1]);
      assert Run(events + [PollStep]) == ws[k];
    }
  }

  /** The poller is between polls and the write index is in its lap. */
  ghost predicate Draining(w: World) {
    w.ring.poll == Idle && w.pos <= |w.arrived| && w.pos / SIZE == |w.arrived| / SIZE
  }

  lemma PollOne(w: World) returns (w': World)
    requires Reached(w) && Draining(w) && w.pos < |w.arrived|
    ensures PollsTo(w, 4, w') && Reached(w') && Draining(w') && w'.pos == w.pos + 1
    ensures w'.arrived == w.arrived && w'.discarded == w.discarded
    ensures w'.delivered == w.delivered + [w.arrived[w.pos]]
  {
    var events :| Run(events) == w;
    RunKeeps(events);
    var n;
    w', n := QuietPoll(w);
    var ws :| Leads(ws, w, n, w');
    QuietReached(ws, n);
  }

  lemma FirstPending(arrived: seq<byte>, pos: nat)
    requires pos < |arrived|
    ensures arrived[pos..] == [arrived[pos]] + arrived[pos + 1..]
  {
  }

  /** From any reachable point between polls with the write index in the poller's lap, and no further
      interrupts, polling hands over exactly the pending scancodes, first come first served, and
      discards none. */
  lemma {:induction false} DrainsInOrder(w: World) returns (w': World)
    requires Reached(w) && Draining(w)
    ensures PollsTo(w, 4 * (|w.arrived| - w.pos), w') && w'.arrived == w.arrived
    ensures w'.delivered == w.delivered + w.arrived[w.pos..]
    ensures w'.discarded == w.discarded && w'.pos == |w.arrived| && w'.ring.poll == Idle
    decreases |w.arrived| - w.pos
  {
    if w.pos == |w.arrived| {
      w' := w;
      PollsToSelf(w);
    } else {
      var next := PollOne(w);
      w' := DrainsInOrder(next);
      PollsToJoin(w, 4, next, 4 * (|w.arrived| - next.pos), w');
      FirstPending(w.arrived, w.pos);
    }
  }

  // ----- the statics themselves

  /** The poller's next action on the ring alone. */
  function RingStep(ring: Ring): Ring
    requires |ring.buf| == SIZE
  {
    match ring.poll
    case Idle => ring.(poll := HasRead(ring.rptr))
    case HasRead(r) => ring.(poll := HasBoth(r, ring.wptr))
    case HasBoth(r, w) => if r >= w then ring.(rptr := w, poll := Idle) else ring.(poll := HasCode(r, ring.buf[r]))
    case HasCode(r, code) => ring.(rptr := (ring.rptr + 1) % SIZE, poll := Idle)
  }

  /** The history kept beside the ring never gets in its way. */
  lemma RingFollows(w: World)
    requires Inv(w)
    ensures PollNext(w).ring == RingStep(w.ring)
  {
    if w.ring.poll.HasBoth? && w.ring.poll.r < w.ring.poll.w {
      TakesLater(w.pos, w.seen, |w.arrived|);
    }
  }

  class KeyboardBuffer {
    const buf: array<byte>
    var rptr: byte
    var wptr: byte
    var poll: Poll
    ghost var world: World

    ghost predicate Valid() reads this, buf {
      buf.Length == SIZE && world.ring == Ring(buf[..], rptr, wptr, poll) && Inv(world)
    }

    constructor ()
      ensures Valid() && world == Start() && fresh(buf)
    {
      buf := new byte[SIZE](_ => 0);
      rptr, wptr, poll := 0, 0, Idle;
      world := Start();
      new;
      assert buf[..] == EmptyBuf();
    }

    /** `kbd_handler`; ignored until the keyboard is initialised. */
    method KbdHandler(kbdInit: bool, scancode: byte)
      requires Valid()
      modifies this, buf
      ensures Valid()
      ensures world == if kbdInit then Next(old(world), Interrupt(scancode)) else old(world)
    {
      if !kbdInit { return; }
      HandlerKeeps(world, scancode);
      world := Handler(world, scancode);
      var ptr := wptr;
      wptr := (wptr + 1) % SIZE;
      buf[ptr] := scancode;
    }

    /** The next atomic action of `poll_keyboard`. */
    method PollKeyboardStep()
      requires Valid()
      modifies this
      ensures Valid() && world == Next(old(world), PollStep)
    {
      PollKeeps(world);
      RingFollows(world);
      world := PollNext(world);
      match poll
      case Idle => poll := HasRead(rptr);
      case HasRead(r) => poll := HasBoth(r, wptr);
      case HasBoth(r, w) =>
        if r >= w {
          rptr, poll := w, Idle;
        } else {
          poll := HasCode(r, buf[r]);
        }
      case HasCode(r, code) =>
        rptr, poll := (rptr + 1) % SIZE, Idle;
    }
  }
}
