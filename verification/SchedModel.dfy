/**
 The scheduler and the process table as a step machine.

 A state holds what scheduler.c and process.c keep in globals: the state and wake time of each slot
 of the process table, the ready queue, the current process, the reschedule flag and the time-slice
 counter.  `Apply` gives the effect of one kernel operation exactly as the C code performs it,
 whether or not that is sensible; `Legal` is the exact condition under which the operation keeps
 the scheduler invariant `Inv`.
 */
module SchedModel {
  import opened Basics

  const MAX_PROCESSES: int := 64
  const TIME_SLICE_MS: nat := 10

  /** The null process pointer. */
  const NIL: int := -1

  /** `process_init` takes the first slot of an empty table for the idle process. */
  const IDLE: int := 0

  datatype PState = Unused | Ready | Running | Blocked | Zombie

  datatype Sched = Sched(
    state: seq<PState>,
    wake: seq<nat>,
    queue: seq<int>,
    current: int,
    resched: bool,
    slice: nat)

  datatype Event =
    | Create(stackOk: bool)        // process_create; kmalloc of the stack may fail
    | Block                        // process_block by the current process
    | Wake(p: int)                 // process_wake
    | Sleep(now: nat, ms: nat)     // process_sleep by the current process
    | Exit                         // process_exit by the current process
    | Yield                        // process_yield
    | Reap                         // sys_wait collecting one zombie
    | Kill(p: int)                 // sys_kill
    | Switch(now: nat)             // switch_schedule
    | Tick                         // switch_timer_tick

  predicate IsProc(p: int) {
    0 <= p < MAX_PROCESSES
  }

  /** Shape of the globals: fixed-size tables and pointers into them. */
  ghost predicate WellFormed(s: Sched) {
    && |s.state| == MAX_PROCESSES
    && |s.wake| == MAX_PROCESSES
    && (s.current == NIL || IsProc(s.current))
    && (forall i :: 0 <= i < |s.queue| ==> IsProc(s.queue[i]))
  }

  /** Events that name a process name a slot of the table. */
  ghost predicate WellFormedEvent(e: Event) {
    match e
    case Wake(p) => IsProc(p)
    case Kill(p) => IsProc(p)
    case _ => true
  }

  ghost predicate NoDup(q: seq<int>) {
    forall i, j :: 0 <= i < j < |q| ==> q[i] != q[j]
  }

  /**
   The scheduler invariant.
   - A process is queued exactly when it is READY, and at most once.
   - A RUNNING process is the current one, and the current slot is in use.
   - Idle is always READY or RUNNING, hence always queued or current.
   - A current process that was woken before being switched away waits behind idle.
   */
  ghost predicate Inv(s: Sched) {
    && WellFormed(s)
    && NoDup(s.queue)
    && (forall p :: IsProc(p) ==> (p in s.queue <==> s.state[p] == Ready))
    && (forall p :: IsProc(p) && s.state[p] == Running ==> p == s.current)
    && (s.current != NIL ==> s.state[s.current] != Unused)
    && (s.state[IDLE] == Ready || s.state[IDLE] == Running)
    && (s.current == IDLE ==> s.state[IDLE] == Running)
    && IdleFirst(s)
  }

  ghost predicate IdleFirst(s: Sched) {
    s.current != IDLE ==>
      forall i, j :: 0 <= i < |s.queue| && 0 <= j < |s.queue| && s.queue[i] == IDLE && s.queue[j] == s.current ==> i < j
  }

  // ---------- the operations ----------

  /** `scheduler_add`: append to the ready queue and mark READY. */
  function Add(s: Sched, p: int): (r: Sched)
    requires |s.state| == MAX_PROCESSES && IsProc(p)
  {
    s.(queue := s.queue + [p], state := s.state[p := Ready])
  }

  /** The lowest slot from `i` on whose state is `x`, skipping slot `skip`, or NIL. */
  function FirstInState(state: seq<PState>, x: PState, skip: int, i: nat): (r: int)
    requires i <= |state|
    ensures r == NIL || (i <= r < |state| && state[r] == x && r != skip)
    ensures forall j :: i <= j < |state| && (r == NIL || j < r) && j != skip ==> state[j] != x
    decreases |state| - i
  {
    if i == |state| then NIL
    else if state[i] == x && i != skip then i
    else FirstInState(state, x, skip, i + 1)
  }

  predicate Due(s: Sched, now: nat, p: int)
    requires |s.state| == MAX_PROCESSES && |s.wake| == MAX_PROCESSES && IsProc(p)
  {
    s.state[p] == Blocked && 0 < s.wake[p] <= now
  }

  /** `process_check_sleepers` from slot `i` on. */
  function WakeDue(s: Sched, now: nat, i: nat): (r: Sched)
    requires |s.state| == MAX_PROCESSES && |s.wake| == MAX_PROCESSES && i <= MAX_PROCESSES
    ensures |r.state| == MAX_PROCESSES && |r.wake| == MAX_PROCESSES && r.current == s.current
    decreases MAX_PROCESSES - i
  {
    if i == MAX_PROCESSES then s
    else if Due(s, now, i) then WakeDue(Add(s.(wake := s.wake[i := 0]), i), now, i + 1)
    else WakeDue(s, now, i + 1)
  }

  /** `scheduler_pick` followed by `scheduler_set_current`, after the old current was dealt with. */
  function Dispatch(s: Sched): (r: Sched)
    requires WellFormed(s) && s.queue != []
  {
    s.(queue := s.queue[1..], current := s.queue[0], state := s.state[s.queue[0] := Running], resched := false)
  }

  /** `switch_schedule` after the sleepers were checked. */
  function SwitchBody(s: Sched): (r: Sched)
    requires WellFormed(s)
  {
    if s.queue == [] then
      if s.current == NIL then s else s.(resched := false)
    else if s.current != NIL && s.state[s.current] == Running then Dispatch(Add(s, s.current))
    else Dispatch(s)
  }

  /** `scheduler_tick` and the forced reschedule at the start of `switch_timer_tick`. */
  function Count(s: Sched): (r: Sched) {
    if s.current == NIL then
      if s.queue == [] then s else s.(resched := true)
    else if s.slice + 1 >= TIME_SLICE_MS then s.(slice := 0, resched := true)
    else s.(slice := s.slice + 1)
  }

  /** The rest of `switch_timer_tick`: the current process is re-added whatever its state. */
  function TickBody(s: Sched): (r: Sched)
    requires WellFormed(s)
  {
    if !s.resched then s
    else if s.queue == [] then s.(resched := false)
    else if s.current == NIL then Dispatch(s)
    else Dispatch(Add(s, s.current))
  }

  function SetState(s: Sched, p: int, x: PState): (r: Sched)
    requires |s.state| == MAX_PROCESSES && IsProc(p)
  {
    s.(state := s.state[p := x])
  }

  /** `process_create`, with the wake time reset on success. */
  function CreateIn(s: Sched, stackOk: bool): (r: Sched)
    requires WellFormed(s)
  {
    var p := FirstInState(s.state, Unused, NIL, 0);
    if p == NIL || !stackOk then s else Add(s.(wake := s.wake[p := 0]), p)
  }

  function Apply(s: Sched, e: Event): (r: Sched)
    requires WellFormed(s) && WellFormedEvent(e)
  {
    match e
    case Create(ok) => CreateIn(s, ok)
    case Block =>
      if s.current == NIL then s.(resched := true) else SetState(s, s.current, Blocked).(resched := true)
    case Wake(p) =>
      if s.state[p] == Blocked then Add(s, p) else s
    case Sleep(now, ms) =>
      if s.current == NIL then s
      else SetState(s, s.current, Blocked).(wake := s.wake[s.current := (now + ms) % WORD], resched := true)
    case Exit =>
      if s.current == NIL then s else SetState(s, s.current, Zombie)
    case Yield => s.(resched := true)
    case Reap =>
      if s.current == NIL then s
      else
        var p := FirstInState(s.state, Zombie, s.current, 0);
        if p == NIL then s.(resched := true) else SetState(s, p, Unused)
    case Kill(p) =>
      if s.state[p] == Unused then s else SetState(s, p, Zombie)
    case Switch(now) => WakeDueShape(s, now, 0); SwitchBody(WakeDue(s, now, 0))
    case Tick => TickBody(Count(s))
  }

  /** Whether the current process may block, sleep or exit: it is neither idle nor already queued. */
  predicate MayStop(s: Sched)
    requires WellFormed(s)
  {
    s.current == NIL || (s.current != IDLE && s.state[s.current] != Ready)
  }

  /** Whether `switch_timer_tick` takes a process from the queue. */
  predicate TickDispatches(s: Sched) {
    Count(s).resched && s.queue != []
  }

  /** The exact condition, checkable before the call, under which a step keeps `Inv`. */
  predicate Legal(s: Sched, e: Event)
    requires WellFormed(s) && WellFormedEvent(e)
  {
    match e
    case Block => MayStop(s)
    case Sleep(_, _) => MayStop(s)
    case Exit => MayStop(s)
    case Kill(p) => s.state[p] != Ready && p != IDLE
    case Tick => TickDispatches(s) && s.current != NIL ==> s.state[s.current] != Ready
    case _ => true
  }

  // ---------- single steps ----------

  lemma {:induction false} WakeDueShape(s: Sched, now: nat, i: nat)
    requires WellFormed(s) && i <= MAX_PROCESSES
    ensures WellFormed(WakeDue(s, now, i))
    ensures s.queue <= WakeDue(s, now, i).queue
    decreases MAX_PROCESSES - i
  {
    if i < MAX_PROCESSES {
      WakeDueShape(if Due(s, now, i) then Add(s.(wake := s.wake[i := 0]), i) else s, now, i + 1);
    }
  }

  /** Appending a process that is not queued and not running keeps the invariant. */
  lemma AddKeepsInv(s: Sched, p: int)
    requires Inv(s) && IsProc(p)
    requires s.state[p] != Ready && s.state[p] != Running
    ensures Inv(Add(s, p))
  {
    var r := Add(s, p);
    assert p != IDLE;
    assert p !in s.queue;
    forall x | IsProc(x) ensures x in r.queue <==> r.state[x] == Ready {
      assert x in r.queue <==> x in s.queue || x == p;
    }
    if s.current != IDLE {
      assert s.state[IDLE] == Ready;
      assert IDLE in s.queue;
      var k :| 0 <= k < |s.queue| && s.queue[k] == IDLE;
      assert r.queue[k] == IDLE;
    }
  }

  lemma {:induction false} WakeDueKeepsInv(s: Sched, now: nat, i: nat)
    requires Inv(s) && i <= MAX_PROCESSES
    ensures Inv(WakeDue(s, now, i))
    decreases MAX_PROCESSES - i
  {
    if i < MAX_PROCESSES {
      if Due(s, now, i) {
        var t := s.(wake := s.wake[i := 0]);
        AddKeepsInv(t, i);
        WakeDueKeepsInv(Add(t, i), now, i + 1);
      } else {
        WakeDueKeepsInv(s, now, i + 1);
      }
    }
  }

  /** What has to hold just before the head of the queue is dispatched. */
  ghost predicate Dispatchable(s: Sched) {
    && WellFormed(s)
    && NoDup(s.queue)
    && s.queue != []
    && (forall p :: IsProc(p) ==> (p in s.queue <==> s.state[p] == Ready))
    && (forall p :: IsProc(p) ==> s.state[p] != Running)
    && s.state[IDLE] == Ready
  }

  lemma DispatchKeepsInv(s: Sched)
    requires Dispatchable(s)
    ensures Inv(Dispatch(s))
  {
    var r := Dispatch(s);
    assert s.queue == [s.queue[0]] + r.queue;
    forall x | IsProc(x) ensures x in r.queue <==> r.state[x] == Ready {
      assert x in s.queue <==> x == s.queue[0] || x in r.queue;
    }
  }

  lemma AddedCurrentDispatchable(s: Sched)
    requires Inv(s) && s.current != NIL && s.state[s.current] != Ready && s.queue != []
    ensures Dispatchable(Add(s, s.current))
  {
    var r := Add(s, s.current);
    forall x | IsProc(x) ensures x in r.queue <==> r.state[x] == Ready {
      assert x in r.queue <==> x in s.queue || x == s.current;
    }
  }

  lemma SwitchKeepsInv(s: Sched)
    requires Inv(s)
    ensures Inv(SwitchBody(s))
  {
    if s.queue != [] {
      if s.current != NIL && s.state[s.current] == Running {
        AddedCurrentDispatchable(s);
        DispatchKeepsInv(Add(s, s.current));
      } else {
        DispatchKeepsInv(s);
      }
    }
  }

  /** A tick that re-adds a current process which is already queued queues it twice or runs it queued. */
  lemma TickBreaksInv(s: Sched)
    requires Inv(s) && s.current != NIL && s.state[s.current] == Ready
    ensures s.queue != [] && !Inv(Dispatch(Add(s, s.current)))
  {
    var c := s.current;
    assert c in s.queue && IDLE in s.queue;
    var k :| 0 <= k < |s.queue| && s.queue[k] == c;
    var a := Add(s, c);
    var r := Dispatch(a);
    assert r.queue[|r.queue| - 1] == c;
    var i :| 0 <= i < |s.queue| && s.queue[i] == IDLE;
    assert i < k;
    assert r.queue[k - 1] == c;
  }

  lemma TickKeepsInv(s: Sched)
    requires Inv(s)
    ensures Inv(Apply(s, Tick)) <==> Legal(s, Tick)
  {
    var t := Count(s);
    assert Inv(t);
    if t.resched && t.queue != [] && t.current != NIL {
      if t.state[t.current] == Ready {
        TickBreaksInv(t);
      } else {
        AddedCurrentDispatchable(t);
        DispatchKeepsInv(Add(t, t.current));
      }
    } else if t.resched && t.queue != [] {
      DispatchKeepsInv(t);
    }
  }

  /**
   Setting one slot to a state other than READY and RUNNING keeps `Inv` exactly when it was not queued and is
   not idle.
   */
  lemma SetStateKeepsInv(s: Sched, p: int, x: PState)
    requires Inv(s) && IsProc(p)
    requires x == Blocked || x == Zombie || (x == Unused && p != s.current)
    ensures Inv(SetState(s, p, x)) <==> s.state[p] != Ready && p != IDLE
  {
    var r := SetState(s, p, x);
    if s.state[p] == Ready {
      assert p in s.queue;
      assert r.state[p] != Ready;
    } else if p != IDLE {
      assert Inv(r);
    }
  }

  /** One step keeps the scheduler invariant if and only if the step is legal. */
  lemma StepKeepsInvExactly(s: Sched, e: Event)
    requires Inv(s) && WellFormedEvent(e)
    ensures Inv(Apply(s, e)) <==> Legal(s, e)
  {
    match e
    case Create(ok) =>
      var p := FirstInState(s.state, Unused, NIL, 0);
      if p != NIL && ok {
        AddKeepsInv(s.(wake := s.wake[p := 0]), p);
      }
    case Block =>
      if s.current != NIL {
        SetStateKeepsInv(s, s.current, Blocked);
        SameForInv(SetState(s, s.current, Blocked), Apply(s, e));
      }
    case Wake(p) =>
      if s.state[p] == Blocked { AddKeepsInv(s, p); }
    case Sleep(now, ms) =>
      if s.current != NIL {
        SetStateKeepsInv(s, s.current, Blocked);
        SameForInv(SetState(s, s.current, Blocked), Apply(s, e));
      }
    case Exit =>
      if s.current != NIL { SetStateKeepsInv(s, s.current, Zombie); }
    case Yield =>
    case Reap =>
      if s.current != NIL {
        var p := FirstInState(s.state, Zombie, s.current, 0);
        if p != NIL { SetStateKeepsInv(s, p, Unused); }
      }
    case Kill(p) =>
      if s.state[p] != Unused { SetStateKeepsInv(s, p, Zombie); }
    case Switch(now) =>
      WakeDueShape(s, now, 0);
      WakeDueKeepsInv(s, now, 0);
      SwitchKeepsInv(WakeDue(s, now, 0));
    case Tick =>
      TickKeepsInv(s);
  }

  lemma SameForInv(a: Sched, b: Sched)
    requires a.state == b.state && a.queue == b.queue && a.current == b.current && |a.wake| == |b.wake|
    ensures Inv(a) <==> Inv(b)
  {
  }

  // ---------- whole runs ----------

  /** `p` is the current process and RUNNING. */
  predicate Runs(s: Sched, p: int) {
    s.current == p && 0 <= p < |s.state| && s.state[p] == Running
  }

  /** The state `process_init` leaves: idle alone in the queue, nothing running. */
  function Init(): (s: Sched) {
    Sched(seq(MAX_PROCESSES, i => if i == IDLE then Ready else Unused), seq(MAX_PROCESSES, i => 0),
          [IDLE], NIL, false, 0)
  }

  function Run(s: Sched, es: seq<Event>): (r: Sched)
    requires WellFormed(s) && forall i :: 0 <= i < |es| ==> WellFormedEvent(es[i])
    ensures WellFormed(r)
    decreases |es|
  {
    if es == [] then s else StepShape(s, es[0]); Run(Apply(s, es[0]), es[1..])
  }

  /** Every step of the run is legal in the state it is taken in. */
  ghost predicate LegalRun(s: Sched, es: seq<Event>)
    decreases |es|
  {
    && WellFormed(s)
    && (forall i :: 0 <= i < |es| ==> WellFormedEvent(es[i]))
    && (es != [] ==> Legal(s, es[0]) && LegalRun(Apply(s, es[0]), es[1..]))
  }

  /** Whether a step takes a process from the head of the ready queue. */
  predicate Pops(s: Sched, e: Event)
    requires WellFormed(s)
  {
    (e.Switch? && WakeDue(s, e.now, 0).queue != []) || (e.Tick? && TickDispatches(s))
  }

  function PopCount(s: Sched, es: seq<Event>): (n: nat)
    requires WellFormed(s) && forall i :: 0 <= i < |es| ==> WellFormedEvent(es[i])
    decreases |es|
  {
    if es == [] then 0
    else StepShape(s, es[0]); (if Pops(s, es[0]) then 1 else 0) + PopCount(Apply(s, es[0]), es[1..])
  }

  lemma StepShape(s: Sched, e: Event)
    requires WellFormed(s) && WellFormedEvent(e)
    ensures WellFormed(Apply(s, e))
  {
    if e.Switch? {
      WakeDueShape(s, e.now, 0);
    }
  }

  /** The invariant holds after every legal run from boot, whatever the run does. */
  lemma {:induction false} ReachableInv(es: seq<Event>)
    requires LegalRun(Init(), es)
    ensures Inv(Run(Init(), es))
  {
    assert Init().queue[0] == IDLE;
    RunKeepsInv(Init(), es);
  }

  lemma {:induction false} RunKeepsInv(s: Sched, es: seq<Event>)
    requires Inv(s) && LegalRun(s, es)
    ensures Inv(Run(s, es))
    decreases |es|
  {
    if es != [] {
      StepKeepsInvExactly(s, es[0]);
      RunKeepsInv(Apply(s, es[0]), es[1..]);
    }
  }

  /** A step only appends to the queue, except that a dispatching step removes its head and runs it. */
  lemma QueueStep(s: Sched, e: Event)
    requires Inv(s) && WellFormedEvent(e) && Legal(s, e) && s.queue != []
    ensures var r := Apply(s, e);
      if Pops(s, e) then s.queue[1..] <= r.queue && Runs(r, s.queue[0])
      else s.queue <= r.queue && r.current == s.current
  {
    if e.Switch? {
      WakeDueShape(s, e.now, 0);
    }
  }

  /**
   The exact dispatch bound.  Whatever legal steps interleave, a process at position `k` of the
   ready queue is still waiting, `n` places further on, after the first `n <= k` dispatches, and is
   the running process right after dispatch number `k + 1`.
   */
  lemma {:induction false} DispatchBound(s: Sched, es: seq<Event>, k: nat)
    requires Inv(s) && LegalRun(s, es) && k < |s.queue|
    ensures var n := PopCount(s, es); var r := Run(s, es);
      && (n <= k ==> k - n < |r.queue| && r.queue[k - n] == s.queue[k])
      && (n == k + 1 && es != [] && PopCount(s, es[..|es| - 1]) == k ==> Runs(r, s.queue[k]))
    decreases |es|
  {
    if es != [] {
      var t := Apply(s, es[0]);
      StepKeepsInvExactly(s, es[0]);
      QueueStep(s, es[0]);
      var rest := es[1..];
      if |es| > 1 {
        assert es[..|es| - 1][1..] == rest[..|rest| - 1];
        assert es[..|es| - 1][0] == es[0];
      }
      if !Pops(s, es[0]) {
        assert t.queue[k] == s.queue[k];
        DispatchBound(t, rest, k);
      } else if k > 0 {
        assert s.queue[1..][k - 1] == s.queue[k];
        assert t.queue[k - 1] == s.queue[k];
        DispatchBound(t, rest, k - 1);
      } else {
        assert |es| > 1 ==> PopCount(s, es[..|es| - 1]) >= 1;
      }
    }
  }

  /** `switch_schedule` always takes a process from a queue that is not empty. */
  lemma SwitchPops(s: Sched, now: nat)
    requires WellFormed(s) && s.queue != []
    ensures Pops(s, Switch(now))
  {
    WakeDueShape(s, now, 0);
  }

  /** How many of the steps are calls of `switch_schedule`. */
  function Switches(es: seq<Event>): nat {
    if es == [] then 0 else (if es[0].Switch? then 1 else 0) + Switches(es[1..])
  }

  /**
   The dispatch bound in calls.  Whatever legal steps interleave, a process at position `k` of the ready queue
   is the running process by the time `switch_schedule` returns for the `k + 1`st time.
   */
  lemma {:induction false} SwitchBound(s: Sched, es: seq<Event>, k: nat) returns (j: nat)
    requires Inv(s) && LegalRun(s, es) && k < |s.queue| && Switches(es) >= k + 1
    ensures j <= |es| && Switches(es[..j]) <= k + 1 && Runs(Run(s, es[..j]), s.queue[k])
    decreases |es|
  {
    var t, rest := Apply(s, es[0]), es[1..];
    StepKeepsInvExactly(s, es[0]);
    QueueStep(s, es[0]);
    if es[0].Switch? {
      SwitchPops(s, es[0].now);
    }
    if Pops(s, es[0]) && k == 0 {
      j := 1;
      assert es[..1] == [es[0]] && [es[0]][1..] == [];
    } else {
      var i := if Pops(s, es[0]) then k - 1 else k;
      assert t.queue[i] == s.queue[k] by {
        assert Pops(s, es[0]) ==> s.queue[1..][i] == s.queue[k];
      }
      var n := SwitchBound(t, rest, i);
      j := n + 1;
      assert es[..j][1..] == rest[..n] && es[..j][0] == es[0];
    }
  }

  /** A blocked, exited or woken-but-not-yet-switched current process is replaced by the next switch. */
  lemma StoppedCurrentIsReplaced(s: Sched, now: nat)
    requires Inv(s) && s.current != NIL && s.state[s.current] != Running
    ensures var r := Apply(s, Switch(now));
      s.queue != [] && s.queue[0] != s.current && Runs(r, s.queue[0])
  {
    assert s.state[IDLE] == Ready;
    assert IDLE in s.queue;
    var k :| 0 <= k < |s.queue| && s.queue[k] == IDLE;
    QueueStep(s, Switch(now));
    WakeDueShape(s, now, 0);
  }

  /**
   Blocking twice with a wake in between, before any switch, breaks the invariant: the process stays
   linked in the ready queue while it is BLOCKED, so the next wake links it a second time.
   */
  lemma BlockWakeBlockBreaksInv(s: Sched)
    requires Inv(s) && s.current != NIL && s.current != IDLE && s.state[s.current] == Running
    ensures LegalRun(s, [Block, Wake(s.current)])
    ensures !Inv(Run(s, [Block, Wake(s.current), Block]))
    ensures !NoDup(Run(s, [Block, Wake(s.current), Block, Wake(s.current)]).queue)
  {
    var c := s.current;
    var s1 := Apply(s, Block);
    var s2 := Apply(s1, Wake(c));
    var s3 := Apply(s2, Block);
    var s4 := Apply(s3, Wake(c));
    StepKeepsInvExactly(s, Block);
    StepKeepsInvExactly(s1, Wake(c));
    StepKeepsInvExactly(s2, Block);
    assert [Block, Wake(c)][1..] == [Wake(c)];
    assert [Block, Wake(c), Block][1..] == [Wake(c), Block];
    assert [Wake(c), Block][1..] == [Block];
    calc {
      Run(s, [Block, Wake(c), Block]);
      Run(s1, [Wake(c), Block]);
      Run(s2, [Block]);
      s3;
    }
    assert [Block, Wake(c), Block, Wake(c)][1..] == [Wake(c), Block, Wake(c)];
    assert [Wake(c), Block, Wake(c)][1..] == [Block, Wake(c)];
    calc {
      Run(s, [Block, Wake(c), Block, Wake(c)]);
      Run(s1, [Wake(c), Block, Wake(c)]);
      Run(s2, [Block, Wake(c)]);
      Run(s3, [Wake(c)]);
      s4;
    }
    assert s4.queue == s.queue + [c] + [c];
    assert s4.queue[|s.queue|] == s4.queue[|s.queue| + 1];
  }

  /** A dispatching timer tick undoes a block or an exit: the stopped process is READY and queued again. */
  lemma TickRevivesStopped(s: Sched)
    requires Inv(s) && TickDispatches(s) && s.current != NIL
    requires s.state[s.current] == Blocked || s.state[s.current] == Zombie
    ensures var r := Apply(s, Tick);
      Inv(r) && r.state[s.current] == Ready && s.current in r.queue && r.current == s.queue[0]
  {
    TickKeepsInv(s);
    var t := Count(s);
    var a := Add(t, t.current);
    assert a.queue[|a.queue| - 1] == t.current;
    assert a.queue[0] == s.queue[0];
    var r := Apply(s, Tick);
    assert r.queue[|r.queue| - 1] == s.current;
  }
}
