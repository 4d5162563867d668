/**
 Laws of the scheduler over several steps: how long a process sleeps, what becomes of an exited one, and how
 long a process runs before it is switched away.
 */
module SchedLaws {
  import opened Basics
  import opened SchedModel

  // ---------- sleeping ----------

  /** The slots from `i` on that hold a BLOCKED process whose wake time is set and reached, in order. */
  function Sleepers(s: Sched, now: nat, i: nat): (r: seq<int>)
    requires |s.state| == MAX_PROCESSES && |s.wake| == MAX_PROCESSES && i <= MAX_PROCESSES
    ensures forall p :: p in r <==> i <= p < MAX_PROCESSES && s.state[p] == Blocked && 0 < s.wake[p] <= now
    ensures forall j, k :: 0 <= j < k < |r| ==> r[j] < r[k]
    decreases MAX_PROCESSES - i
  {
    if i == MAX_PROCESSES then []
    else if s.state[i] == Blocked && 0 < s.wake[i] <= now then
      var rest := Sleepers(s, now, i + 1);
      assert forall k :: 0 <= k < |rest| ==> rest[k] in rest;
      [i] + rest
    else Sleepers(s, now, i + 1)
  }

  lemma {:induction false} SleepersFrom(s: Sched, t: Sched, now: nat, i: nat)
    requires |s.state| == |s.wake| == |t.state| == |t.wake| == MAX_PROCESSES && i <= MAX_PROCESSES
    requires forall p :: i <= p < MAX_PROCESSES ==> s.state[p] == t.state[p] && s.wake[p] == t.wake[p]
    ensures Sleepers(s, now, i) == Sleepers(t, now, i)
    decreases MAX_PROCESSES - i
  {
    if i < MAX_PROCESSES {
      SleepersFrom(s, t, now, i + 1);
    }
  }

  /** `process_check_sleepers` appends exactly these. */
  lemma {:induction false} WakeDueQueue(s: Sched, now: nat, i: nat)
    requires |s.state| == |s.wake| == MAX_PROCESSES && i <= MAX_PROCESSES
    ensures WakeDue(s, now, i).queue == s.queue + Sleepers(s, now, i)
    decreases MAX_PROCESSES - i
  {
    if i == MAX_PROCESSES {
      assert s.queue + [] == s.queue;
    } else if Due(s, now, i) {
      var t := Add(s.(wake := s.wake[i := 0]), i);
      WakeDueQueue(t, now, i + 1);
      SleepersFrom(s, t, now, i + 1);
      assert (s.queue + [i]) + Sleepers(s, now, i + 1) == s.queue + ([i] + Sleepers(s, now, i + 1));
    } else {
      WakeDueQueue(s, now, i + 1);
    }
  }

  /** They become READY and lose their wake time; every other slot stays as it is. */
  lemma {:induction false} WakeDueSlot(s: Sched, now: nat, i: nat, p: int)
    requires |s.state| == |s.wake| == MAX_PROCESSES && i <= MAX_PROCESSES && IsProc(p)
    ensures var r := WakeDue(s, now, i);
      if p >= i && s.state[p] == Blocked && 0 < s.wake[p] <= now then r.state[p] == Ready && r.wake[p] == 0
      else r.state[p] == s.state[p] && r.wake[p] == s.wake[p]
    decreases MAX_PROCESSES - i
  {
    if i < MAX_PROCESSES {
      WakeDueSlot(if Due(s, now, i) then Add(s.(wake := s.wake[i := 0]), i) else s, now, i + 1, p);
    }
  }

  /** Process `p` is up: READY and queued, or running. */
  ghost predicate Awake(s: Sched, p: int) {
    Runs(s, p) || (0 <= p < |s.state| && s.state[p] == Ready && p in s.queue)
  }

  /** `p` sleeps until time `t`. */
  ghost predicate Asleep(s: Sched, p: int, t: nat) {
    0 <= p < |s.state| && p < |s.wake| && s.state[p] == Blocked && s.wake[p] == t
  }

  /** A step that ends or changes a sleep other than by its time: a wake, a kill, or one by the sleeper itself. */
  predicate Disturbs(s: Sched, e: Event, p: int) {
    || e == Wake(p)
    || e == Kill(p)
    || (s.current == p && (e.Sleep? || e.Exit? || (e.Tick? && TickDispatches(s))))
  }

  /** A switch wakes a sleeper exactly from its wake time on. */
  lemma SleepSwitch(s: Sched, now: nat, p: int, t: nat)
    requires Inv(s) && IsProc(p) && Asleep(s, p, t)
    ensures if 0 < t <= now then Awake(Apply(s, Switch(now)), p) else Asleep(Apply(s, Switch(now)), p, t)
  {
    var w := WakeDue(s, now, 0);
    WakeDueQueue(s, now, 0);
    WakeDueSlot(s, now, 0, p);
    WakeDueKeepsInv(s, now, 0);
    SwitchKeepsSlot(w, p);
  }

  /** The part of a switch behind the sleepers leaves BLOCKED processes alone and READY ones up. */
  lemma SwitchKeepsSlot(w: Sched, p: int)
    requires Inv(w) && IsProc(p)
    ensures w.state[p] == Blocked ==> Asleep(SwitchBody(w), p, w.wake[p])
    ensures w.state[p] == Ready ==> Awake(SwitchBody(w), p)
  {
    if w.queue != [] {
      var a := if w.current != NIL && w.state[w.current] == Running then Add(w, w.current) else w;
      assert SwitchBody(w) == Dispatch(a);
      assert p in w.queue <==> w.state[p] == Ready;
      assert a.queue == [a.queue[0]] + a.queue[1..];
      assert p in w.queue ==> p in a.queue;
    }
  }

  /** A step that does not disturb a sleeper leaves it asleep, except a switch at or after its wake time. */
  lemma SleepStep(s: Sched, e: Event, p: int, t: nat)
    requires Inv(s) && WellFormedEvent(e) && Legal(s, e) && IsProc(p) && Asleep(s, p, t) && !Disturbs(s, e, p)
    ensures if e.Switch? && 0 < t <= e.now then Awake(Apply(s, e), p) else Asleep(Apply(s, e), p, t)
  {
    if e.Switch? {
      SleepSwitch(s, e.now, p, t);
    } else {
      assert p !in s.queue;
    }
  }

  /** No step of the run disturbs `p`. */
  ghost predicate Undisturbed(s: Sched, es: seq<Event>, p: int)
    requires WellFormed(s) && forall i :: 0 <= i < |es| ==> WellFormedEvent(es[i])
    decreases |es|
  {
    es != [] ==> (StepShape(s, es[0]); !Disturbs(s, es[0], p) && Undisturbed(Apply(s, es[0]), es[1..], p))
  }

  /** Every switch of the run is made before time `t`. */
  predicate SwitchesBefore(es: seq<Event>, t: nat) {
    forall i :: 0 <= i < |es| && es[i].Switch? ==> es[i].now < t
  }

  lemma {:induction false} SleepRun(s: Sched, es: seq<Event>, p: int, t: nat)
    requires Inv(s) && LegalRun(s, es) && IsProc(p) && Asleep(s, p, t) && Undisturbed(s, es, p)
    requires t == 0 || SwitchesBefore(es, t)
    ensures Inv(Run(s, es)) && Asleep(Run(s, es), p, t)
    decreases |es|
  {
    if es != [] {
      SleepStep(s, es[0], p, t);
      StepKeepsInvExactly(s, es[0]);
      assert forall i :: 0 <= i < |es[1..]| ==> es[1..][i] == es[i + 1];
      SleepRun(Apply(s, es[0]), es[1..], p, t);
    }
  }

  /** `p` is BLOCKED and not queued, and a switch at time `t` brings it back if and only if `w` is set and reached. */
  ghost predicate WakesAt(s: Sched, p: int, w: nat, t: nat) {
    && Inv(s) && IsProc(p) && s.state[p] == Blocked && p !in s.queue
    && (Awake(Apply(s, Switch(t)), p) <==> 0 < w <= t)
  }

  /**
   How long a process sleeps.  Through every legal run that does not disturb it and makes its switches before
   the wake time it stays BLOCKED, and the next switch brings it back if and only if its time has come.  The
   wake time is 64 bits wide, so a sleep that is too long for it ends early, and one that ends up at time 0
   never does.
   */
  lemma SleepsExactly(s: Sched, now: nat, ms: nat, w: nat, s1: Sched, es: seq<Event>, t: nat)
    requires SleepBegan(s, now, ms, s1) && LegalRun(s1, es) && Undisturbed(s1, es, s.current)
    requires w == (if now + ms < WORD then now + ms else (now + ms) % WORD) && (w == 0 || SwitchesBefore(es, w))
    ensures WakesAt(Run(s1, es), s.current, w, t)
  {
    SleepBegins(s, now, ms, s1);
    SleepEnds(s1, es, s.current, w, t);
  }

  /** The current process of `s` goes to sleep. */
  ghost predicate SleepBegan(s: Sched, now: nat, ms: nat, s1: Sched) {
    Inv(s) && s.current != NIL && Legal(s, Sleep(now, ms)) && s1 == Apply(s, Sleep(now, ms))
  }

  lemma SleepBegins(s: Sched, now: nat, ms: nat, s1: Sched)
    requires SleepBegan(s, now, ms, s1)
    ensures Inv(s1) && IsProc(s.current) && Asleep(s1, s.current, (now + ms) % WORD)
  {
    StepKeepsInvExactly(s, Sleep(now, ms));
  }

  lemma SleepEnds(s: Sched, es: seq<Event>, p: int, w: nat, t: nat)
    requires Inv(s) && LegalRun(s, es) && IsProc(p) && Asleep(s, p, w) && Undisturbed(s, es, p)
    requires w == 0 || SwitchesBefore(es, w)
    ensures WakesAt(Run(s, es), p, w, t)
  {
    SleepRun(s, es, p, w);
    SleepSwitch(Run(s, es), t, p, w);
  }

  /** In particular, with nothing in between, it is queued by a switch exactly from its wake time on. */
  lemma SleepThenSwitch(s: Sched, now: nat, ms: nat, t: nat)
    requires Inv(s) && s.current != NIL && Legal(s, Sleep(now, ms)) && 0 < now + ms < WORD
    ensures s.current in Apply(Apply(s, Sleep(now, ms)), Switch(t)).queue <==> now + ms <= t
  {
    var s1 := Apply(s, Sleep(now, ms));
    StepKeepsInvExactly(s, Sleep(now, ms));
    SleepsExactly(s, now, ms, now + ms, s1, [], t);
    StoppedCurrentIsReplaced(s1, t);
    WakeDueShape(s1, t, 0);
    StepKeepsInvExactly(s1, Switch(t));
  }

  // ---------- exiting ----------

  /** A process that exits or is killed is a ZOMBIE. */
  lemma Dies(s: Sched, e: Event, p: int)
    requires Inv(s) && WellFormedEvent(e) && Legal(s, e) && IsProc(p) && s.state[p] != Unused
    requires (e.Exit? && p == s.current) || e == Kill(p)
    ensures Inv(Apply(s, e)) && Apply(s, e) == s.(state := s.state[p := Zombie]) && p !in s.queue
  {
    StepKeepsInvExactly(s, e);
  }

  /** Slot `z` is the one `sys_wait` collects: the lowest ZOMBIE other than the caller. */
  ghost predicate Collectable(s: Sched, z: int) {
    && |s.state| == MAX_PROCESSES && IsProc(z) && s.state[z] == Zombie && z != s.current
    && forall q :: 0 <= q < z ==> s.state[q] != Zombie || q == s.current
  }

  /** `sys_wait` frees exactly that slot, or asks for a switch if there is none. */
  lemma ReapExactly(s: Sched, z: int)
    requires Inv(s) && s.current != NIL
    ensures Collectable(s, z) ==> Apply(s, Reap) == s.(state := s.state[z := Unused])
    ensures (forall q :: !Collectable(s, q)) ==> Apply(s, Reap) == s.(resched := true)
  {
    var p := FirstInState(s.state, Zombie, s.current, 0);
    if p != NIL {
      assert Collectable(s, p);
    }
  }

  /** A step that brings a ZOMBIE back, or collects it. */
  ghost predicate Revives(s: Sched, e: Event, p: int) {
    || (s.current == p && (e.Block? || e.Sleep? || (e.Tick? && TickDispatches(s))))
    || (e.Reap? && s.current != NIL && Collectable(s, p))
  }

  /** Any other step leaves it a ZOMBIE. */
  lemma ZombieStep(s: Sched, e: Event, p: int)
    requires Inv(s) && WellFormedEvent(e) && Legal(s, e) && IsProc(p) && s.state[p] == Zombie
    ensures |Apply(s, e).state| == MAX_PROCESSES && (Apply(s, e).state[p] == Zombie <==> !Revives(s, e, p))
  {
    if e.Switch? {
      WakeDueSlot(s, e.now, 0, p);
      WakeDueKeepsInv(s, e.now, 0);
      ZombieSwitch(WakeDue(s, e.now, 0), p);
    } else if e.Reap? {
      ZombieReap(s, p);
    } else if e.Tick? {
      ZombieTick(s, p);
    }
  }

  lemma ZombieReap(s: Sched, p: int)
    requires Inv(s) && IsProc(p) && s.state[p] == Zombie
    ensures |Apply(s, Reap).state| == MAX_PROCESSES
    ensures Apply(s, Reap).state[p] == Zombie <==> !(s.current != NIL && Collectable(s, p))
  {
    if s.current != NIL {
      var z := FirstInState(s.state, Zombie, s.current, 0);
      assert p == z <==> Collectable(s, p);
    }
  }

  lemma ZombieTick(s: Sched, p: int)
    requires Inv(s) && Legal(s, Tick) && IsProc(p) && s.state[p] == Zombie
    ensures |Apply(s, Tick).state| == MAX_PROCESSES
    ensures Apply(s, Tick).state[p] == Zombie <==> !(s.current == p && TickDispatches(s))
  {
    assert p !in s.queue;
    StepKeepsInvExactly(s, Tick);
  }

  lemma ZombieSwitch(w: Sched, p: int)
    requires Inv(w) && IsProc(p) && w.state[p] == Zombie
    ensures SwitchBody(w).state[p] == Zombie
  {
    assert p !in w.queue;
  }

  // ---------- time slices ----------

  function Ticks(n: nat): (es: seq<Event>)
    ensures |es| == n && forall i :: 0 <= i < n ==> es[i] == Tick
  {
    seq(n, i => Tick)
  }

  /**
   A running process keeps the processor for what is left of its ten ticks, if nobody asks for a switch, and at
   the last of them the head of the queue runs and it goes to the end of the queue.
   */
  lemma {:induction false} TimeSlice(s: Sched, n: nat)
    requires Inv(s) && s.current != NIL && Runs(s, s.current) && !s.resched && s.queue != [] && s.slice + n <= 10
    ensures var r := Run(s, Ticks(n));
      if s.slice + n < 10 || n == 0 then r == s.(slice := s.slice + n)
      else
        && Inv(r) && Runs(r, s.queue[0]) && r.queue == s.queue[1..] + [s.current] && r.state[s.current] == Ready
        && !r.resched && r.slice == 0
    decreases n
  {
    if n > 0 {
      assert Ticks(n)[1..] == Ticks(n - 1);
      var t := Apply(s, Tick);
      if s.slice + 1 < 10 {
        assert t == s.(slice := s.slice + 1);
        TimeSlice(t, n - 1);
      } else {
        SliceOver(s);
        assert Run(t, Ticks(0)) == t;
      }
    }
  }

  /** A tick that finds the slice used up, or a switch asked for. */
  lemma SliceOver(s: Sched)
    requires Inv(s) && s.current != NIL && Runs(s, s.current) && s.queue != [] && (s.slice + 1 >= 10 || s.resched)
    ensures var r := Apply(s, Tick);
      && Inv(r) && Runs(r, s.queue[0]) && r.queue == s.queue[1..] + [s.current] && r.state[s.current] == Ready
      && !r.resched && r.slice == if s.slice + 1 >= 10 then 0 else s.slice + 1
  {
    StepKeepsInvExactly(s, Tick);
    assert (s.queue + [s.current])[1..] == s.queue[1..] + [s.current];
    assert s.current !in s.queue;
    assert s.queue[0] in s.queue;
  }

  /** Yielding ends the slice at the next tick. */
  lemma YieldThenTick(s: Sched)
    requires Inv(s) && s.current != NIL && Runs(s, s.current) && s.queue != []
    ensures var r := Apply(Apply(s, Yield), Tick);
      Inv(r) && Runs(r, s.queue[0]) && r.queue == s.queue[1..] + [s.current] && r.state[s.current] == Ready
  {
    SliceOver(Apply(s, Yield));
  }

  /** When nothing is current, a tick starts the head of the queue. */
  lemma TickStarts(s: Sched)
    requires Inv(s) && s.current == NIL && s.queue != []
    ensures var r := Apply(s, Tick); Inv(r) && Runs(r, s.queue[0]) && r.queue == s.queue[1..] && !r.resched
  {
    StepKeepsInvExactly(s, Tick);
  }

  /** A process that blocks or sleeps asks for a switch; so the next tick finds it stopped and makes it READY again. */
  lemma StopThenTick(s: Sched, e: Event)
    requires Inv(s) && s.current != NIL && (e.Block? || e.Sleep?) && Legal(s, e)
    ensures var r := Apply(Apply(s, e), Tick);
      Inv(r) && r.state[s.current] == Ready && s.current in r.queue && s.queue != [] && Runs(r, s.queue[0])
  {
    var t := Apply(s, e);
    StepKeepsInvExactly(s, e);
    assert IDLE in s.queue;
    TickRevivesStopped(t);
    StepKeepsInvExactly(t, Tick);
  }

  /** With nothing ready and no sleeper to wake, the current process goes on and the request is dropped. */
  lemma NothingReady(s: Sched, now: nat)
    requires Inv(s) && s.queue == [] && Sleepers(s, now, 0) == []
    ensures Runs(s, IDLE) && Apply(s, Switch(now)) == s.(resched := false)
    ensures var r := Apply(s, Tick);
      Runs(r, IDLE) && !r.resched && r == s.(resched := false, slice := r.slice)
  {
    assert s.state[IDLE] != Ready;
    NoSleepers(s, now, 0);
  }

  lemma {:induction false} NoSleepers(s: Sched, now: nat, i: nat)
    requires |s.state| == |s.wake| == MAX_PROCESSES && i <= MAX_PROCESSES && Sleepers(s, now, i) == []
    ensures WakeDue(s, now, i) == s
    decreases MAX_PROCESSES - i
  {
    if i < MAX_PROCESSES {
      NoSleepers(s, now, i + 1);
    }
  }

  // ---------- blocking and waking ----------

  /** Block and wake before any switch: the process is current, READY and last in the queue. */
  lemma BlockThenWake(s: Sched)
    requires Inv(s) && s.current != NIL && Legal(s, Block)
    ensures var r := Apply(Apply(s, Block), Wake(s.current));
      Inv(r) && r == s.(state := s.state[s.current := Ready], queue := s.queue + [s.current], resched := true)
  {
    StepKeepsInvExactly(s, Block);
    StepKeepsInvExactly(Apply(s, Block), Wake(s.current));
  }
}
