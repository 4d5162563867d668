/**
 The scheduler of scheduler.c, process.c and switch.c over its intrusive doubly linked ready queue.

 The process table is kept column by column (state, wake time, next and prev link of each slot); a
 process pointer is a slot number and NIL the null pointer.  Every operation is proved to perform
 the step of the same name of SchedModel and to keep the links a well-formed list.
 */
module Scheduler {
  import opened Basics
  import opened SchedModel

  /** The link fields of all slots and the two ends of the ready queue. */
  datatype Links = Links(next: seq<int>, prev: seq<int>, head: int, tail: int)

  /** The element at position `i`, or NIL past either end. */
  ghost function At(q: seq<int>, i: int): int {
    if 0 <= i < |q| then q[i] else NIL
  }

  /** The links form an acyclic doubly linked list with the contents of `q`. */
  ghost predicate IsList(l: Links, q: seq<int>) {
    && |l.next| == |l.prev| == MAX_PROCESSES
    && (forall i :: 0 <= i < |q| ==> IsProc(q[i]))
    && NoDup(q)
    && l.head == At(q, 0)
    && l.tail == At(q, |q| - 1)
    && (forall i {:trigger l.next[q[i]]} :: 0 <= i < |q| ==> l.next[q[i]] == At(q, i + 1))
    && (forall i {:trigger l.prev[q[i]]} :: 0 <= i < |q| ==> l.prev[q[i]] == At(q, i - 1))
  }

  predicate IsLink(p: int) {
    p == NIL || IsProc(p)
  }

  /** All links are null or lead to a slot. */
  ghost predicate InRange(l: Links) {
    && |l.next| == |l.prev| == MAX_PROCESSES && IsLink(l.head) && IsLink(l.tail)
    && (forall i :: 0 <= i < MAX_PROCESSES ==> IsLink(l.next[i]))
    && (forall i :: 0 <= i < MAX_PROCESSES ==> IsLink(l.prev[i]))
  }

  /** The effect of `scheduler_add` on the links. */
  function Append(l: Links, p: int): Links
    requires |l.next| == |l.prev| == MAX_PROCESSES && IsProc(p) && (l.tail == NIL || IsProc(l.tail))
  {
    var next := l.next[p := NIL];
    if l.tail != NIL then Links(next[l.tail := p], l.prev[p := l.tail], l.head, p)
    else Links(next, l.prev[p := l.tail], p, p)
  }

  lemma AppendIsList(l: Links, q: seq<int>, p: int)
    requires IsList(l, q) && IsProc(p) && p !in q
    ensures IsList(Append(l, p), q + [p])
  {
    var r, q' := Append(l, p), q + [p];
    forall i | 0 <= i < |q'| ensures r.next[q'[i]] == At(q', i + 1) && r.prev[q'[i]] == At(q', i - 1) {
      if i < |q| {
        assert q'[i] == q[i] && q[i] != p;
        assert l.next[q[i]] == At(q, i + 1) && l.prev[q[i]] == At(q, i - 1);
        assert i < |q| - 1 ==> q[i] != q[|q| - 1];
      }
    }
  }

  /** Following `next` from the head visits exactly `q` and then ends. */
  ghost predicate Visits(l: Links, q: seq<int>) {
    && |l.next| == MAX_PROCESSES && (forall i :: 0 <= i < |q| ==> IsProc(q[i])) && l.head == At(q, 0)
    && (forall i {:trigger l.next[q[i]]} :: 0 <= i < |q| ==> l.next[q[i]] == At(q, i + 1))
  }

  /**
   Adding a process that is still linked: those queued behind it are cut off, or, if it was the last one,
   it becomes its own successor.
   */
  lemma ReAddCuts(l: Links, q: seq<int>, k: nat)
    requires IsList(l, q) && k < |q|
    ensures if k < |q| - 1 then Visits(Append(l, q[k]), q[..k + 1]) else Append(l, q[k]).next[q[k]] == q[k]
  {
    if k < |q| - 1 {
      var r, v := Append(l, q[k]), q[..k + 1];
      forall i | 0 <= i < |v| ensures r.next[v[i]] == At(v, i + 1) {
        assert v[i] == q[i] && l.next[q[i]] == At(q, i + 1) && q[i] != q[|q| - 1];
        assert i < k ==> q[i] != q[k];
      }
    }
  }

  /** Then the links are no list of anything. */
  lemma ReAddBreaks(l: Links, q: seq<int>, k: nat, q': seq<int>)
    requires IsList(l, q) && k < |q|
    ensures !IsList(Append(l, q[k]), q')
  {
    var p := q[k];
    var r := Append(l, p);
    if IsList(r, q') {
      SameStart(l, q, k, r, q', k);
      assert r.next[q'[k]] == At(q', k + 1) && r.prev[q'[k]] == At(q', k - 1);
      if k > 0 {
        SameStart(l, q, k, r, q', k - 1);
      }
    }
  }

  lemma {:induction false} SameStart(l: Links, q: seq<int>, k: nat, r: Links, q': seq<int>, i: nat)
    requires IsList(l, q) && k < |q| && r == Append(l, q[k]) && IsList(r, q') && i <= k
    ensures i < |q'| && q'[i] == q[i]
  {
    if i > 0 {
      SameStart(l, q, k, r, q', i - 1);
      assert q[i - 1] != q[k] && q[i - 1] != q[|q| - 1];
      assert l.next[q[i - 1]] == At(q, i) && r.next[q'[i - 1]] == At(q', i);
    }
  }

  /** The effect of `scheduler_remove` on the links. */
  function Unlink(l: Links, p: int): Links
    requires |l.next| == |l.prev| == MAX_PROCESSES && IsProc(p)
    requires (l.prev[p] == NIL || IsProc(l.prev[p])) && (l.next[p] == NIL || IsProc(l.next[p]))
  {
    var a := if l.prev[p] != NIL then l.(next := l.next[l.prev[p] := l.next[p]]) else l.(head := l.next[p]);
    if l.next[p] != NIL then a.(prev := l.prev[l.next[p] := l.prev[p]]) else a.(tail := l.prev[p])
  }

  /** The queue without position `k`. */
  ghost function Without(q: seq<int>, k: nat): (r: seq<int>)
    requires k < |q|
    ensures |r| == |q| - 1
    ensures forall i :: 0 <= i < |r| ==> r[i] == q[if i < k then i else i + 1]
  {
    q[..k] + q[k + 1..]
  }

  lemma UnlinkIsList(l: Links, q: seq<int>, k: nat)
    requires IsList(l, q) && k < |q|
    ensures IsProc(q[k]) && l.prev[q[k]] == At(q, k - 1) && l.next[q[k]] == At(q, k + 1)
    ensures IsList(Unlink(l, q[k]), Without(q, k))
  {
    var r, w := Unlink(l, q[k]), Without(q, k);
    forall i | 0 <= i < |w| ensures r.next[w[i]] == At(w, i + 1) && r.prev[w[i]] == At(w, i - 1) {
      UnlinkLinks(l, q, k, i);
    }
    UnlinkEnds(l, q, k);
    WithoutNoDup(q, k);
  }

  /** The two ends of the shortened queue. */
  lemma UnlinkEnds(l: Links, q: seq<int>, k: nat)
    requires IsList(l, q) && k < |q|
    ensures l.prev[q[k]] == At(q, k - 1) && l.next[q[k]] == At(q, k + 1)
    ensures Unlink(l, q[k]).head == At(Without(q, k), 0)
    ensures Unlink(l, q[k]).tail == At(Without(q, k), |q| - 2)
  {
  }

  lemma WithoutNoDup(q: seq<int>, k: nat)
    requires NoDup(q) && k < |q|
    ensures NoDup(Without(q, k))
  {
  }

  /** The links of position `i` of the shortened queue. */
  lemma UnlinkLinks(l: Links, q: seq<int>, k: nat, i: nat)
    requires IsList(l, q) && k < |q| && i < |q| - 1
    ensures l.prev[q[k]] == At(q, k - 1) && l.next[q[k]] == At(q, k + 1)
    ensures Unlink(l, q[k]).next[Without(q, k)[i]] == At(Without(q, k), i + 1)
    ensures Unlink(l, q[k]).prev[Without(q, k)[i]] == At(Without(q, k), i - 1)
  {
    var j := if i < k then i else i + 1;
    assert l.next[q[j]] == At(q, j + 1) && l.prev[q[j]] == At(q, j - 1);
    assert k > 0 && j != k - 1 ==> q[j] != q[k - 1];
    assert k + 1 < |q| && j != k + 1 ==> q[j] != q[k + 1];
  }

  lemma UnlinkInRange(l: Links, p: int)
    requires InRange(l) && IsProc(p)
    ensures InRange(Unlink(l, p))
  {
  }

  /** Removing a process that is not linked and has null links empties the list. */
  lemma UnlinkOutsider(l: Links, q: seq<int>, p: int)
    requires IsList(l, q) && IsProc(p) && p !in q && l.next[p] == l.prev[p] == NIL
    ensures IsList(Unlink(l, p), [])
  {
  }

  /** The effect of `scheduler_pick` on the links of a non-empty queue. */
  function DropHead(l: Links): Links
    requires |l.next| == |l.prev| == MAX_PROCESSES && IsProc(l.head)
    requires l.next[l.head] == NIL || IsProc(l.next[l.head])
  {
    var h := l.next[l.head];
    if h != NIL then l.(head := h, prev := l.prev[h := NIL]) else l.(head := h, tail := NIL)
  }

  lemma DropHeadIsList(l: Links, q: seq<int>)
    requires IsList(l, q) && q != []
    ensures IsProc(l.head) && l.next[l.head] == At(q, 1)
    ensures IsList(DropHead(l), q[1..])
  {
    assert l.next[q[0]] == At(q, 1);
    var r, q' := DropHead(l), q[1..];
    forall i | 0 <= i < |q'| ensures r.next[q'[i]] == At(q', i + 1) && r.prev[q'[i]] == At(q', i - 1) {
      assert q'[i] == q[i + 1];
      assert l.next[q[i + 1]] == At(q, i + 2) && l.prev[q[i + 1]] == At(q, i);
    }
  }

  /** No due sleeper below slot `i` is linked. */
  ghost predicate NoneLinked(s: Sched, now: nat, i: nat)
    requires |s.state| == |s.wake| == MAX_PROCESSES
  {
    forall p :: 0 <= p < i && IsProc(p) && Due(s, now, p) ==> p !in s.queue
  }

  /** The effect of `process_check_sleepers` on slot `i`. */
  function WakeOne(s: Sched, now: nat, i: nat): Sched
    requires |s.state| == |s.wake| == MAX_PROCESSES && i < MAX_PROCESSES
  {
    if Due(s, now, i) then Add(s.(wake := s.wake[i := 0]), i) else s
  }

  /** Slots from `i` on are as they were, and only slots below `i` were appended to the queue. */
  ghost predicate Woken(s: Sched, r: Sched, now: nat, i: nat) {
    && |s.state| == |s.wake| == |r.state| == |r.wake| == MAX_PROCESSES && s.queue <= r.queue
    && (forall p :: i <= p < MAX_PROCESSES ==> r.state[p] == s.state[p] && r.wake[p] == s.wake[p])
    && (forall k :: |s.queue| <= k < |r.queue| ==> 0 <= r.queue[k] < i)
  }

  /** One iteration of `process_check_sleepers`. */
  lemma WokenStep(s: Sched, r: Sched, now: nat, i: nat)
    requires Woken(s, r, now, i) && i < MAX_PROCESSES && (NoneLinked(s, now, i) || !NoDup(r.queue))
    ensures var r' := WakeOne(r, now, i);
      Woken(s, r', now, i + 1) && (NoneLinked(s, now, i + 1) || !NoDup(r'.queue))
    ensures NoneLinked(s, now, i + 1) && Due(r, now, i) ==> i !in r.queue
  {
    var q, q' := r.queue, WakeOne(r, now, i).queue;
    assert forall k :: 0 <= k < |q| ==> q'[k] == q[k];
    assert Due(r, now, i) <==> Due(s, now, i);
    if Due(r, now, i) && i in s.queue {
      var k :| 0 <= k < |s.queue| && s.queue[k] == i;
      assert q[k] == i && q'[k] == q'[|q|];
    }
  }

  /** The current process is linked behind the head. */
  ghost predicate Behind(s: Sched) {
    s.queue != [] && s.current in s.queue[1..]
  }

  /** A tick is illegal exactly if it dispatches while the current process is linked behind the head. */
  lemma TickIllegal(s: Sched)
    requires Inv(s)
    ensures Legal(s, Tick) <==> !(Count(s).resched && s.current != NIL && Behind(s))
  {
    if s.current != NIL && s.state[s.current] == Ready {
      assert s.current in s.queue && IDLE in s.queue;
      var k :| 0 <= k < |s.queue| && s.queue[k] == s.current;
      var i :| 0 <= i < |s.queue| && s.queue[i] == IDLE;
      assert i < k && s.queue[1..][k - 1] == s.current;
    }
  }

  class Kernel {
    var state: seq<PState>
    var wake: seq<nat>
    var next: seq<int>
    var prev: seq<int>
    var head: int
    var tail: int
    var current: int
    var resched: bool
    var slice: nat

    /** The processes linked from `head`, in order. */
    ghost var queue: seq<int>

    ghost function Abs(): Sched
      reads this
    {
      Sched(state, wake, queue, current, resched, slice)
    }

    ghost function Chain(): Links
      reads this
    {
      Links(next, prev, head, tail)
    }

    /** The globals have their shape, whatever the links say. */
    ghost predicate Shaped()
      reads this
    {
      WellFormed(Abs()) && InRange(Chain())
    }

    ghost predicate Linked()
      reads this
    {
      Shaped() && IsList(Chain(), queue)
    }

    ghost predicate Valid()
      reads this
    {
      Linked() && Inv(Abs())
    }

    /** `process_init` and `scheduler_init`. */
    constructor ()
      ensures Valid() && Abs() == Init()
      ensures queue == [IDLE] && current == NIL && !resched && slice == 0
      ensures forall p :: IsProc(p) ==> wake[p] == 0 && state[p] == if p == IDLE then Ready else Unused
    {
      state := seq(MAX_PROCESSES, i => if i == IDLE then Ready else Unused);
      wake := seq(MAX_PROCESSES, i => 0);
      next := seq(MAX_PROCESSES, i => NIL);
      prev := seq(MAX_PROCESSES, i => NIL);
      head, tail, current, resched, slice := IDLE, IDLE, NIL, false, 0;
      queue := [IDLE];
      new;
      assert queue[0] == IDLE;
    }

    /** `scheduler_add`.  The links stay a list exactly if the process was not linked yet. */
    method AddProc(p: int)
      requires Shaped() && IsProc(p)
      modifies this
      ensures Shaped() && Abs() == Add(old(Abs()), p) && Chain() == Append(old(Chain()), p)
      ensures old(Linked()) ==> (Linked() <==> p !in old(queue))
      ensures old(Linked()) && p in old(queue) ==> forall q :: !IsList(Chain(), q)
    {
      ghost var l, was := Chain(), queue;
      next := next[p := NIL];
      prev := prev[p := tail];
      if tail != NIL {
        next := next[tail := p];
      } else {
        head := p;
      }
      tail := p;
      state := state[p := Ready];
      queue := queue + [p];
      if old(Linked()) {
        if p in was {
          ghost var k :| 0 <= k < |was| && was[k] == p;
          forall q ensures !IsList(Chain(), q) {
            ReAddBreaks(l, was, k, q);
          }
        } else {
          AppendIsList(l, was, p);
        }
      }
    }

    /** The link updates of `scheduler_remove`. */
    method Detach(p: int)
      requires InRange(Chain()) && IsProc(p)
      modifies this`next, this`prev, this`head, this`tail
      ensures Chain() == Unlink(old(Chain()), p)
    {
      if prev[p] != NIL {
        next := next[prev[p] := next[p]];
      } else {
        head := next[p];
      }
      if next[p] != NIL {
        prev := prev[next[p] := prev[p]];
      } else {
        tail := prev[p];
      }
    }

    /** `scheduler_remove`.  Of a linked process, at any position, it leaves the list without it. */
    method RemoveProc(p: int) returns (ghost k: nat)
      requires Shaped() && IsProc(p)
      modifies this
      ensures Shaped() && Chain() == Unlink(old(Chain()), p) && state == old(state)[p := Zombie]
      ensures wake == old(wake) && current == old(current) && resched == old(resched) && slice == old(slice)
      ensures old(Linked()) && p in old(queue) ==>
        Linked() && k < |old(queue)| && old(queue)[k] == p && queue == Without(old(queue), k)
    {
      k := 0;
      UnlinkInRange(Chain(), p);
      if Linked() && p in queue {
        k :| 0 <= k < |queue| && queue[k] == p;
        UnlinkIsList(Chain(), queue, k);
        queue := Without(queue, k);
      }
      Detach(p);
      state := state[p := Zombie];
    }

    /** `scheduler_pick`: unlink the head. */
    method Pick() returns (p: int)
      requires Linked()
      modifies this`head, this`tail, this`prev, this`queue
      ensures Linked()
      ensures old(queue) == [] ==> p == NIL && queue == []
      ensures old(queue) != [] ==> [p] + queue == old(queue)
    {
      if head == NIL {
        return NIL;
      }
      DropHeadIsList(Chain(), queue);
      p := head;
      head := next[p];
      queue := queue[1..];
      if head != NIL {
        prev := prev[head := NIL];
      } else {
        tail := NIL;
      }
    }

    /** `scheduler_set_current` of a process. */
    method SetCurrent(p: int)
      requires Shaped() && IsProc(p)
      modifies this`current, this`state
      ensures Shaped() && current == p && state == old(state)[p := Running]
    {
      current := p;
      state := state[p := Running];
    }

    /** `scheduler_runnable_count`: walks the links, whether or not they are a list, if they come to an end. */
    method RunnableCount(ghost q: seq<int>) returns (n: nat)
      requires Visits(Chain(), q)
      ensures n == |q|
    {
      n := 0;
      var p := head;
      while p != NIL
        invariant n <= |q| && p == At(q, n)
        decreases |q| - n
      {
        assert next[q[n]] == At(q, n + 1);
        n := n + 1;
        p := next[p];
      }
    }

    /** `alloc_process` and the rest of `process_create`. */
    method CreateProc(stackOk: bool) returns (p: int)
      requires Valid()
      modifies this
      ensures Valid() && Abs() == Apply(old(Abs()), Create(stackOk))
      ensures p != NIL <==> stackOk && Unused in old(state)
      ensures p != NIL ==>
        && IsProc(p) && old(state)[p] == Unused && (forall q :: 0 <= q < p ==> old(state)[q] != Unused)
        && state == old(state)[p := Ready] && wake == old(wake)[p := 0] && queue == old(queue) + [p]
      ensures p == NIL ==> Abs() == old(Abs())
      ensures current == old(current) && resched == old(resched) && slice == old(slice)
    {
      StepKeepsInvExactly(Abs(), Create(stackOk));
      p := 0;
      while p < MAX_PROCESSES && state[p] != Unused
        invariant 0 <= p <= MAX_PROCESSES
        invariant FirstInState(state, Unused, NIL, 0) == FirstInState(state, Unused, NIL, p)
      {
        p := p + 1;
      }
      if p == MAX_PROCESSES || !stackOk {
        return NIL;
      }
      wake := wake[p := 0];
      AddProc(p);
    }

    /** `process_block`. */
    method BlockCurrent()
      requires Valid()
      modifies this`state, this`resched
      ensures Linked() && Abs() == Apply(old(Abs()), Block)
      ensures resched && state == if current == NIL then old(state) else old(state)[current := Blocked]
      ensures Valid() <==> Legal(old(Abs()), Block)
    {
      StepKeepsInvExactly(Abs(), Block);
      if current != NIL {
        state := state[current := Blocked];
      }
      resched := true;
    }

    /** `process_wake`.  Waking a BLOCKED process that is still linked breaks the list. */
    method WakeProc(p: int)
      requires Shaped() && IsProc(p)
      modifies this
      ensures Shaped() && Abs() == Apply(old(Abs()), Wake(p))
      ensures if old(state)[p] == Blocked then state == old(state)[p := Ready] && queue == old(queue) + [p]
              else Abs() == old(Abs())
      ensures wake == old(wake) && current == old(current) && resched == old(resched) && slice == old(slice)
      ensures old(Linked()) ==> (Linked() <==> (old(state)[p] == Blocked ==> p !in old(queue)))
      ensures old(Linked()) && !Linked() ==> forall q :: !IsList(Chain(), q)
      ensures old(Valid()) ==> Valid()
    {
      if Inv(Abs()) {
        StepKeepsInvExactly(Abs(), Wake(p));
      }
      if state[p] == Blocked {
        AddProc(p);
      }
    }

    /** `process_sleep`. */
    method SleepCurrent(now: nat, ms: nat)
      requires Valid()
      modifies this`state, this`wake, this`resched
      ensures Linked() && Abs() == Apply(old(Abs()), Sleep(now, ms))
      ensures if current == NIL then Abs() == old(Abs())
              else resched && state == old(state)[current := Blocked] &&
                   wake == old(wake)[current := (now + ms) % WORD]
      ensures Valid() <==> Legal(old(Abs()), Sleep(now, ms))
    {
      StepKeepsInvExactly(Abs(), Sleep(now, ms));
      if current != NIL {
        wake := wake[current := (now + ms) % WORD];
        state := state[current := Blocked];
        resched := true;
      }
    }

    /** `process_exit` up to the point where it halts. */
    method ExitCurrent()
      requires Valid()
      modifies this`state
      ensures Linked() && Abs() == Apply(old(Abs()), Exit)
      ensures state == if current == NIL then old(state) else old(state)[current := Zombie]
      ensures Valid() <==> Legal(old(Abs()), Exit)
    {
      StepKeepsInvExactly(Abs(), Exit);
      if current != NIL {
        state := state[current := Zombie];
      }
    }

    /** `sys_kill` of a slot: a queued process is marked ZOMBIE but stays linked. */
    method KillProc(p: int)
      requires Valid() && IsProc(p)
      modifies this`state
      ensures Linked() && Abs() == Apply(old(Abs()), Kill(p))
      ensures state == if old(state)[p] == Unused then old(state) else old(state)[p := Zombie]
      ensures Valid() <==> Legal(old(Abs()), Kill(p))
    {
      StepKeepsInvExactly(Abs(), Kill(p));
      if state[p] != Unused {
        state := state[p := Zombie];
      }
    }

    /** `sys_wait`: free the first zombie slot other than the caller's. */
    method ReapZombie() returns (p: int)
      requires Valid()
      modifies this`state, this`resched
      ensures Valid() && Abs() == Apply(old(Abs()), Reap)
      ensures p == NIL <==> current == NIL || forall q :: IsProc(q) && q != current ==> old(state)[q] != Zombie
      ensures p != NIL ==>
        && IsProc(p) && old(state)[p] == Zombie && p != current && resched == old(resched)
        && (forall q :: 0 <= q < p && q != current ==> old(state)[q] != Zombie) && state == old(state)[p := Unused]
      ensures p == NIL ==> state == old(state) && (resched <==> old(resched) || current != NIL)
    {
      StepKeepsInvExactly(Abs(), Reap);
      if current == NIL {
        return NIL;
      }
      p := 0;
      while p < MAX_PROCESSES && (state[p] != Zombie || p == current)
        invariant 0 <= p <= MAX_PROCESSES
        invariant FirstInState(state, Zombie, current, 0) == FirstInState(state, Zombie, current, p)
      {
        p := p + 1;
      }
      if p == MAX_PROCESSES {
        resched := true;
        return NIL;
      }
      state := state[p := Unused];
    }

    /** `process_check_sleepers`.  The links stay a list exactly if no due sleeper was linked. */
    method CheckSleepers(now: nat)
      requires Shaped()
      modifies this
      ensures Shaped() && Abs() == WakeDue(old(Abs()), now, 0)
      ensures old(Linked()) ==> (Linked() <==> NoneLinked(old(Abs()), now, MAX_PROCESSES))
    {
      ghost var s := Abs();
      var i := 0;
      while i < MAX_PROCESSES
        invariant 0 <= i <= MAX_PROCESSES && Shaped()
        invariant WakeDue(Abs(), now, i) == WakeDue(s, now, 0)
        invariant Woken(s, Abs(), now, i)
        invariant old(Linked()) && NoneLinked(s, now, i) ==> Linked()
        invariant NoneLinked(s, now, i) || !NoDup(queue)
      {
        WokenStep(s, Abs(), now, i);
        if state[i] == Blocked && 0 < wake[i] <= now {
          wake := wake[i := 0];
          AddProc(i);
        }
        i := i + 1;
      }
    }

    /**
     The part of `switch_schedule` after the sleepers were checked.  The links stay a list exactly if it
     does not re-link a process that is still linked.
     */
    method SwitchToNext() returns (next: int)
      requires Linked()
      modifies this
      ensures Shaped() && Abs() == SwitchBody(old(Abs()))
      ensures Linked() <==> !(old(current) != NIL && old(state)[old(current)] == Running && Behind(old(Abs())))
      ensures Linked() || forall q :: !IsList(Chain(), q)
      ensures next == (if old(queue) != [] then current else NIL)
    {
      var last := current;
      next := Pick();
      if next == NIL {
        if last != NIL {
          resched := false;
        }
        return;
      }
      if last != NIL && state[last] == Running {
        AddProc(last);
        assert queue == (old(queue) + [last])[1..];
      }
      SetCurrent(next);
      resched := false;
    }

    /** `switch_schedule`: reports the process switched to, or NIL when none was ready. */
    method SwitchSchedule(now: nat) returns (next: int)
      requires Valid()
      modifies this
      ensures Valid() && Abs() == Apply(old(Abs()), Switch(now))
      ensures next == (if Pops(old(Abs()), Switch(now)) then current else NIL)
    {
      ghost var s := Abs();
      StepKeepsInvExactly(s, Switch(now));
      WakeDueKeepsInv(s, now, 0);
      CheckSleepers(now);
      next := SwitchToNext();
    }

    /** `scheduler_tick` and the forced reschedule when nothing is current. */
    method CountTick()
      requires Linked()
      modifies this`slice, this`resched
      ensures Linked() && Abs() == Count(old(Abs()))
    {
      if current != NIL {
        slice := slice + 1;
        if slice >= TIME_SLICE_MS {
          slice := 0;
          resched := true;
        }
      }
      var runnable := RunnableCount(queue);
      if current == NIL && runnable > 0 {
        resched := true;
      }
    }

    /** The dispatching part of `switch_timer_tick`, which re-adds the current process whatever its state. */
    method TickToNext() returns (next: int)
      requires Linked()
      modifies this
      ensures Shaped() && Abs() == TickBody(old(Abs()))
      ensures Linked() <==> !(old(resched) && old(current) != NIL && Behind(old(Abs())))
      ensures Linked() || forall q :: !IsList(Chain(), q)
      ensures next == (if old(resched) && old(queue) != [] then current else NIL)
    {
      if !resched {
        return NIL;
      }
      var last := current;
      next := Pick();
      if next == NIL {
        resched := false;
        return;
      }
      if last != NIL {
        AddProc(last);
        assert queue == (old(queue) + [last])[1..];
      }
      SetCurrent(next);
      resched := false;
    }

    /** `switch_timer_tick`.  An illegal tick leaves links that are no list of anything. */
    method TimerTick() returns (next: int)
      requires Valid()
      modifies this
      ensures Shaped() && Abs() == Apply(old(Abs()), Tick)
      ensures Valid() <==> Legal(old(Abs()), Tick)
      ensures Valid() || forall q :: !IsList(Chain(), q)
      ensures next == (if Pops(old(Abs()), Tick) then current else NIL)
    {
      ghost var s := Abs();
      StepKeepsInvExactly(s, Tick);
      CountTick();
      TickIllegal(s);
      next := TickToNext();
    }
  }
}
