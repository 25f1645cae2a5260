/** Tasks, the run queue and semaphores as a transition system (kern/krnl/task/sched.c, kern/krnl/sync/sem.c,
    kern/krnl/sync/wait.c). One action is one section with interrupts masked. */
module Scheduling {
  import opened Sequences
  import opened TaskStates

  type Tid = nat
  type SemId = nat

  const MAX_TIME_SLICES: nat := 1

  /** wait_state: none, WT_KSEM, or one of the other reasons (child, keyboard). */
  datatype WaitState = NotWait | KSem | Other

  /** Where a task stands: in down on a semaphore, before or after its own call of schedule, its wait record's flags
      still WT_INTERRUPTED or set to WT_KSEM by up; or elsewhere. */
  datatype Place = Elsewhere | InDown(sem: SemId, slept: bool, granted: bool)

  datatype Task = Task(state: TaskState, wait: WaitState, slice: nat, resched: bool, place: Place)

  /** A semaphore. The holders (a task handed the semaphore holds it), the number of releases by tasks that did not hold
      it, and the order in which tasks began to wait and were woken, are history. */
  datatype Sem = Sem(init: nat, value: int, waiters: seq<Tid>, holders: multiset<Tid>, extra: nat, arrived: seq<Tid>,
                     woken: seq<Tid>)

  datatype State = State(tasks: map<Tid, Task>, current: Tid, idle: Tid, queue: seq<Tid>, taskNum: int,
                         sems: map<SemId, Sem>, panicked: bool)

  datatype Action =
    | Tick
    | Schedule
    | Preempt
    | Acquire(sem: SemId)
    | Finish
    | Release(sem: SemId)
    | Block
    | Wake(task: Tid)
    | Fork(task: Tid)
    | Exit
    | Reap(task: Tid)
    | InitSem(sem: SemId, init: nat)

  // ---- the steps ----

  function SetTask(s: State, t: Tid, k: Task): State {
    s.(tasks := s.tasks[t := k])
  }

  function SetSem(s: State, x: SemId, m: Sem): State {
    s.(sems := s.sems[x := m])
  }

  /** The time slice of a task that joins the queue. */
  function Refilled(k: Task): Task {
    if k.slice == 0 || k.slice > MAX_TIME_SLICES then k.(slice := MAX_TIME_SLICES) else k
  }

  function Enqueue(s: State, t: Tid): State
    requires t in s.tasks
  {
    SetTask(s, t, Refilled(s.tasks[t])).(queue := s.queue + [t], taskNum := s.taskNum + 1)
  }

  /** The task at the head of the queue takes over, or else the idle task. */
  function Dispatch(s: State): State {
    if s.queue == [] then s.(current := s.idle)
    else s.(current := s.queue[0], queue := s.queue[1..], taskNum := s.taskNum - 1)
  }

  function DoSchedule(s: State): State
    requires s.current in s.tasks
  {
    var k := s.tasks[s.current].(resched := false);
    var s1 := SetTask(s, s.current, k);
    Dispatch(if k.state == Runnable && s.current != s.idle then Enqueue(s1, s.current) else s1)
  }

  function DoTick(s: State): State
    requires s.current in s.tasks
  {
    var k := s.tasks[s.current];
    var left := if k.slice > 0 then k.slice - 1 else 0;
    SetTask(s, s.current, k.(slice := left, resched := left == 0 || k.resched))
  }

  /** wakeupTask. */
  function DoWake(s: State, t: Tid): State
    requires t in s.tasks
  {
    if s.tasks[t].state == Runnable then s else
    var s1 := SetTask(s, t, s.tasks[t].(state := Runnable, wait := NotWait));
    if t != s.current && t != s.idle then Enqueue(s1, t) else s1
  }

  /** The first section of down. */
  function DoAcquire(s: State, x: SemId): State
    requires s.current in s.tasks && x in s.sems
  {
    var m, t := s.sems[x], s.current;
    if m.value > 0 then SetSem(s, x, m.(value := m.value - 1, holders := m.holders + multiset{t}))
    else
      SetSem(SetTask(s, t, s.tasks[t].(state := Sleeping, wait := KSem, place := InDown(x, false, false))),
             x, m.(waiters := m.waiters + [t], arrived := m.arrived + [t]))
  }

  /** The last section of down and the check of acquireSem. */
  function DoFinish(s: State): State
    requires s.current in s.tasks && s.tasks[s.current].place.InDown? && s.tasks[s.current].place.sem in s.sems
  {
    var t := s.current;
    var p := s.tasks[t].place;
    var m := s.sems[p.sem];
    var s1 := SetTask(s, t, s.tasks[t].(place := Elsewhere));
    SetSem(s1, p.sem, m.(waiters := Dropped(m.waiters, t))).(panicked := !p.granted)
  }

  /** Task t releases the semaphore, which it need not hold. */
  function GivenBack(m: Sem, t: Tid): Sem {
    if t in m.holders then m.(holders := m.holders - multiset{t}) else m.(extra := m.extra + 1)
  }

  /** The first waiter is handed the semaphore. */
  function HandedOn(m: Sem): Sem
    requires m.waiters != []
  {
    var w := m.waiters[0];
    m.(waiters := m.waiters[1..], woken := m.woken + [w], holders := m.holders + multiset{w})
  }

  /** up. */
  function DoRelease(s: State, x: SemId): State
    requires x in s.sems
  {
    var m := GivenBack(s.sems[x], s.current);
    if m.waiters == [] then SetSem(s, x, m.(value := m.value + 1))
    else
      var w := m.waiters[0];
      var s1 := SetSem(s, x, HandedOn(m));
      if w in s.tasks then DoWake(SetTask(s1, w, Granted(s.tasks[w])), w) else s1
  }

  /** The task's wait record gets the flag WT_KSEM. */
  function Granted(k: Task): Task {
    if k.place.InDown? then k.(place := k.place.(granted := true)) else k
  }

  /** What program order, and the rules that callers of these functions keep, allow next. */
  predicate Enabled(s: State, a: Action) {
    !s.panicked && s.current in s.tasks &&
    var k := s.tasks[s.current];
    match a
    case Tick => true
    case Preempt => k.resched
    case Schedule => !(k.place.InDown? && k.place.slept)
    case Acquire(x) => x in s.sems && k.place == Elsewhere && k.state == Runnable
    case Finish => k.place.InDown? && k.place.slept && k.place.sem in s.sems
    case Release(x) => x in s.sems && k.place == Elsewhere && k.state == Runnable
    case Block => k.place == Elsewhere && k.state == Runnable && s.current != s.idle
    case Wake(t) => t in s.tasks && s.tasks[t].state == Sleeping && s.tasks[t].wait == Other
    case Fork(t) => t !in s.tasks
    case Exit => k.place == Elsewhere && k.state == Runnable && s.current != s.idle
    case Reap(t) => t in s.tasks && s.tasks[t].state == Zombie && t != s.current
    case InitSem(x, _) => x !in s.sems
  }

  function Next(s: State, a: Action): State
    requires Enabled(s, a)
  {
    var t := s.current;
    var k := s.tasks[t];
    match a
    case Tick => DoTick(s)
    case Preempt => DoSchedule(s)
    case Schedule => DoSchedule(if k.place.InDown? then SetTask(s, t, k.(place := k.place.(slept := true))) else s)
    case Acquire(x) => DoAcquire(s, x)
    case Finish => DoFinish(s)
    case Release(x) => DoRelease(s, x)
    case Block => SetTask(s, t, k.(state := Sleeping, wait := Other))
    case Wake(u) => DoWake(s, u)
    case Fork(u) => DoWake(SetTask(s, u, Task(Uninit, NotWait, 0, false, Elsewhere)), u)
    case Exit => SetTask(s, t, k.(state := Zombie))
    case Reap(u) => s.(tasks := s.tasks - {u})
    case InitSem(x, v) => SetSem(s, x, Sem(v, v, [], multiset{}, 0, [], []))
  }

  // ---- the invariant ----

  /** Task t belongs in the run queue. */
  predicate Waiting(s: State, t: Tid) {
    t in s.tasks && s.tasks[t].state == Runnable && t != s.current && t != s.idle
  }

  /** The run queue holds, once each, the runnable tasks other than the current and the idle one. */
  ghost predicate QueueOk(s: State) {
    s.current in s.tasks && s.idle in s.tasks && s.taskNum == |s.queue| && Distinct(s.queue) &&
    (forall t :: t in s.queue <==> Waiting(s, t)) &&
    (forall t :: t in s.queue ==> 0 < s.tasks[t].slice <= MAX_TIME_SLICES)
  }

  /** Task t sleeps in down on x. */
  predicate SleepsOn(s: State, t: Tid, x: SemId) {
    t in s.tasks && s.tasks[t].place.InDown? && s.tasks[t].place.sem == x && !s.tasks[t].place.granted
  }

  ghost predicate SemOk(s: State, x: SemId)
    requires x in s.sems
  {
    var m := s.sems[x];
    m.value >= 0 && (m.value > 0 ==> m.waiters == []) && |m.holders| + m.value == m.init + m.extra &&
    m.arrived == m.woken + m.waiters && Distinct(m.waiters) &&
    forall t :: t in m.waiters <==> SleepsOn(s, t, x)
  }

  ghost predicate SemsOk(s: State) {
    forall x :: x in s.sems ==> SemOk(s, x)
  }

  ghost predicate PlaceOk(s: State, t: Tid)
    requires t in s.tasks
  {
    var k := s.tasks[t];
    if k.place.InDown? then
      k.place.sem in s.sems &&
      if k.place.granted then k.state == Runnable && t in s.sems[k.place.sem].holders
      else k.state == Sleeping && k.wait == KSem && (t == s.current && t != s.idle ==> !k.place.slept)
    else k.state == Sleeping ==> k.wait == Other && t != s.idle
  }

  ghost predicate PlacesOk(s: State) {
    (forall t :: t in s.tasks ==> PlaceOk(s, t)) && s.idle in s.tasks && s.tasks[s.idle].state != Zombie
  }

  ghost predicate Inv(s: State) {
    QueueOk(s) && SemsOk(s) && PlacesOk(s)
  }

  // ---- how the parts of the state are kept ----

  lemma NoDupAdd(q: seq<Tid>, t: Tid)
    requires Distinct(q) && t !in q
    ensures Distinct(q + [t])
  {
  }

  /** Only the current task, which is not in the queue, changed. */
  lemma QueueCurrent(s: State, k: Task)
    requires QueueOk(s)
    ensures QueueOk(SetTask(s, s.current, k))
  {
    var r := SetTask(s, s.current, k);
    assert forall t :: Waiting(r, t) <==> Waiting(s, t);
  }

  /** Semaphores play no part in the queue. */
  lemma QueueSem(s: State, x: SemId, m: Sem, panicked: bool)
    requires QueueOk(s)
    ensures QueueOk(SetSem(s, x, m).(panicked := panicked))
  {
    var r := SetSem(s, x, m).(panicked := panicked);
    assert forall t :: Waiting(r, t) <==> Waiting(s, t);
  }

  lemma QueueWake(s: State, t: Tid)
    requires QueueOk(s) && t in s.tasks
    ensures QueueOk(DoWake(s, t))
  {
    var r := DoWake(s, t);
    if s.tasks[t].state != Runnable {
      if t != s.current && t != s.idle {
        NoDupAdd(s.queue, t);
      }
      assert forall u :: Waiting(r, u) <==> Waiting(s, u) || (u == t && t != s.current && t != s.idle);
    }
  }

  /** The queue while the current task is about to be replaced: it may be in it, too. */
  ghost predicate Ready(s: State) {
    s.current in s.tasks && s.idle in s.tasks && s.taskNum == |s.queue| && Distinct(s.queue) &&
    (forall t :: t in s.queue <==> t in s.tasks && s.tasks[t].state == Runnable && t != s.idle) &&
    (forall t :: t in s.queue ==> 0 < s.tasks[t].slice <= MAX_TIME_SLICES)
  }

  lemma QueueReady(s: State)
    requires QueueOk(s)
    ensures var k := s.tasks[s.current].(resched := false);
      var s1 := SetTask(s, s.current, k);
      Ready(if k.state == Runnable && s.current != s.idle then Enqueue(s1, s.current) else s1)
  {
    NoDupAdd(s.queue, s.current);
  }

  lemma QueueDispatch(s: State)
    requires Ready(s)
    ensures QueueOk(Dispatch(s))
  {
    var r := Dispatch(s);
    if s.queue != [] {
      assert s.queue == [s.queue[0]] + s.queue[1..];
    }
    assert forall t :: t in r.queue <==> Waiting(r, t);
  }

  lemma QueueSchedule(s: State)
    requires QueueOk(s)
    ensures QueueOk(DoSchedule(s))
  {
    QueueReady(s);
    var k := s.tasks[s.current].(resched := false);
    var s1 := SetTask(s, s.current, k);
    QueueDispatch(if k.state == Runnable && s.current != s.idle then Enqueue(s1, s.current) else s1);
  }

  lemma QueueNew(s: State, t: Tid)
    requires QueueOk(s) && t !in s.tasks
    ensures QueueOk(SetTask(s, t, Task(Uninit, NotWait, 0, false, Elsewhere)))
  {
    var r := SetTask(s, t, Task(Uninit, NotWait, 0, false, Elsewhere));
    assert forall u :: Waiting(r, u) <==> Waiting(s, u);
  }

  lemma QueueReap(s: State, t: Tid)
    requires QueueOk(s) && t in s.tasks && s.tasks[t].state == Zombie && t != s.current && t != s.idle
    ensures QueueOk(s.(tasks := s.tasks - {t}))
  {
    var r := s.(tasks := s.tasks - {t});
    assert forall u :: Waiting(r, u) <==> Waiting(s, u);
  }

  /** Marking the wait record changes nothing the queue depends on. */
  lemma QueuePlace(s: State, t: Tid, p: Place)
    requires QueueOk(s) && t in s.tasks
    ensures QueueOk(SetTask(s, t, s.tasks[t].(place := p)))
  {
    var r := SetTask(s, t, s.tasks[t].(place := p));
    assert forall u :: Waiting(r, u) <==> Waiting(s, u);
  }

  lemma QueueRelease(s: State, x: SemId)
    requires Inv(s) && x in s.sems
    ensures QueueOk(DoRelease(s, x))
  {
    hide QueueOk;
    var m := s.sems[x];
    assert SemOk(s, x);
    var m0 := GivenBack(m, s.current);
    if m.waiters == [] {
      QueueSem(s, x, m0.(value := m0.value + 1), s.panicked);
    } else {
      var w := m.waiters[0];
      assert w in m.waiters && SleepsOn(s, w, x);
      var m' := HandedOn(m0);
      QueueSem(s, x, m', s.panicked);
      var s1 := SetSem(s, x, m');
      QueuePlace(s1, w, Granted(s.tasks[w]).place);
      QueueWake(SetTask(s1, w, Granted(s.tasks[w])), w);
    }
  }

  /** Every action keeps the run queue right. */
  lemma QueueKept(s: State, a: Action)
    requires Inv(s) && Enabled(s, a)
    ensures QueueOk(Next(s, a))
  {
    hide QueueOk;
    hide SemsOk;
    var t := s.current;
    var k := s.tasks[t];
    match a
    case Tick => QueueCurrent(s, DoTick(s).tasks[t]);
    case Preempt => QueueSchedule(s);
    case Schedule =>
      if k.place.InDown? {
        QueueCurrent(s, k.(place := k.place.(slept := true)));
        QueueSchedule(SetTask(s, t, k.(place := k.place.(slept := true))));
      } else {
        QueueSchedule(s);
      }
    case Acquire(x) =>
      if s.sems[x].value <= 0 {
        QueueCurrent(s, k.(state := Sleeping, wait := KSem, place := InDown(x, false, false)));
        QueueSem(SetTask(s, t, k.(state := Sleeping, wait := KSem, place := InDown(x, false, false))), x,
                 Next(s, a).sems[x], false);
      } else {
        QueueSem(s, x, Next(s, a).sems[x], false);
      }
    case Finish =>
      QueueCurrent(s, k.(place := Elsewhere));
      QueueSem(SetTask(s, t, k.(place := Elsewhere)), k.place.sem, Next(s, a).sems[k.place.sem], !k.place.granted);
    case Release(x) => QueueRelease(s, x);
    case Block => QueueCurrent(s, k.(state := Sleeping, wait := Other));
    case Wake(u) => QueueWake(s, u);
    case Fork(u) =>
      QueueNew(s, u);
      QueueWake(SetTask(s, u, Task(Uninit, NotWait, 0, false, Elsewhere)), u);
    case Exit => QueueCurrent(s, k.(state := Zombie));
    case Reap(u) => QueueReap(s, u);
    case InitSem(x, v) => QueueSem(s, x, Sem(v, v, [], multiset{}, 0, [], []), s.panicked);
  }

  // ---- semaphores ----

  /** No task began or stopped sleeping on a semaphore. */
  lemma SemsSame(s: State, r: State)
    requires SemsOk(s) && r.sems == s.sems && forall t, x :: SleepsOn(r, t, x) <==> SleepsOn(s, t, x)
    ensures SemsOk(r)
  {
    forall x | x in r.sems
      ensures SemOk(r, x)
    {
      assert SemOk(s, x);
    }
  }

  /** Semaphore x changed; on the others no task began or stopped sleeping. */
  lemma SemsBut(s: State, r: State, x: SemId)
    requires SemsOk(s) && x in r.sems && r.sems == s.sems[x := r.sems[x]] && SemOk(r, x)
    requires forall t, y :: y != x ==> (SleepsOn(r, t, y) <==> SleepsOn(s, t, y))
    ensures SemsOk(r)
  {
    forall y | y in r.sems
      ensures SemOk(r, y)
    {
      if y != x {
        assert SemOk(s, y);
      }
    }
  }

  lemma AcquireSems(s: State, x: SemId)
    requires Inv(s) && Enabled(s, Acquire(x))
    ensures SemsOk(DoAcquire(s, x))
  {
    hide QueueOk;
    hide PlacesOk;
    var r, m, t := DoAcquire(s, x), s.sems[x], s.current;
    assert SemOk(s, x) && !SleepsOn(s, t, x);
    if m.value <= 0 {
      NoDupAdd(m.waiters, t);
      assert forall u :: SleepsOn(r, u, x) <==> SleepsOn(s, u, x) || u == t;
      assert m.woken + (m.waiters + [t]) == m.arrived + [t];
    } else {
      assert forall u :: SleepsOn(r, u, x) <==> SleepsOn(s, u, x);
    }
    assert SemOk(r, x);
    SemsBut(s, r, x);
  }

  lemma {:induction false} RemovedAbsent(q: seq<Tid>, t: Tid)
    requires t !in q
    ensures Dropped(q, t) == q
  {
    if q != [] {
      RemovedAbsent(q[1..], t);
    }
  }

  lemma FinishSems(s: State)
    requires Inv(s) && Enabled(s, Finish) && s.tasks[s.current].place.granted
    ensures SemsOk(DoFinish(s))
  {
    hide QueueOk;
    var r, t, x := DoFinish(s), s.current, s.tasks[s.current].place.sem;
    assert SemOk(s, x) && !SleepsOn(s, t, x);
    RemovedAbsent(s.sems[x].waiters, t);
    assert r.sems == s.sems;
    forall u, y
      ensures SleepsOn(r, u, y) <==> SleepsOn(s, u, y)
    {
    }
    SemsSame(s, r);
  }

  lemma WakeSleeps(s: State, w: Tid, u: Tid, y: SemId)
    requires w in s.tasks
    ensures SleepsOn(DoWake(s, w), u, y) <==> SleepsOn(s, u, y)
    ensures DoWake(s, w).sems == s.sems
  {
  }

  lemma ReleaseSems(s: State, x: SemId)
    requires Inv(s) && Enabled(s, Release(x))
    ensures SemsOk(DoRelease(s, x))
  {
    hide QueueOk;
    hide PlacesOk;
    hide Waiting;
    var m := s.sems[x];
    assert SemOk(s, x);
    var m0 := GivenBack(m, s.current);
    assert |m0.holders| - m0.extra == |m.holders| - m.extra - 1;
    var r := DoRelease(s, x);
    if m.waiters == [] {
      assert forall u, y :: SleepsOn(r, u, y) <==> SleepsOn(s, u, y);
      assert SemOk(r, x);
    } else {
      var w := m.waiters[0];
      assert w in m.waiters && SleepsOn(s, w, x);
      var m' := HandedOn(m0);
      var s1 := SetTask(SetSem(s, x, m'), w, Granted(s.tasks[w]));
      forall u, y
        ensures SleepsOn(r, u, y) <==> SleepsOn(s, u, y) && u != w
      {
        WakeSleeps(s1, w, u, y);
      }
      WakeSleeps(s1, w, w, x);
      GrantedSem(s, r, x, m', w);
    }
    SemsBut(s, r, x);
  }

  /** The semaphore after its first waiter was handed it. */
  lemma GrantedSem(s: State, r: State, x: SemId, m': Sem, w: Tid)
    requires x in s.sems && SemOk(s, x) && s.sems[x].waiters != [] && w == s.sems[x].waiters[0] && x in r.sems
    requires r.sems[x] == m'
    requires m'.waiters == s.sems[x].waiters[1..] && m'.woken == s.sems[x].woken + [w]
    requires m'.arrived == s.sems[x].arrived
    requires m'.value == s.sems[x].value && m'.init == s.sems[x].init
    requires |m'.holders| - m'.extra == |s.sems[x].holders| - s.sems[x].extra
    requires forall u :: SleepsOn(r, u, x) <==> SleepsOn(s, u, x) && u != w
    ensures SemOk(r, x)
  {
    var m := s.sems[x];
    assert m.waiters == [w] + m'.waiters;
    assert m.woken + m.waiters == m'.woken + m'.waiters;
    assert forall i :: 0 <= i < |m'.waiters| ==> m'.waiters[i] == m.waiters[i + 1];
    assert w !in m'.waiters;
  }

  lemma ScheduleSleeps(s: State, u: Tid, y: SemId)
    requires s.current in s.tasks
    ensures SleepsOn(DoSchedule(s), u, y) <==> SleepsOn(s, u, y)
    ensures DoSchedule(s).sems == s.sems
  {
  }

  /** Every action keeps the semaphores right, except the return from down of a task that was not woken. */
  lemma SemsKept(s: State, a: Action)
    requires Inv(s) && Enabled(s, a)
    ensures SemsOk(Next(s, a)) || (a == Finish && Next(s, a).panicked)
  {
    hide QueueOk;
    hide SemsOk;
    hide PlacesOk;
    hide DoSchedule;
    hide DoWake;
    hide Waiting;
    var t := s.current;
    var k := s.tasks[t];
    assert PlaceFacts(s) by { PlaceFactsHold(s); }
    var r := Next(s, a);
    match a
    case Tick => SemsSame(s, r);
    case Preempt =>
      forall u, y { ScheduleSleeps(s, u, y); }
      ScheduleSleeps(s, t, 0);
      SemsSame(s, r);
    case Schedule =>
      var s1 := if k.place.InDown? then SetTask(s, t, k.(place := k.place.(slept := true))) else s;
      forall u, y
        ensures SleepsOn(r, u, y) <==> SleepsOn(s, u, y)
      {
        ScheduleSleeps(s1, u, y);
      }
      ScheduleSleeps(s1, t, 0);
      SemsSame(s, r);
    case Acquire(x) => AcquireSems(s, x);
    case Finish =>
      if k.place.granted {
        FinishSems(s);
      }
    case Release(x) => ReleaseSems(s, x);
    case Block => SemsSame(s, r);
    case Wake(w) =>
      forall u, y { WakeSleeps(s, w, u, y); }
      WakeSleeps(s, w, w, 0);
      SemsSame(s, r);
    case Fork(w) =>
      var s1 := SetTask(s, w, Task(Uninit, NotWait, 0, false, Elsewhere));
      forall u, y
        ensures SleepsOn(r, u, y) <==> SleepsOn(s, u, y)
      {
        WakeSleeps(s1, w, u, y);
      }
      WakeSleeps(s1, w, w, 0);
      SemsSame(s, r);
    case Exit => SemsSame(s, r);
    case Reap(w) => SemsSame(s, r);
    case InitSem(x, v) => InitSems(s, x, v);
  }

  ghost predicate PlaceFacts(s: State) {
    (forall t :: t in s.tasks && s.tasks[t].state == Zombie ==> s.tasks[t].place == Elsewhere) &&
    (forall t :: t in s.tasks && s.tasks[t].place.InDown? ==> s.tasks[t].place.sem in s.sems)
  }

  lemma PlaceFactsHold(s: State)
    requires Inv(s)
    ensures PlaceFacts(s)
  {
    hide QueueOk;
    hide SemsOk;
    forall t | t in s.tasks
      ensures PlaceOk(s, t)
    {
    }
  }

  lemma InitSems(s: State, x: SemId, v: nat)
    requires Inv(s) && x !in s.sems
    ensures SemsOk(SetSem(s, x, Sem(v, v, [], multiset{}, 0, [], [])))
  {
    hide QueueOk;
    var r := SetSem(s, x, Sem(v, v, [], multiset{}, 0, [], []));
    PlaceFactsHold(s);
    assert forall u, y :: SleepsOn(r, u, y) <==> SleepsOn(s, u, y);
    assert SemOk(r, x);
    SemsBut(s, r, x);
  }

  // ---- places ----

  ghost predicate SameStanding(k: Task, k': Task) {
    k'.state == k.state && k'.wait == k.wait && k'.place == k.place
  }

  /** The current task is one that schedule may pick. */
  ghost predicate Picked(r: State) {
    r.current == r.idle || (r.current in r.tasks && r.tasks[r.current].state == Runnable)
  }

  lemma PlacesSame(s: State, r: State)
    requires PlacesOk(s) && r.idle == s.idle && r.sems == s.sems && r.tasks.Keys == s.tasks.Keys
    requires forall t :: t in s.tasks ==> SameStanding(s.tasks[t], r.tasks[t])
    requires r.current == s.current || Picked(r)
    ensures PlacesOk(r)
  {
    forall t | t in r.tasks
      ensures PlaceOk(r, t)
    {
      assert PlaceOk(s, t);
    }
  }

  /** schedule changes no task's state, and what it picks is runnable or the idle task. */
  lemma SchedulePicks(s: State)
    requires QueueOk(s)
    ensures var r := DoSchedule(s);
      r.idle == s.idle && r.tasks.Keys == s.tasks.Keys &&
      (forall t :: t in s.tasks ==> SameStanding(s.tasks[t], r.tasks[t])) &&
      Picked(r)
  {
    var t := s.current;
    var k := s.tasks[t].(resched := false);
    var s1 := SetTask(s, t, k);
    var s2 := if k.state == Runnable && t != s.idle then Enqueue(s1, t) else s1;
    hide Dispatch;
    hide Ready;
    QueueReady(s);
    DispatchPicks(s2);
  }

  lemma DispatchPicks(s: State)
    requires Ready(s)
    ensures var r := Dispatch(s);
      r.idle == s.idle && r.tasks == s.tasks &&
      Picked(r)
  {
    if s.queue != [] {
      assert s.queue[0] in s.queue;
    }
  }

  lemma PreemptPlaces(s: State)
    requires Inv(s)
    ensures PlacesOk(DoSchedule(s))
  {
    hide DoSchedule;
    hide SemsOk;
    SchedulePicks(s);
    ScheduleSleeps(s, 0, 0);
    hide QueueOk;
    PlacesSame(s, DoSchedule(s));
  }

  /** A task other than idle that calls schedule in down is not current any more until up has woken it. */
  lemma OwnPlaces(s: State)
    requires Inv(s) && Enabled(s, Schedule) && s.tasks[s.current].place.InDown?
    ensures var k := s.tasks[s.current];
      PlacesOk(DoSchedule(SetTask(s, s.current, k.(place := k.place.(slept := true)))))
  {
    hide DoSchedule;
    hide SemsOk;
    var t := s.current;
    var k := s.tasks[t];
    var s1 := SetTask(s, t, k.(place := k.place.(slept := true)));
    QueueCurrent(s, s1.tasks[t]);
    SchedulePicks(s1);
    ScheduleSleeps(s1, 0, 0);
    hide QueueOk;
    var r := DoSchedule(s1);
    forall u | u in r.tasks
      ensures PlaceOk(r, u)
    {
      assert PlaceOk(s, u);
    }
  }

  lemma AcquirePlaces(s: State, x: SemId)
    requires Inv(s) && Enabled(s, Acquire(x))
    ensures PlacesOk(DoAcquire(s, x))
  {
    hide QueueOk;
    hide SemsOk;
    var r := DoAcquire(s, x);
    forall u | u in r.tasks
      ensures PlaceOk(r, u)
    {
      assert PlaceOk(s, u);
    }
  }

  lemma FinishPlaces(s: State)
    requires Inv(s) && Enabled(s, Finish) && s.tasks[s.current].place.granted
    ensures PlacesOk(DoFinish(s))
  {
    hide QueueOk;
    hide SemsOk;
    hide Dropped;
    var r := DoFinish(s);
    forall u | u in r.tasks
      ensures PlaceOk(r, u)
    {
      assert PlaceOk(s, u) && PlaceOk(s, s.current);
    }
  }

  lemma WakePlaces(s: State, w: Tid)
    requires PlacesOk(s) && w in s.tasks && s.tasks[w].place == Elsewhere && s.tasks[w].state != Zombie
    ensures PlacesOk(DoWake(s, w))
  {
    var r := DoWake(s, w);
    forall u | u in r.tasks
      ensures PlaceOk(r, u)
    {
      assert PlaceOk(s, u);
    }
  }

  lemma WakeTasks(s: State, w: Tid)
    requires w in s.tasks && s.tasks[w].state != Runnable
    ensures var r := DoWake(s, w);
      r.tasks.Keys == s.tasks.Keys && r.current == s.current && r.idle == s.idle && r.sems == s.sems &&
      (forall u :: u in s.tasks && u != w ==> r.tasks[u] == s.tasks[u]) &&
      r.tasks[w].state == Runnable && r.tasks[w].place == s.tasks[w].place
  {
  }

  /** What up changes: the semaphore, and the task it wakes. */
  lemma ReleaseTasks(s: State, x: SemId)
    requires Inv(s) && x in s.sems
    ensures var r := DoRelease(s, x);
      r.tasks.Keys == s.tasks.Keys && r.current == s.current && r.idle == s.idle && x in r.sems &&
      r.sems == s.sems[x := r.sems[x]]
    ensures s.sems[x].waiters == [] ==> DoRelease(s, x).tasks == s.tasks
    ensures s.sems[x].waiters != [] ==> WokenFirst(s, DoRelease(s, x), x)
  {
    hide DoWake;
    hide QueueOk;
    var m := s.sems[x];
    assert SemOk(s, x);
    if m.waiters != [] {
      var w := m.waiters[0];
      assert w in m.waiters && SleepsOn(s, w, x) && PlaceOk(s, w);
      WakeTasks(SetTask(SetSem(s, x, HandedOn(GivenBack(m, s.current))), w, Granted(s.tasks[w])), w);
    }
  }

  /** The first waiter is runnable and its wait record marked; other tasks are as they were. */
  ghost predicate WokenFirst(s: State, r: State, x: SemId)
    requires x in s.sems && s.sems[x].waiters != []
  {
    var w := s.sems[x].waiters[0];
    w in s.tasks && w in r.tasks && SleepsOn(s, w, x) && r.tasks[w].state == Runnable &&
    r.tasks[w].place == Granted(s.tasks[w]).place &&
    forall u :: u in s.tasks && u != w ==> u in r.tasks && r.tasks[u] == s.tasks[u]
  }

  lemma ReleaseHolders(s: State, x: SemId)
    requires x in s.sems
    ensures var m, r := s.sems[x], DoRelease(s, x);
      x in r.sems && (forall u :: u in m.holders && u != s.current ==> u in r.sems[x].holders) &&
      (m.waiters != [] ==> m.waiters[0] in r.sems[x].holders)
  {
    hide DoWake;
    hide GivenBack;
    var m := s.sems[x];
    HoldersKept(m, s.current);
    if m.waiters != [] && m.waiters[0] in s.tasks {
      var w := m.waiters[0];
      WakeSleeps(SetTask(SetSem(s, x, HandedOn(GivenBack(m, s.current))), w, Granted(s.tasks[w])), w, w, x);
    }
  }

  lemma HoldersKept(m: Sem, t: Tid)
    ensures GivenBack(m, t).waiters == m.waiters
    ensures forall u :: u in m.holders && u != t ==> u in GivenBack(m, t).holders
  {
  }

  lemma ReleasePlaces(s: State, x: SemId)
    requires Inv(s) && Enabled(s, Release(x))
    ensures PlacesOk(DoRelease(s, x))
  {
    hide DoRelease;
    hide QueueOk;
    hide SemsOk;
    ReleaseTasks(s, x);
    ReleaseHolders(s, x);
    UpPlaces(s, DoRelease(s, x), x);
  }

  /** up takes the current task out of the holders of x and changes no other task than one it grants x. */
  lemma UpPlaces(s: State, r: State, x: SemId)
    requires PlacesOk(s) && x in s.sems && r.current == s.current && r.idle == s.idle && r.tasks.Keys == s.tasks.Keys
    requires x in r.sems && r.sems == s.sems[x := r.sems[x]] && s.current in s.tasks
    requires s.tasks[s.current].place == Elsewhere
    requires forall u :: u in s.sems[x].holders && u != s.current ==> u in r.sems[x].holders
    requires forall u :: u in s.tasks && r.tasks[u] != s.tasks[u] ==> GrantedNow(r, u, x)
    ensures PlacesOk(r)
  {
    forall u | u in r.tasks
      ensures PlaceOk(r, u)
    {
      assert PlaceOk(s, u);
    }
  }

  ghost predicate GrantedNow(r: State, u: Tid, x: SemId) {
    u in r.tasks && x in r.sems && r.tasks[u].place.InDown? && r.tasks[u].place.sem == x && r.tasks[u].place.granted &&
    r.tasks[u].state == Runnable && u in r.sems[x].holders
  }

  /** Every action keeps the tasks' places right, with the same exception. */
  lemma PlacesKept(s: State, a: Action)
    requires Inv(s) && Enabled(s, a)
    ensures PlacesOk(Next(s, a)) || (a == Finish && Next(s, a).panicked)
  {
    hide QueueOk;
    hide SemsOk;
    hide DoSchedule;
    hide DoWake;
    var t := s.current;
    var k := s.tasks[t];
    var r := Next(s, a);
    match a
    case Tick => PlacesSame(s, r);
    case Preempt => PreemptPlaces(s);
    case Schedule =>
      if k.place.InDown? {
        OwnPlaces(s);
      } else {
        PreemptPlaces(s);
      }
    case Acquire(x) => AcquirePlaces(s, x);
    case Finish =>
      if k.place.granted {
        FinishPlaces(s);
      }
    case Release(x) => ReleasePlaces(s, x);
    case Block => OnePlace(s, r, t);
    case Wake(w) =>
      assert PlaceOk(s, w);
      WakePlaces(s, w);
    case Fork(w) =>
      var s1 := SetTask(s, w, Task(Uninit, NotWait, 0, false, Elsewhere));
      OnePlace(s, s1, w);
      WakePlaces(s1, w);
    case Exit => OnePlace(s, r, t);
    case Reap(w) => PlacesReap(s, w);
    case InitSem(x, v) => InitPlaces(s, x, v);
  }

  lemma OnePlace(s: State, r: State, t: Tid)
    requires PlacesOk(s) && r.idle == s.idle && r.current == s.current && r.sems == s.sems && t in r.tasks
    requires r.tasks == s.tasks[t := r.tasks[t]]
    requires r.tasks[t].place == Elsewhere && (r.tasks[t].state == Sleeping ==> r.tasks[t].wait == Other && t != r.idle)
    requires t == r.idle ==> r.tasks[t].state != Zombie
    ensures PlacesOk(r)
  {
    forall u | u in r.tasks
      ensures PlaceOk(r, u)
    {
      if u != t {
        assert PlaceOk(s, u);
      }
    }
  }

  lemma PlacesReap(s: State, w: Tid)
    requires PlacesOk(s) && w in s.tasks && s.tasks[w].state == Zombie
    ensures PlacesOk(s.(tasks := s.tasks - {w}))
  {
    var r := s.(tasks := s.tasks - {w});
    forall u | u in r.tasks
      ensures PlaceOk(r, u)
    {
      assert PlaceOk(s, u);
    }
  }

  lemma InitPlaces(s: State, x: SemId, v: nat)
    requires PlacesOk(s) && x !in s.sems
    ensures PlacesOk(SetSem(s, x, Sem(v, v, [], multiset{}, 0, [], [])))
  {
    var r := SetSem(s, x, Sem(v, v, [], multiset{}, 0, [], []));
    forall u | u in r.tasks
      ensures PlaceOk(r, u)
    {
      assert PlaceOk(s, u);
    }
  }
}
