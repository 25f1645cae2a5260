/** What holds in every run of the scheduler and the semaphores. */
module SchedulingRuns {
  import opened TaskStates
  import opened Scheduling

  /** The actions can be taken one after the other. */
  ghost predicate Legal(s: State, acts: seq<Action>)
    decreases |acts|
  {
    acts == [] || (Enabled(s, acts[0]) && Legal(Next(s, acts[0]), acts[1..]))
  }

  ghost function After(s: State, acts: seq<Action>): State
    requires Legal(s, acts)
    decreases |acts|
  {
    if acts == [] then s else After(Next(s, acts[0]), acts[1..])
  }

  /** The start: only the idle task, no semaphores. */
  predicate Boot(s: State) {
    s.tasks == map[s.idle := Task(Runnable, NotWait, 0, true, Elsewhere)] && s.current == s.idle &&
    s.queue == [] && s.taskNum == 0 && s.sems == map[] && !s.panicked
  }

  lemma BootInv(s: State)
    requires Boot(s)
    ensures Inv(s)
  {
  }

  lemma Kept(s: State, a: Action)
    requires Inv(s) && Enabled(s, a)
    ensures Inv(Next(s, a)) || Next(s, a).panicked
  {
    QueueKept(s, a);
    SemsKept(s, a);
    PlacesKept(s, a);
  }

  /** The invariant holds after every run that did not end in the panic of acquireSem. */
  lemma {:induction false} RunInv(s: State, acts: seq<Action>)
    requires Inv(s) && Legal(s, acts)
    ensures Inv(After(s, acts)) || After(s, acts).panicked
    decreases |acts|
  {
    hide Inv;
    if acts != [] {
      Kept(s, acts[0]);
      if Next(s, acts[0]).panicked {
        assert acts[1..] == [];
      } else {
        RunInv(Next(s, acts[0]), acts[1..]);
      }
    }
  }

  /** In every reachable state: no semaphore value is negative, a positive one means nobody waits, holders and value add
      up to the initial value and the releases by tasks that did not hold the semaphore, so without such releases one of
      initial value 1 has at most one holder, and tasks were woken in the order in which they began to wait. */
  lemma SemaphoreSafety(s: State, acts: seq<Action>, x: SemId)
    requires Boot(s) && Legal(s, acts) && !After(s, acts).panicked && x in After(s, acts).sems
    ensures var m := After(s, acts).sems[x];
      m.value >= 0 && (m.value > 0 ==> m.waiters == []) && |m.holders| + m.value == m.init + m.extra &&
      m.woken <= m.arrived
    ensures var m := After(s, acts).sems[x];
      m.init == 1 && m.extra == 0 ==> forall t, u :: t in m.holders && u in m.holders ==> t == u
  {
    BootInv(s);
    RunInv(s, acts);
    var r := After(s, acts);
    assert SemOk(r, x);
    var m := r.sems[x];
    if m.init == 1 && m.extra == 0 {
      forall t, u | t in m.holders && u in m.holders
        ensures t == u
      {
        OneHolder(m.holders, t, u);
      }
    }
  }

  /** Every release in the run is by a task that holds the semaphore, as lock and unlock pairs make it. */
  ghost predicate Paired(s: State, acts: seq<Action>)
    requires Legal(s, acts)
    decreases |acts|
  {
    acts == [] ||
    ((acts[0].Release? ==> s.current in s.sems[acts[0].sem].holders) && Paired(Next(s, acts[0]), acts[1..]))
  }

  /** No semaphore was released by a task that did not hold it. */
  ghost predicate NoExtra(s: State) {
    forall x :: x in s.sems ==> s.sems[x].extra == 0
  }

  lemma NoExtraStep(s: State, a: Action)
    requires Enabled(s, a) && NoExtra(s) && (a.Release? ==> s.current in s.sems[a.sem].holders)
    ensures NoExtra(Next(s, a))
  {
  }

  /** In runs in which tasks release only what they hold, no release is extra. */
  lemma {:induction false} PairedExclusion(s: State, acts: seq<Action>)
    requires NoExtra(s) && Legal(s, acts) && Paired(s, acts)
    ensures NoExtra(After(s, acts))
    decreases |acts|
  {
    if acts != [] {
      NoExtraStep(s, acts[0]);
      PairedExclusion(Next(s, acts[0]), acts[1..]);
    }
  }

  /** A semaphore of initial value 1 is held by at most one task in every state reached with paired releases. */
  lemma MutualExclusion(s: State, acts: seq<Action>, x: SemId, t: Tid, u: Tid)
    requires Boot(s) && Legal(s, acts) && Paired(s, acts) && !After(s, acts).panicked
    requires x in After(s, acts).sems && After(s, acts).sems[x].init == 1
    requires t in After(s, acts).sems[x].holders && u in After(s, acts).sems[x].holders
    ensures t == u
  {
    PairedExclusion(s, acts);
    SemaphoreSafety(s, acts, x);
  }

  lemma OneHolder(h: multiset<Tid>, t: Tid, u: Tid)
    requires |h| <= 1 && t in h && u in h
    ensures t == u
  {
    var rest := h - multiset{t};
    assert |rest| == |h| - 1;
    assert t != u ==> rest[u] > 0;
  }

  /** In every reachable state a task is queued, and then once, exactly when it is runnable and neither current nor
      idle. */
  lemma QueueSafety(s: State, acts: seq<Action>, t: Tid)
    requires Boot(s) && Legal(s, acts) && !After(s, acts).panicked
    ensures var r := After(s, acts);
      (t in r.queue <==> Waiting(r, t)) && r.taskNum == |r.queue| &&
      forall i, j :: 0 <= i < j < |r.queue| ==> r.queue[i] != r.queue[j]
  {
    BootInv(s);
    RunInv(s, acts);
  }

  /** A task that sleeps in down goes on sleeping unless up on its semaphore wakes it as the first in line, or it is the
      idle task, which schedule may pick although it sleeps. */
  lemma WokenByUp(s: State, a: Action, t: Tid, x: SemId)
    requires Inv(s) && Enabled(s, a) && SleepsOn(s, t, x)
    ensures SleepsOn(Next(s, a), t, x)
      || (a == Release(x) && s.sems[x].waiters != [] && s.sems[x].waiters[0] == t)
      || (a == Finish && t == s.current == s.idle)
  {
    assert PlaceOk(s, t) && PlaceOk(s, s.current);
    hide DoWake;
    hide DoSchedule;
    hide DoRelease;
    hide QueueOk;
    hide SemsOk;
    match a
    case Preempt => ScheduleSleeps(s, t, x);
    case Schedule =>
      var k := s.tasks[s.current];
      ScheduleSleeps(if k.place.InDown? then SetTask(s, s.current, k.(place := k.place.(slept := true))) else s, t, x);
    case Release(y) =>
      ReleaseTasks(s, y);
    case Wake(u) => WakeSleeps(s, u, t, x);
    case Fork(u) => WakeSleeps(SetTask(s, u, Task(Uninit, NotWait, 0, false, Elsewhere)), u, t, x);
    case _ =>
  }

  // ---- the panic of acquireSem ----

  /** The idle task calls acquireSem on a semaphore that is not free. */
  predicate IdleWaits(s: State, a: Action) {
    a.Acquire? && s.current == s.idle && a.sem in s.sems && s.sems[a.sem].value <= 0
  }

  /** The idle task never waits for a semaphore. */
  ghost predicate Calm(s: State, acts: seq<Action>)
    requires Legal(s, acts)
    decreases |acts|
  {
    acts == [] || (!IdleWaits(s, acts[0]) && Calm(Next(s, acts[0]), acts[1..]))
  }

  predicate IdleAwake(s: State) {
    s.idle in s.tasks && s.tasks[s.idle].place == Elsewhere
  }

  lemma IdleStays(s: State, a: Action)
    requires Inv(s) && Enabled(s, a) && IdleAwake(s) && !IdleWaits(s, a)
    ensures IdleAwake(Next(s, a)) && !Next(s, a).panicked
  {
    assert PlaceOk(s, s.current) && PlaceOk(s, s.idle);
    if a.Release? && s.sems[a.sem].waiters != [] {
      assert SemOk(s, a.sem) && s.sems[a.sem].waiters[0] in s.sems[a.sem].waiters;
      assert SleepsOn(s, s.sems[a.sem].waiters[0], a.sem);
    }
  }

  /** While the idle task never waits for a semaphore, acquireSem does not panic. */
  lemma {:induction false} NoPanic(s: State, acts: seq<Action>)
    requires Inv(s) && IdleAwake(s) && !s.panicked && Legal(s, acts) && Calm(s, acts)
    ensures !After(s, acts).panicked
    decreases |acts|
  {
    hide Inv;
    if acts != [] {
      IdleStays(s, acts[0]);
      Kept(s, acts[0]);
      NoPanic(Next(s, acts[0]), acts[1..]);
    }
  }

  /** How much a task still has to do before it is out of the way. */
  function Weight(k: Task): nat {
    if k.state != Runnable then 1
    else match k.place
      case Elsewhere => 2
      case InDown(_, slept, _) => if slept then 3 else 4
  }

  ghost function QueueWeight(tasks: map<Tid, Task>, q: seq<Tid>): nat {
    if q == [] then 0 else (if q[0] in tasks then Weight(tasks[q[0]]) else 0) + QueueWeight(tasks, q[1..])
  }

  ghost predicate IdleAsleep(s: State) {
    s.idle in s.tasks && s.tasks[s.idle].place.InDown? && !s.tasks[s.idle].place.granted
  }

  ghost function Work(s: State): nat
    requires s.current in s.tasks && IdleAsleep(s)
  {
    QueueWeight(s.tasks, s.queue) + (if s.current == s.idle then 0 else Weight(s.tasks[s.current])) +
    (if s.tasks[s.idle].place.slept then 0 else 1)
  }

  lemma {:induction false} QueueWeightSame(tasks: map<Tid, Task>, tasks': map<Tid, Task>, q: seq<Tid>)
    requires forall t :: t in q ==> t in tasks && t in tasks' && Weight(tasks'[t]) == Weight(tasks[t])
    ensures QueueWeight(tasks', q) == QueueWeight(tasks, q)
  {
    if q != [] {
      assert q[0] in q;
      QueueWeightSame(tasks, tasks', q[1..]);
    }
  }

  lemma {:induction false} QueueWeightAdd(tasks: map<Tid, Task>, q: seq<Tid>, t: Tid)
    requires t in tasks
    ensures QueueWeight(tasks, q + [t]) == QueueWeight(tasks, q) + Weight(tasks[t])
  {
    if q == [] {
      assert [t][1..] == [];
    } else {
      assert (q + [t])[1..] == q[1..] + [t];
      QueueWeightAdd(tasks, q[1..], t);
    }
  }

  /** schedule passes the processor on; a current task that is not runnable falls out. */
  lemma ScheduleWork(s: State)
    requires QueueOk(s) && IdleAsleep(s)
    ensures IdleAsleep(DoSchedule(s)) && DoSchedule(s).current in DoSchedule(s).tasks
    ensures !DoSchedule(s).panicked == !s.panicked
    ensures DoSchedule(s).tasks[s.idle].place == s.tasks[s.idle].place
    ensures Work(DoSchedule(s)) ==
      Work(s) - if s.current != s.idle && s.tasks[s.current].state != Runnable then 1 else 0
  {
    var t := s.current;
    var k := s.tasks[t].(resched := false);
    var s1 := SetTask(s, t, k);
    var s2 := if k.state == Runnable && t != s.idle then Enqueue(s1, t) else s1;
    QueueReady(s);
    QueueWeightSame(s.tasks, s2.tasks, s.queue);
    if k.state == Runnable && t != s.idle {
      QueueWeightAdd(s2.tasks, s.queue, t);
    }
    if s2.queue != [] {
      assert s2.queue[0] in s2.queue;
    }
  }

  /** Changing the current task changes the work by what it changes for that task. */
  lemma CurrentWork(s: State, r: State)
    requires QueueOk(s) && IdleAsleep(s) && s.current != s.idle
    requires r.current == s.current && r.idle == s.idle && r.queue == s.queue && s.current in r.tasks
    requires r.tasks == s.tasks[s.current := r.tasks[s.current]]
    ensures IdleAsleep(r) && Work(r) == Work(s) - Weight(s.tasks[s.current]) + Weight(r.tasks[s.current])
  {
    QueueWeightSame(s.tasks, r.tasks, s.queue);
  }

  lemma IdleWork(s: State)
    requires QueueOk(s) && IdleAsleep(s) && s.current == s.idle && !s.tasks[s.idle].place.slept
    ensures var k := s.tasks[s.idle];
      var r := SetTask(s, s.idle, k.(place := k.place.(slept := true)));
      IdleAsleep(r) && Work(r) == Work(s) - 1
  {
    var k := s.tasks[s.idle];
    QueueWeightSame(s.tasks, s.tasks[s.idle := k.(place := k.place.(slept := true))], s.queue);
  }

  /** The step that brings the panic closer: tasks that can run finish and go to sleep, one after the other. */
  function Push(s: State): Action
    requires s.current in s.tasks
  {
    var k := s.tasks[s.current];
    if k.place.InDown? && k.place.slept then Finish
    else if s.current != s.idle && k.state == Runnable && k.place == Elsewhere then Block
    else Schedule
  }

  lemma PushWorks(s: State)
    requires Inv(s) && IdleAsleep(s) && !s.panicked
    ensures Enabled(s, Push(s))
    ensures var r := Next(s, Push(s));
      r.panicked || (Inv(r) && IdleAsleep(r) && Work(r) < Work(s))
  {
    var t := s.current;
    var k := s.tasks[t];
    assert PlaceOk(s, t) && PlaceOk(s, s.idle);
    Kept(s, Push(s));
    var r := Next(s, Push(s));
    hide SemsOk;
    hide PlacesOk;
    if k.place.InDown? && k.place.slept {
      if k.place.granted {
        CurrentWork(s, r);
      }
    } else if t != s.idle && k.state == Runnable && k.place == Elsewhere {
      CurrentWork(s, r);
    } else if k.place.InDown? {
      PushSchedule(s);
    } else {
      ScheduleWork(s);
    }
  }

  lemma PushSchedule(s: State)
    requires Inv(s) && IdleAsleep(s) && !s.panicked && s.tasks[s.current].place.InDown?
    requires !s.tasks[s.current].place.slept
    ensures var r := Next(s, Schedule);
      IdleAsleep(r) && r.current in r.tasks && Work(r) < Work(s)
  {
    var t := s.current;
    var k := s.tasks[t];
    assert PlaceOk(s, t);
    var s1 := SetTask(s, t, k.(place := k.place.(slept := true)));
    QueueCurrent(s, s1.tasks[t]);
    hide SemsOk;
    hide PlacesOk;
    if t == s.idle {
      IdleWork(s);
    } else {
      CurrentWork(s, s1);
    }
    ScheduleWork(s1);
  }

  /** Once the idle task waits for a semaphore, the panic can be reached from every state. */
  lemma {:induction false} Drain(s: State) returns (acts: seq<Action>)
    requires Inv(s) && IdleAsleep(s) && !s.panicked
    ensures Legal(s, acts) && After(s, acts).panicked && forall a :: a in acts ==> !a.Release?
    decreases Work(s)
  {
    PushWorks(s);
    var a := Push(s);
    var r := Next(s, a);
    var rest := [];
    if !r.panicked {
      rest := Drain(r);
    }
    acts := [a] + rest;
    assert acts[1..] == rest;
  }

  /** Calling acquireSem can lead to the panic when the idle task calls it on a semaphore that is not free. */
  lemma PanicReachable(s: State, x: SemId) returns (acts: seq<Action>)
    requires Inv(s) && Enabled(s, Acquire(x)) && IdleWaits(s, Acquire(x))
    ensures Legal(s, acts) && acts != [] && acts[0] == Acquire(x) && After(s, acts).panicked
    ensures forall a :: a in acts ==> !a.Release?
  {
    var r := Next(s, Acquire(x));
    Kept(s, Acquire(x));
    var rest := Drain(r);
    acts := [Acquire(x)] + rest;
    assert acts[1..] == rest;
  }

  /** Two runs, one after the other. */
  lemma {:induction false} RunOn(s: State, xs: seq<Action>, ys: seq<Action>)
    requires Legal(s, xs) && Legal(After(s, xs), ys)
    ensures Legal(s, xs + ys) && After(s, xs + ys) == After(After(s, xs), ys)
    decreases |xs|
  {
    if xs == [] {
      assert xs + ys == ys;
    } else {
      assert (xs + ys)[1..] == xs[1..] + ys;
      RunOn(Next(s, xs[0]), xs[1..], ys);
    }
  }

  lemma TwoSteps(s: State, a: Action, b: Action)
    requires Enabled(s, a) && Enabled(Next(s, a), b)
    ensures Legal(s, [a, b]) && After(s, [a, b]) == Next(Next(s, a), b)
  {
    assert [a, b][1..] == [b];
    OneStep(Next(s, a), b);
  }

  /** A system in which task t alone runs, besides the idle task, and semaphore 0 has the given value and holders. */
  ghost predicate Alone(s: State, t: Tid, value: int, holders: multiset<Tid>) {
    s.idle != t && s.tasks.Keys == {s.idle, t} && s.sems.Keys == {0} && s.sems[0].value == value &&
    s.sems[0].holders == holders && s.queue == [] && s.taskNum == 0 && !s.panicked &&
    s.tasks[s.idle].state == Runnable && s.tasks[s.idle].place == Elsewhere && s.tasks[t].place == Elsewhere
  }

  lemma LockMade(s: State, t: Tid)
    requires Boot(s) && t != s.idle
    ensures Legal(s, [InitSem(0, 1), Fork(t)])
    ensures var r := After(s, [InitSem(0, 1), Fork(t)]);
      Enabled(r, Schedule) && Alone(Next(r, Schedule), t, 1, multiset{}) && Next(r, Schedule).current == t &&
      t in Next(r, Schedule).tasks && Next(r, Schedule).tasks[t].state == Runnable
  {
    assert Next(s, InitSem(0, 1)).tasks == s.tasks;
    TwoSteps(s, InitSem(0, 1), Fork(t));
  }

  lemma LockTaken(s: State, t: Tid)
    requires s.current == t && Alone(s, t, 1, multiset{}) && t in s.tasks && s.tasks[t].state == Runnable
    ensures Legal(s, [Acquire(0), Block])
    ensures var r := After(s, [Acquire(0), Block]);
      Enabled(r, Schedule) && Next(r, Schedule).current == Next(r, Schedule).idle &&
      Alone(Next(r, Schedule), t, 0, multiset{t})
  {
    TwoSteps(s, Acquire(0), Block);
  }

  /** A run from the start to the panic: a task takes a lock and goes to sleep with it, and the idle task wants it.
      Nothing is released in it. */
  lemma PanicFromBoot(s: State) returns (acts: seq<Action>)
    requires Boot(s)
    ensures Legal(s, acts) && After(s, acts).panicked
    ensures acts != [] && acts[0] == InitSem(0, 1) && forall a :: a in acts ==> !a.Release?
  {
    hide Inv;
    hide Next;
    hide Alone;
    var t := s.idle + 1;
    LockMade(s, t);
    var xs := [InitSem(0, 1), Fork(t)];
    var s3 := Next(After(s, xs), Schedule);
    LockTaken(s3, t);
    var ys := [Acquire(0), Block];
    var s6 := Next(After(s3, ys), Schedule);
    OneStep(After(s, xs), Schedule);
    OneStep(After(s3, ys), Schedule);
    RunOn(s, xs, [Schedule]);
    RunOn(s, xs + [Schedule], ys);
    RunOn(s, xs + [Schedule] + ys, [Schedule]);
    var zs := xs + [Schedule] + ys + [Schedule];
    BootInv(s);
    RunInv(s, zs);
    IdleWants(s6, t);
    var rest := PanicReachable(s6, 0);
    RunOn(s, zs, rest);
    acts := zs + rest;
  }

  lemma OneStep(s: State, a: Action)
    requires Enabled(s, a)
    ensures Legal(s, [a]) && After(s, [a]) == Next(s, a)
  {
    assert [a][1..] == [];
  }

  lemma IdleWants(s: State, t: Tid)
    requires Alone(s, t, 0, multiset{t}) && s.current == s.idle
    ensures !s.panicked && Enabled(s, Acquire(0)) && IdleWaits(s, Acquire(0))
  {
  }

  // ---- round robin ----

  predicate IsSchedule(a: Action) {
    a == Schedule || a == Preempt
  }

  function Schedules(acts: seq<Action>): nat {
    if acts == [] then 0 else (if IsSchedule(acts[0]) then 1 else 0) + Schedules(acts[1..])
  }

  /** Actions other than calls of schedule only append to the queue. */
  lemma QueueGrows(s: State, a: Action)
    requires Enabled(s, a) && !IsSchedule(a)
    ensures s.queue <= Next(s, a).queue
  {
  }

  lemma ScheduleShifts(s: State)
    requires s.current in s.tasks && s.queue != []
    ensures DoSchedule(s).current == s.queue[0] && s.queue[1..] <= DoSchedule(s).queue
  {
  }

  lemma ScheduleTakesHead(s: State, a: Action)
    requires Enabled(s, a) && IsSchedule(a) && s.queue != []
    ensures Next(s, a).current == s.queue[0] && s.queue[1..] <= Next(s, a).queue
  {
    var k := s.tasks[s.current];
    ScheduleShifts(s);
    if k.place.InDown? {
      ScheduleShifts(SetTask(s, s.current, k.(place := k.place.(slept := true))));
    }
  }

  /** The task at position k of the queue is the one that the (k + 1)-th call of schedule picks, whatever happens
      between the calls. */
  lemma {:induction false} RoundRobin(s: State, acts: seq<Action>, k: nat)
    requires k < |s.queue| && Legal(s, acts)
    requires acts != [] && IsSchedule(acts[|acts| - 1]) && Schedules(acts) == k + 1
    ensures After(s, acts).current == s.queue[k]
    decreases |acts|
  {
    var r, rest := Next(s, acts[0]), acts[1..];
    if !IsSchedule(acts[0]) {
      QueueGrows(s, acts[0]);
      assert rest[|rest| - 1] == acts[|acts| - 1];
      RoundRobin(r, rest, k);
    } else {
      ScheduleTakesHead(s, acts[0]);
      if k == 0 {
        NoSchedules(rest);
      } else {
        assert rest[|rest| - 1] == acts[|acts| - 1];
        assert r.queue[k - 1] == s.queue[1..][k - 1];
        RoundRobin(r, rest, k - 1);
      }
    }
  }

  // ---- a bound on waiting ----

  /** The timer interrupt is one section: a tick that uses up the time slice is followed by the call of schedule. */
  ghost predicate Prompt(s: State, acts: seq<Action>)
    requires Legal(s, acts)
    decreases |acts|
  {
    acts == [] ||
    ((acts[0] == Tick && s.tasks[s.current].slice <= 1 ==> |acts| > 1 && acts[1] == Preempt) &&
     Prompt(Next(s, acts[0]), acts[1..]))
  }

  function Ticks(acts: seq<Action>): nat {
    if acts == [] then 0 else (if acts[0] == Tick then 1 else 0) + Ticks(acts[1..])
  }

  /** Task t is the current one at some time in the run. */
  ghost predicate Runs(s: State, acts: seq<Action>, t: Tid)
    requires Legal(s, acts)
    decreases |acts|
  {
    s.current == t || (acts != [] && Runs(Next(s, acts[0]), acts[1..], t))
  }

  /** No task has more than a whole time slice. */
  ghost predicate SlicesOk(s: State) {
    forall t :: t in s.tasks ==> s.tasks[t].slice <= MAX_TIME_SLICES
  }

  lemma SlicesKept(s: State, a: Action)
    requires Enabled(s, a) && SlicesOk(s)
    ensures SlicesOk(Next(s, a))
  {
  }

  lemma {:induction false} SlicesAlways(s: State, acts: seq<Action>)
    requires Legal(s, acts) && SlicesOk(s)
    ensures SlicesOk(After(s, acts))
    decreases |acts|
  {
    if acts != [] {
      SlicesKept(s, acts[0]);
      SlicesAlways(Next(s, acts[0]), acts[1..]);
    }
  }

  /** A time slice is one tick, so every tick asks for schedule. */
  lemma TickTakes(s: State)
    requires Enabled(s, Tick) && SlicesOk(s)
    ensures var s1 := Next(s, Tick);
      s1.queue == s.queue && s1.current == s.current && s1.current in s1.tasks && s1.tasks[s1.current].resched &&
      s.tasks[s.current].slice <= 1 && s1.tasks[s1.current].slice == 0
  {
  }

  /** The ticks of a run bound the wait: the task at position k of the queue runs within k + 1 ticks, whatever else
      happens. */
  lemma {:induction false} RunsInTurn(s: State, acts: seq<Action>, k: nat)
    requires SlicesOk(s) && Legal(s, acts) && Prompt(s, acts) && k < |s.queue| && Ticks(acts) >= k + 1
    ensures Runs(s, acts, s.queue[k])
    decreases |acts|
  {
    var a, r, rest := acts[0], Next(s, acts[0]), acts[1..];
    SlicesKept(s, a);
    hide SlicesOk;
    if IsSchedule(a) {
      ScheduleTakesHead(s, a);
      if k > 0 {
        assert r.queue[k - 1] == s.queue[1..][k - 1];
        RunsInTurn(r, rest, k - 1);
      }
    } else if a == Tick {
      TickTakes(s);
      assert rest[0] == Preempt;
      var r2 := Next(r, Preempt);
      ScheduleTakesHead(r, Preempt);
      SlicesKept(r, Preempt);
      if k > 0 {
        assert r2.queue[k - 1] == r.queue[1..][k - 1];
        RunsInTurn(r2, rest[1..], k - 1);
      }
      assert Runs(r, rest, s.queue[k]);
    } else {
      QueueGrows(s, a);
      RunsInTurn(r, rest, k);
    }
  }

  /** The same from the start of the system on. */
  lemma RunsWithin(s: State, acts: seq<Action>, more: seq<Action>, k: nat)
    requires Boot(s) && Legal(s, acts) && Legal(After(s, acts), more) && Prompt(After(s, acts), more)
    requires k < |After(s, acts).queue| && Ticks(more) >= k + 1
    ensures Runs(After(s, acts), more, After(s, acts).queue[k])
  {
    SlicesAlways(s, acts);
    RunsInTurn(After(s, acts), more, k);
  }

  lemma {:induction false} NoSchedules(acts: seq<Action>)
    requires Schedules(acts) == 0
    ensures forall i :: 0 <= i < |acts| ==> !IsSchedule(acts[i])
  {
    if acts != [] {
      NoSchedules(acts[1..]);
    }
  }
}
