/** The scheduler and the semaphores as they update the kernel's state (kern/krnl/task/sched.c, kern/krnl/sync/sem.c,
    kern/krnl/sync/wait.c). Each method is one section with interrupts masked and is a step of the transition system. */
module KernelState {
  import opened TaskStates
  import opened Sequences
  import opened Scheduling
  import opened SchedulingRuns

  class Kernel {
    const idle: Tid
    var tasks: map<Tid, Task>
    var current: Tid
    // RunQueue: the list and its counter.
    var queue: seq<Tid>
    var taskNum: int
    var sems: map<SemId, Sem>
    var panicked: bool

    ghost function Abs(): State
      reads this
    {
      State(tasks, current, idle, queue, taskNum, sems, panicked)
    }

    constructor (idle: Tid)
      ensures Boot(Abs()) && this.idle == idle
    {
      this.idle, current := idle, idle;
      tasks := map[idle := Task(Runnable, NotWait, 0, true, Elsewhere)];
      queue, taskNum, sems, panicked := [], 0, map[], false;
    }

    /** enqueueRunQueue. */
    method EnqueueRunQueue(t: Tid)
      requires t in tasks
      modifies `tasks, `queue, `taskNum
      ensures Abs() == Enqueue(old(Abs()), t)
      ensures queue == old(queue) + [t] && taskNum == old(taskNum) + 1
      ensures tasks == old(tasks)[t := old(tasks[t]).(slice := 1)]
    {
      queue := queue + [t];
      if tasks[t].slice <= 0 || tasks[t].slice > MAX_TIME_SLICES {
        tasks := tasks[t := tasks[t].(slice := MAX_TIME_SLICES)];
      }
      taskNum := taskNum + 1;
      assert tasks == old(tasks)[t := Refilled(old(tasks[t]))];
    }

    /** dequeueRunQueue, for the task at the head. */
    method DequeueRunQueue()
      requires queue != []
      modifies `queue, `taskNum
      ensures queue == old(queue)[1..] && taskNum == old(taskNum) - 1
    {
      queue := queue[1..];
      taskNum := taskNum - 1;
    }

    /** schedule. */
    method Schedule()
      requires current in tasks
      modifies `tasks, `queue, `taskNum, `current
      ensures Abs() == DoSchedule(old(Abs()))
      ensures var goesOn := old(tasks[current]).state == Runnable && old(current) != idle;
        var waiting := old(queue) + if goesOn then [old(current)] else [];
        if waiting == [] then current == idle && queue == [] else current == waiting[0] && queue == waiting[1..]
      ensures old(current) in tasks && !tasks[old(current)].resched
    {
      tasks := tasks[current := tasks[current].(resched := false)];
      if tasks[current].state == Runnable {
        if current != idle {
          EnqueueRunQueue(current);
        }
      }
      var next := idle;
      if queue != [] {
        next := queue[0];
        DequeueRunQueue();
      }
      if next != current {
        current := next;
      }
    }

    /** A call of schedule by the current task itself, which in down is its way to sleep. */
    method CallSchedule()
      requires Inv(Abs()) && Enabled(Abs(), Action.Schedule)
      modifies `tasks, `queue, `taskNum, `current
      ensures Abs() == Next(old(Abs()), Action.Schedule) && Inv(Abs())
    {
      hide Inv;
      Kept(Abs(), Action.Schedule);
      var k := tasks[current];
      if k.place.InDown? {
        tasks := tasks[current := k.(place := k.place.(slept := true))];
      }
      Schedule();
    }

    /** timerCallBack: the tick, and schedule when the current task has used up its time slice. */
    method TimerCallBack()
      requires Inv(Abs()) && !panicked
      modifies `tasks, `queue, `taskNum, `current
      ensures Inv(Abs())
      ensures var s := DoTick(old(Abs()));
        Abs() == if s.tasks[s.current].resched then Next(s, Preempt) else s
      ensures old(current) in old(tasks)
      ensures old(tasks[current]).slice <= 1 || old(tasks[current]).resched ==>
        var goesOn := old(tasks[current]).state == Runnable && old(current) != idle;
        var waiting := old(queue) + if goesOn then [old(current)] else [];
        if waiting == [] then current == idle && queue == [] else current == waiting[0] && queue == waiting[1..]
      ensures old(tasks[current]).slice > 1 && !old(tasks[current]).resched ==>
        current == old(current) && queue == old(queue) &&
        tasks == old(tasks)[current := old(tasks[current]).(slice := old(tasks[current]).slice - 1)]
    {
      hide QueueOk;
      hide SemsOk;
      hide PlacesOk;
      CurrentIn(Abs());
      Kept(Abs(), Tick);
      TickCurrentTask();
      if tasks[current].resched {
        Kept(Abs(), Preempt);
        Schedule();
      }
    }

    /** tickTask for the current task. */
    method TickCurrentTask()
      requires current in tasks
      modifies `tasks
      ensures Abs() == DoTick(old(Abs()))
      ensures current in tasks
      ensures tasks[current].resched <==> old(tasks[current]).resched || old(tasks[current]).slice <= 1
      ensures tasks[current].slice == if old(tasks[current]).slice == 0 then 0 else old(tasks[current]).slice - 1
    {
      var t := current;
      if tasks[t].slice > 0 {
        tasks := tasks[t := tasks[t].(slice := tasks[t].slice - 1)];
      }
      if tasks[t].slice == 0 {
        tasks := tasks[t := tasks[t].(resched := true)];
      }
      assert Abs().tasks == DoTick(old(Abs())).tasks;
    }

    /** wakeupTask; waking a zombie would be a panic. */
    method WakeupTask(t: Tid)
      requires t in tasks && tasks[t].state != Zombie
      modifies `tasks, `queue, `taskNum
      ensures Abs() == DoWake(old(Abs()), t)
      ensures t in tasks && tasks[t].state == Runnable && (old(tasks[t]).state != Runnable ==> tasks[t].wait == NotWait)
      ensures queue == old(queue) + if old(tasks[t]).state != Runnable && t != current && t != idle then [t] else []
    {
      if tasks[t].state != Runnable {
        tasks := tasks[t := tasks[t].(state := Runnable, wait := NotWait)];
        if t != current {
          if t != idle {
            EnqueueRunQueue(t);
          }
        }
      }
    }

    /** wakeupAll on a wait list with the given tasks: each is woken, in list order. */
    method WakeupAll(list: seq<Tid>)
      requires forall t :: t in list ==> t in tasks && tasks[t].state != Zombie
      modifies `tasks, `queue, `taskNum
      ensures Abs() == DoWakeAll(old(Abs()), list)
      ensures tasks.Keys == old(tasks.Keys) && forall t :: t in list ==> tasks[t].state == Runnable
      ensures queue == old(queue) + Joining(old(Abs()), list)
    {
      hide DoWake;
      hide Joining;
      ghost var s := Abs();
      var left := list;
      WakeAllWakes(s, list);
      while left != []
        invariant forall t :: t in left ==> t in tasks && tasks[t].state != Zombie
        invariant DoWakeAll(Abs(), left) == DoWakeAll(s, list)
        decreases |left|
      {
        WakeFacts(Abs(), left[0]);
        WakeupTask(left[0]);
        left := left[1..];
      }
    }

    /** The first section of down, for the current task. */
    method DownBegin(x: SemId) returns (got: bool)
      requires current in tasks && x in sems
      modifies `tasks, `sems
      ensures Abs() == DoAcquire(old(Abs()), x) && (got <==> old(sems[x].value) > 0)
    {
      var m, t := sems[x], current;
      got := m.value > 0;
      if got {
        sems := sems[x := m.(value := m.value - 1, holders := m.holders + multiset{t})];
        return;
      }
      tasks := tasks[t := tasks[t].(state := Sleeping, wait := KSem, place := InDown(x, false, false))];
      sems := sems[x := m.(waiters := m.waiters + [t], arrived := m.arrived + [t])];
    }

    /** The last section of down and acquireSem's check of its result. The invariant makes it return 0 for every task
        but idle. */
    method DownEnd()
      requires Inv(Abs()) && Enabled(Abs(), Finish)
      modifies `tasks, `sems, `panicked
      ensures Abs() == DoFinish(old(Abs()))
      ensures current != idle ==> !panicked
    {
      hide Inv;
      var t := current;
      var p := tasks[t].place;
      var m := sems[p.sem];
      FinishGranted(Abs());
      tasks := tasks[t := tasks[t].(place := Elsewhere)];
      sems := sems[p.sem := m.(waiters := Dropped(m.waiters, t))];
      panicked := !p.granted;
    }

    /** up, by the current task. */
    method Up(x: SemId)
      requires Inv(Abs()) && Enabled(Abs(), Release(x))
      modifies `tasks, `queue, `taskNum, `sems
      ensures Abs() == DoRelease(old(Abs()), x) && Inv(Abs())
    {
      hide SemsOk;
      hide PlacesOk;
      hide QueueOk;
      Kept(Abs(), Release(x));
      FirstSleeps(Abs(), x);
      var m := GivenBack(sems[x], current);
      if m.waiters == [] {
        sems := sems[x := m.(value := m.value + 1)];
      } else {
        var w := m.waiters[0];
        sems := sems[x := HandedOn(m)];
        tasks := tasks[w := Granted(tasks[w])];
        WakeupTask(w);
      }
    }
  }

  lemma CurrentIn(s: State)
    requires Inv(s)
    ensures s.current in s.tasks
  {
  }

  /** A task that waits at the head of a semaphore's queue sleeps: waking it is no panic. */
  lemma FirstSleeps(s: State, x: SemId)
    requires Inv(s) && x in s.sems
    ensures s.sems[x].waiters != [] ==> s.sems[x].waiters[0] in s.tasks
    ensures s.sems[x].waiters != [] ==> s.tasks[s.sems[x].waiters[0]].state == Sleeping
  {
    var m := s.sems[x];
    assert SemOk(s, x);
    if m.waiters != [] {
      assert m.waiters[0] in m.waiters && SleepsOn(s, m.waiters[0], x) && PlaceOk(s, m.waiters[0]);
    }
  }

  /** A task other than idle that comes back from schedule in down was woken by up. */
  lemma FinishGranted(s: State)
    requires Inv(s) && Enabled(s, Finish)
    ensures s.current != s.idle ==> s.tasks[s.current].place.granted
  {
    assert PlaceOk(s, s.current);
  }

  function DoWakeAll(s: State, list: seq<Tid>): State
    requires forall t :: t in list ==> t in s.tasks
    decreases |list|
  {
    if list == [] then s else DoWakeAll(DoWake(s, list[0]), list[1..])
  }

  /** The tasks of the list that join the run queue, each once, in list order. */
  function Joining(s: State, list: seq<Tid>): seq<Tid>
    requires forall t :: t in list ==> t in s.tasks
    decreases |list|
  {
    if list == [] then []
    else
      var t := list[0];
      var joins := s.tasks[t].state != Runnable && t != s.current && t != s.idle;
      (if joins then [t] else []) + Joining(DoWake(s, t), list[1..])
  }

  lemma WakeFacts(s: State, w: Tid)
    requires w in s.tasks
    ensures var r := DoWake(s, w);
      r.tasks.Keys == s.tasks.Keys && r.current == s.current && r.idle == s.idle && r.tasks[w].state == Runnable &&
      (forall t :: t in s.tasks && t != w ==> r.tasks[t] == s.tasks[t]) &&
      r.queue == s.queue + if s.tasks[w].state != Runnable && w != s.current && w != s.idle then [w] else []
  {
  }

  lemma {:induction false} WakeAllWakes(s: State, list: seq<Tid>)
    requires forall t :: t in list ==> t in s.tasks
    ensures var r := DoWakeAll(s, list);
      r.tasks.Keys == s.tasks.Keys && r.queue == s.queue + Joining(s, list) && r.current == s.current &&
      r.idle == s.idle
    ensures forall t :: t in s.tasks && (t in list || s.tasks[t].state == Runnable) ==>
      t in DoWakeAll(s, list).tasks && DoWakeAll(s, list).tasks[t].state == Runnable
    decreases |list|
  {
    hide DoWake;
    if list != [] {
      WakeFacts(s, list[0]);
      var s1 := DoWake(s, list[0]);
      assert list == [list[0]] + list[1..];
      WakeAllWakes(s1, list[1..]);
    }
  }
}
