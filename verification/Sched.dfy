/** The tick scheduler (kernel/sched.c): time slices of prio ticks each, recharged together
    when every runnable task has used its own up. */
module Schedulers {
  import opened Bytes

  const MAX_TASKS := 256
  const TS_RUN: u8 := 0
  const TS_HANG: u8 := 4

  /** A slot of task_st: a NULL pointer, or the scheduling fields of a TASK. Slot 0 is the
      idle task. */
  datatype Slot = Null | Task(prio: u8, tick: u8, state: u8)

  predicate Runnable(t: Slot) {
    t.Task? && t.state == TS_RUN
  }

  predicate Table(t: seq<Slot>) {
    |t| == MAX_TASKS && t[0].Task?
  }

  function Tick(t: Slot): nat {
    if t.Task? then t.tick else 0
  }

  function Prio(t: Slot): nat {
    if t.Task? then t.prio else 0
  }

  /** How many of the first n slots hold a task. */
  function Count(t: seq<Slot>, n: nat): (c: nat)
    requires n <= |t|
    ensures c <= n
  {
    if n == 0 then 0 else Count(t, n - 1) + if t[n - 1].Task? then 1 else 0
  }

  lemma {:induction false} CountUpto(t: seq<Slot>, n: nat, m: nat)
    requires n <= m <= |t|
    ensures Count(t, n) <= Count(t, m)
    ensures Count(t, n) == Count(t, m) ==> forall i :: n <= i < m ==> !t[i].Task?
    decreases m
  {
    if n < m { CountUpto(t, n, m - 1); }
  }

  /** m is the choice of schedule among the first n slots: the highest index whose task is
      runnable, or the idle task, and whose tick no other such task exceeds. */
  ghost predicate Chosen(t: seq<Slot>, n: nat, m: nat)
    requires n <= |t|
  {
    && m < n && t[m].Task? && (m == 0 || Runnable(t[m]))
    && (forall i :: 0 <= i < n && (i == 0 || Runnable(t[i])) ==> Tick(t[i]) <= Tick(t[m]))
    && (forall i :: m < i < n && Runnable(t[i]) ==> Tick(t[i]) < Tick(t[m]))
  }

  lemma ChosenOnce(t: seq<Slot>, n: nat, m: nat, k: nat)
    requires n <= |t| && Chosen(t, n, m) && Chosen(t, n, k)
    ensures m == k
  {
  }

  /** The choice as a function. */
  function Best(t: seq<Slot>, n: nat): (m: nat)
    requires Table(t) && 0 < n <= MAX_TASKS
    ensures Chosen(t, n, m)
  {
    if n == 1 then 0
    else var m := Best(t, n - 1);
         if Runnable(t[n - 1]) && Tick(t[n - 1]) >= Tick(t[m]) then n - 1 else m
  }

  /** Every task gets its full slice again. */
  function Recharged(t: seq<Slot>): (r: seq<Slot>)
    ensures |r| == |t|
    ensures forall i :: 0 <= i < |t| ==> r[i] == if t[i].Task? then t[i].(tick := t[i].prio) else Null
  {
    seq(|t|, i requires 0 <= i < |t| => if t[i].Task? then t[i].(tick := t[i].prio) else Null)
  }

  /** current_p = task i, which runs. */
  function SwitchedTo(t: seq<Slot>, cur: nat, i: nat): (r: seq<Slot>)
    requires i < |t| && t[i].Task?
  {
    if i == cur then t else t[i := t[i].(state := TS_RUN)]
  }

  /** Every slot but m holds what it held, with the same priority and state; m may have become runnable. */
  predicate OthersKept(t: seq<Slot>, t': seq<Slot>, m: nat) {
    |t'| == |t| && forall j :: 0 <= j < |t| ==>
      t'[j].Task? == t[j].Task?
      && (t[j].Task? ==> t'[j].prio == t[j].prio
                         && (t'[j].state == t[j].state || (j == m && t'[j].state == TS_RUN)))
  }

  /** schedule finds nobody with a slice left: everybody's is renewed. */
  predicate Exhausted(t: seq<Slot>)
    requires Table(t)
  {
    Tick(t[Best(t, MAX_TASKS)]) == 0
  }

  /** schedule on the table and the current task. */
  function After(t: seq<Slot>, cur: nat): (r: (seq<Slot>, nat))
    requires Table(t)
  {
    if Exhausted(t) then (SwitchedTo(Recharged(t), cur, 0), 0)
    else var m := Best(t, MAX_TASKS); (SwitchedTo(t, cur, m), m)
  }

  class Scheduler {
    const taskSt: array<Slot>
    const nrTasks: u32
    var current: nat
    var ticks: u32

    constructor (table: array<Slot>, nrTasks: u32, current: nat)
      ensures this.taskSt == table && this.nrTasks == nrTasks && this.current == current && ticks == 0
    {
      this.taskSt, this.nrTasks, this.current, ticks := table, nrTasks, current, 0;
    }

    ghost predicate Valid()
      reads this, taskSt
    {
      && taskSt.Length == MAX_TASKS && Table(taskSt[..]) && nrTasks == Count(taskSt[..], MAX_TASKS)
      && current < MAX_TASKS && taskSt[current].Task?
    }

    /** kernel/sched.c:16, but for the hardware's translation base. */
    method SwitchTo(to: nat)
      requires Valid() && to < MAX_TASKS && taskSt[to].Task?
      modifies this`current, taskSt
      ensures Valid() && current == to && taskSt[..] == SwitchedTo(old(taskSt[..]), old(current), to)
    {
      if to == current {
        return;
      }
      ghost var t := taskSt[..];
      current := to;
      taskSt[to] := taskSt[to].(state := TS_RUN);
      SameCount(t, taskSt[..], MAX_TASKS);
    }

    /** The first loop of schedule (kernel/sched.c:34-40): stopping after NR_TASKS runnable
        tasks never skips one, because task 0 is not counted. */
    method Choose() returns (maxi: nat)
      requires Valid()
      ensures Chosen(taskSt[..], MAX_TASKS, maxi)
    {
      ghost var t := taskSt[..];
      maxi := 0;
      var i, j := 1, 0;
      while i < MAX_TASKS && j < nrTasks
        invariant 1 <= i <= MAX_TASKS && j < Count(t, i)
        invariant Chosen(t, i, maxi)
      {
        if Runnable(taskSt[i]) {
          j := j + 1;
          if taskSt[i].tick >= taskSt[maxi].tick {
            maxi := i;
          }
        }
        i := i + 1;
      }
      CountUpto(t, i, MAX_TASKS);
    }

    /** The second loop (kernel/sched.c:42-47): it also reaches every task. */
    method Recharge()
      requires Valid()
      modifies taskSt
      ensures Valid() && taskSt[..] == Recharged(old(taskSt[..]))
    {
      ghost var t := taskSt[..];
      var i, j := 0, 0;
      while i < MAX_TASKS && j < nrTasks
        invariant i <= MAX_TASKS && j == Count(t, i)
        invariant forall k :: 0 <= k < i ==> taskSt[k] == Recharged(t)[k]
        invariant forall k :: i <= k < MAX_TASKS ==> taskSt[k] == t[k]
      {
        if taskSt[i].Task? {
          j := j + 1;
          taskSt[i] := taskSt[i].(tick := taskSt[i].prio);
        }
        i := i + 1;
      }
      CountUpto(t, i, MAX_TASKS);
      assert forall k :: i <= k < MAX_TASKS ==> taskSt[k] == Recharged(t)[k];
      assert taskSt[..] == Recharged(t);
      SameCount(t, taskSt[..], MAX_TASKS);
    }

    /** kernel/sched.c:30 */
    method Schedule() returns (maxi: nat)
      requires Valid()
      modifies this`current, taskSt
      ensures Valid() && maxi == current
      ensures (taskSt[..], current) == After(old(taskSt[..]), old(current))
      ensures if old(taskSt[..])[0].tick == 0
                 && forall j :: 0 <= j < 256 && Runnable(old(taskSt[..])[j]) ==> old(taskSt[..])[j].tick == 0
              then current == 0 && forall j :: 0 <= j < 256 && taskSt[j].Task? ==> taskSt[j].tick == taskSt[j].prio
              else forall j :: 0 <= j < 256 && taskSt[j].Task? ==>
                     && taskSt[j].tick == old(taskSt[..])[j].tick
                     && (j == 0 || Runnable(old(taskSt[..])[j]) ==> taskSt[j].tick <= taskSt[current].tick)
                     && (current < j && Runnable(old(taskSt[..])[j]) ==> taskSt[j].tick < taskSt[current].tick)
      ensures OthersKept(old(taskSt[..]), taskSt[..], current)
      ensures current == 0 || Runnable(old(taskSt[..])[current])
    {
      maxi := Choose();
      ghost var t := taskSt[..];
      ChosenOnce(t, MAX_TASKS, maxi, Best(t, MAX_TASKS));
      if taskSt[maxi].tick == 0 {
        Recharge();
        maxi := 0;
      }
      SwitchTo(maxi);
    }

    /** kernel/sched.c:54 */
    method SleepTask(i: nat)
      requires Valid() && i < MAX_TASKS
      modifies this`current, taskSt
      ensures Valid()
      ensures (taskSt[..], current) == if !Runnable(old(taskSt[i])) then (old(taskSt[..]), old(current))
                                       else After(WithState(old(taskSt[..]), i, TS_HANG), old(current))
      ensures i != 0 && Runnable(old(taskSt[i])) ==> taskSt[i] == Task(old(taskSt[i]).prio, taskSt[i].tick, 4)
                                                     && current != i
      ensures forall j :: 0 <= j < 256 && j != i && j != current ==>
                taskSt[j].Task? == old(taskSt[j].Task?) && (taskSt[j].Task? ==> taskSt[j].state == old(taskSt[j].state))
    {
      if !Runnable(taskSt[i]) {
        return;
      }
      ghost var t := taskSt[..];
      taskSt[i] := taskSt[i].(state := TS_HANG);
      assert taskSt[..] == WithState(t, i, TS_HANG);
      SameCount(t, taskSt[..], MAX_TASKS);
      var maxi := Schedule();
    }

    /** kernel/sched.c:61 */
    method WakeTask(i: nat)
      requires Valid() && i < MAX_TASKS
      modifies this`current, taskSt
      ensures Valid()
      ensures (taskSt[..], current) ==
              if old(taskSt[i]) == Null || Runnable(old(taskSt[i])) then (old(taskSt[..]), old(current))
                                       else After(WithState(old(taskSt[..]), i, TS_RUN), old(current))
      ensures old(taskSt[i]).Task? ==> taskSt[i].Task? && taskSt[i].state == 0 && taskSt[i].prio == old(taskSt[i]).prio
      ensures forall j :: 0 <= j < 256 && j != i && j != current ==>
                taskSt[j].Task? == old(taskSt[j].Task?) && (taskSt[j].Task? ==> taskSt[j].state == old(taskSt[j].state))
    {
      if taskSt[i] == Null || Runnable(taskSt[i]) {
        return;
      }
      ghost var t := taskSt[..];
      taskSt[i] := taskSt[i].(state := TS_RUN);
      assert taskSt[..] == WithState(t, i, TS_RUN);
      SameCount(t, taskSt[..], MAX_TASKS);
      var maxi := Schedule();
    }

    /** kernel/sched.c:68, but for the interrupt controller. */
    method DoTimer0()
      requires Valid()
      modifies this`current, this`ticks, taskSt
      ensures Valid() && ticks == (old(ticks) + 1) % TWO_32
      ensures (taskSt[..], current) == After(Charge(old(taskSt[..]), old(current)), old(current))
      ensures (old(current) == 0 || Runnable(old(taskSt[current]))) && old(taskSt[current]).tick > 1 ==>
                forall j :: 0 <= j < 256 && taskSt[j].Task? ==>
                  taskSt[j].tick == old(taskSt[..])[j].tick - if j == old(current) then 1 else 0
      ensures OthersKept(old(taskSt[..]), taskSt[..], current)
    {
      ghost var t := taskSt[..];
      if taskSt[current].tick > 0 {
        taskSt[current] := taskSt[current].(tick := taskSt[current].tick - 1);
      }
      assert taskSt[..] == Charge(t, current);
      SameCount(t, taskSt[..], MAX_TASKS);
      ticks := (ticks + 1) % TWO_32;
      var maxi := Schedule();
    }
  }

  function WithState(t: seq<Slot>, i: nat, s: u8): (r: seq<Slot>)
    requires i < |t|
    ensures |r| == |t|
  {
    if t[i].Task? then t[i := t[i].(state := s)] else t
  }

  /** The timer takes one tick from the current task, if it has any. */
  function Charge(t: seq<Slot>, cur: nat): (r: seq<Slot>)
    requires cur < |t|
    ensures |r| == |t|
  {
    if t[cur].Task? && t[cur].tick > 0 then t[cur := t[cur].(tick := t[cur].tick - 1)] else t
  }

  // ---- whole runs ----

  /** The scheduler's state, and for each task the number of timer interrupts that found it
      running since the last recharge. */
  datatype Sys = Sys(t: seq<Slot>, cur: nat, ran: seq<nat>)

  /** What can happen: the timer; a task that stops running (sleep_task, sys_recvm,
      sys_getchs) or is woken, each followed by schedule; a task made ready without it
      (sys_replym); and a bare call of schedule. */
  datatype Event = Timer | Stop(i: nat, why: u8) | Wake(i: nat) | Ready(i: nat) | Yield

  predicate Shaped(s: Sys) {
    Table(s.t) && s.cur < MAX_TASKS && s.t[s.cur].Task? && |s.ran| == MAX_TASKS
  }

  function Zeros(): (z: seq<nat>)
    ensures |z| == MAX_TASKS && forall i :: 0 <= i < MAX_TASKS ==> z[i] == 0
  {
    seq(MAX_TASKS, i => 0)
  }

  function Reschedule(s: Sys): (r: Sys)
    requires Shaped(s)
    ensures Shaped(r)
  {
    var (t, cur) := After(s.t, s.cur);
    Sys(t, cur, if Exhausted(s.t) then Zeros() else s.ran)
  }

  /** The state right before schedule is called on an event. */
  function Touched(s: Sys, e: Event): (r: Sys)
    requires Shaped(s)
    ensures Shaped(r) && r.cur == s.cur
    ensures forall i :: 0 <= i < MAX_TASKS ==> r.t[i].Task? == s.t[i].Task? && Prio(r.t[i]) == Prio(s.t[i])
  {
    match e
    case Timer => Sys(Charge(s.t, s.cur), s.cur, s.ran[s.cur := s.ran[s.cur] + 1])
    case Stop(i, why) => if i < MAX_TASKS then s.(t := WithState(s.t, i, why)) else s
    case Wake(i) => if i < MAX_TASKS then s.(t := WithState(s.t, i, TS_RUN)) else s
    case Ready(i) => if i < MAX_TASKS then s.(t := WithState(s.t, i, TS_RUN)) else s
    case Yield => s
  }

  /** Whether the event gets as far as schedule: sleep_task and wake_task return early when
      the task is not, or already, runnable. */
  predicate Schedules(s: Sys, e: Event)
    requires Shaped(s)
  {
    match e
    case Timer => true
    case Stop(i, why) => i < MAX_TASKS && Runnable(s.t[i])
    case Wake(i) => i < MAX_TASKS && s.t[i].Task? && !Runnable(s.t[i])
    case Ready(i) => false
    case Yield => true
  }

  function Step(s: Sys, e: Event): (r: Sys)
    requires Shaped(s)
    ensures Shaped(r)
  {
    if Schedules(s, e) then Reschedule(Touched(s, e)) else if e.Ready? then Touched(s, e) else s
  }

  /** The event ends a round. */
  predicate EndsRound(s: Sys, e: Event)
    requires Shaped(s)
  {
    Schedules(s, e) && Exhausted(Touched(s, e).t)
  }

  /** The invariant: whoever runs has a tick left, and every task's remaining ticks and the
      timer interrupts it has run through since the last recharge add up to its priority. */
  ghost predicate Fair(s: Sys) {
    && Shaped(s) && Prio(s.t[0]) > 0 && Tick(s.t[s.cur]) > 0
    && (forall i :: 0 <= i < MAX_TASKS && s.t[i].Task? ==> Tick(s.t[i]) + s.ran[i] == Prio(s.t[i]))
  }

  /** Remaining ticks and timer interrupts add up to the priorities p. */
  ghost predicate Balanced(s: Sys, p: seq<Slot>)
    requires Shaped(s) && |p| == MAX_TASKS
  {
    forall i :: 0 <= i < MAX_TASKS && p[i].Task? ==> s.t[i].Task? && Tick(s.t[i]) + s.ran[i] == Prio(p[i])
  }

  lemma TouchedBalanced(s: Sys, e: Event)
    requires Fair(s)
    ensures Balanced(Touched(s, e), s.t)
  {
    var u := Touched(s, e);
    forall i | 0 <= i < MAX_TASKS && s.t[i].Task? ensures Tick(u.t[i]) + u.ran[i] == Prio(s.t[i]) {
      if e.Timer? && i == s.cur { assert Tick(s.t[s.cur]) > 0; }
    }
  }

  /** schedule gives the processor to a task with a tick left. */
  lemma RescheduleFair(s: Sys)
    requires Shaped(s) && Prio(s.t[0]) > 0 && Balanced(s, s.t)
    ensures Fair(Reschedule(s))
  {
    var m := Best(s.t, MAX_TASKS);
    assert Chosen(s.t, MAX_TASKS, m);
  }

  /** Every event keeps the invariant. */
  lemma StepFair(s: Sys, e: Event)
    requires Fair(s)
    ensures Fair(Step(s, e))
  {
    TouchedBalanced(s, e);
    var u := Touched(s, e);
    assert Balanced(u, u.t);
    if Schedules(s, e) {
      RescheduleFair(u);
    }
  }

  function Run(s: Sys, es: seq<Event>): (r: Sys)
    requires Shaped(s)
    ensures Shaped(r)
    decreases |es|
  {
    if es == [] then s else Step(Run(s, es[..|es|-1]), es[|es|-1])
  }

  lemma {:induction false} RunFair(s: Sys, es: seq<Event>)
    requires Fair(s)
    ensures Fair(Run(s, es))
    decreases |es|
  {
    if es != [] {
      RunFair(s, es[..|es|-1]);
      StepFair(Run(s, es[..|es|-1]), es[|es|-1]);
    }
  }

  /** The state kmain starts from (kernel/kmain.c:95-107): every slice full, the idle task
      running. */
  lemma BootFair(t: seq<Slot>)
    requires Table(t) && Prio(t[0]) > 0 && forall i :: 0 <= i < MAX_TASKS ==> Tick(t[i]) == Prio(t[i])
    ensures Fair(Sys(t, 0, Zeros()))
  {
  }

  /** A task that is not runnable and does not run stays so until it is woken or made ready. */
  lemma StepStopped(s: Sys, e: Event, i: nat)
    requires Shaped(s) && 0 < i < MAX_TASKS && s.t[i].Task? && s.t[i].state != 0 && s.cur != i
    requires e != Wake(i) && e != Ready(i)
    ensures Step(s, e).t[i].Task? && Step(s, e).t[i].state == s.t[i].state && Step(s, e).cur != i
  {
    var u := Touched(s, e);
    assert Chosen(u.t, MAX_TASKS, Best(u.t, MAX_TASKS));
  }

  /** The stop itself. */
  lemma StopStops(s: Sys, i: nat, why: u8)
    requires Shaped(s) && 0 < i < MAX_TASKS && Runnable(s.t[i]) && why != 0
    ensures var r := Step(s, Stop(i, why));
            r.t[i].Task? && r.t[i].state == why && r.t[i].prio == s.t[i].prio && r.cur != i
  {
    var u := Touched(s, Stop(i, why));
    assert Chosen(u.t, MAX_TASKS, Best(u.t, MAX_TASKS));
  }

  /** After a runnable task was stopped it does not get the processor as long as nobody wakes it or makes
      it ready. */
  lemma {:induction false} StoppedStays(s: Sys, i: nat, why: u8, es: seq<Event>)
    requires Shaped(s) && 0 < i < MAX_TASKS && Runnable(s.t[i]) && why != 0
    requires forall k :: 0 <= k < |es| ==> es[k] != Wake(i) && es[k] != Ready(i)
    ensures var r := Run(Step(s, Stop(i, why)), es);
            r.t[i].Task? && r.t[i].state == why && r.cur != i
    decreases |es|
  {
    StopStops(s, i, why);
    if es != [] {
      StoppedStays(s, i, why, es[..|es| - 1]);
      StepStopped(Run(Step(s, Stop(i, why)), es[..|es| - 1]), es[|es| - 1], i);
    }
  }

  lemma StepRunnable(s: Sys, e: Event, i: nat)
    requires Shaped(s) && i < MAX_TASKS && Runnable(s.t[i]) && !(e.Stop? && e.i == i)
    ensures Runnable(Step(s, e).t[i])
  {
  }

  lemma {:induction false} RunnableStays(s: Sys, es: seq<Event>, i: nat)
    requires Shaped(s) && i < MAX_TASKS && Runnable(s.t[i]) && Undisturbed(es, i)
    ensures Runnable(Run(s, es).t[i])
    decreases |es|
  {
    hide Step, Runnable;
    if es != [] {
      RunnableStays(s, es[..|es| - 1], i);
      StepRunnable(Run(s, es[..|es| - 1]), es[|es| - 1], i);
    }
  }

  /** A task that is woken or made ready is runnable then, and stays so until it is stopped. */
  lemma WokenStays(s: Sys, e: Event, es: seq<Event>, i: nat)
    requires Shaped(s) && i < MAX_TASKS && s.t[i].Task? && (e == Wake(i) || e == Ready(i)) && Undisturbed(es, i)
    ensures Runnable(Run(Step(s, e), es).t[i])
  {
    RunnableStays(Step(s, e), es, i);
  }

  /** Exact fairness, over any run: whenever a round ends, every task that is runnable at
      that moment, and the idle task, has run through exactly prio timer interrupts since the
      round began, whatever slept and woke in between. */
  lemma ExactFairness(s: Sys, es: seq<Event>, e: Event, i: nat)
    requires Fair(s) && EndsRound(Run(s, es), e) && i < MAX_TASKS
    requires i == 0 || Runnable(Touched(Run(s, es), e).t[i])
    ensures Touched(Run(s, es), e).ran[i] == Prio(Run(s, es).t[i])
  {
    RunFair(s, es);
    var r := Run(s, es);
    TouchedBalanced(r, e);
    var u := Touched(r, e);
    assert Chosen(u.t, MAX_TASKS, Best(u.t, MAX_TASKS));
  }

  // ---- bounded waiting ----

  function Sum(t: seq<Slot>, n: nat): nat
    requires n <= |t|
  {
    if n == 0 then 0 else Sum(t, n - 1) + Tick(t[n - 1])
  }

  function SumPrio(t: seq<Slot>, n: nat): nat
    requires n <= |t|
  {
    if n == 0 then 0 else SumPrio(t, n - 1) + Prio(t[n - 1])
  }

  lemma {:induction false} SumSame(t: seq<Slot>, t': seq<Slot>, n: nat)
    requires |t'| == |t| && n <= |t| && forall i :: 0 <= i < n ==> Tick(t'[i]) == Tick(t[i])
    ensures Sum(t', n) == Sum(t, n)
  {
    if n > 0 { SumSame(t, t', n - 1); }
  }

  lemma {:induction false} SumPrioSame(t: seq<Slot>, t': seq<Slot>, n: nat)
    requires |t'| == |t| && n <= |t| && forall i :: 0 <= i < n ==> Prio(t'[i]) == Prio(t[i])
    ensures SumPrio(t', n) == SumPrio(t, n)
  {
    if n > 0 { SumPrioSame(t, t', n - 1); }
  }

  lemma {:induction false} SumDrops(t: seq<Slot>, t': seq<Slot>, c: nat, n: nat)
    requires |t'| == |t| && n <= |t| && c < |t| && Tick(t'[c]) + 1 == Tick(t[c])
    requires forall i :: 0 <= i < n && i != c ==> Tick(t'[i]) == Tick(t[i])
    ensures Sum(t', n) + (if c < n then 1 else 0) == Sum(t, n)
  {
    if n > 0 { SumDrops(t, t', c, n - 1); }
  }

  lemma {:induction false} SumBounds(t: seq<Slot>, x: nat, n: nat)
    requires n <= |t| && x < |t| && forall i :: 0 <= i < n ==> Tick(t[i]) <= Prio(t[i])
    ensures Sum(t, n) <= SumPrio(t, n) && (x < n ==> Tick(t[x]) <= Sum(t, n))
  {
    if n > 0 { SumBounds(t, x, n - 1); }
  }

  lemma {:induction false} SumRecharged(t: seq<Slot>, n: nat)
    requires n <= |t|
    ensures Sum(Recharged(t), n) == SumPrio(t, n)
  {
    if n > 0 { SumRecharged(t, n - 1); }
  }

  function Total(s: Sys): nat
    requires Shaped(s)
  {
    SumPrio(s.t, MAX_TASKS)
  }

  /** How many more timer interrupts task x can be kept waiting: the ticks left in this round
      and, if x has used up its own, those of the next. */
  function Patience(s: Sys, x: nat): nat
    requires Shaped(s) && x < MAX_TASKS
  {
    Sum(s.t, MAX_TASKS) + if Tick(s.t[x]) > 0 then 0 else Total(s)
  }

  /** Task x has a priority and wants the processor. */
  predicate WantsCpu(s: Sys, x: nat)
    requires Shaped(s)
  {
    x < MAX_TASKS && Prio(s.t[x]) > 0 && (x == 0 || Runnable(s.t[x]))
  }

  lemma TouchedTicks(s: Sys, e: Event, x: nat)
    requires Fair(s) && WantsCpu(s, x) && s.cur != x && !(e.Stop? && e.i == x)
    ensures var u := Touched(s, e);
            && WantsCpu(u, x) && Tick(u.t[x]) == Tick(s.t[x])
            && Sum(u.t, MAX_TASKS) + (if e.Timer? then 1 else 0) == Sum(s.t, MAX_TASKS) && Total(u) == Total(s)
  {
    var u := Touched(s, e);
    SumPrioSame(s.t, u.t, MAX_TASKS);
    if e.Timer? {
      SumDrops(s.t, u.t, s.cur, MAX_TASKS);
    } else {
      SumSame(s.t, u.t, MAX_TASKS);
    }
  }

  lemma RescheduleTicks(s: Sys, x: nat)
    requires Shaped(s) && WantsCpu(s, x)
    ensures var r := Reschedule(s);
            && WantsCpu(r, x) && Total(r) == Total(s)
            && if Exhausted(s.t) then Tick(s.t[x]) == 0 && Tick(r.t[x]) > 0 && Sum(r.t, MAX_TASKS) == Total(s)
               else Tick(r.t[x]) == Tick(s.t[x]) && Sum(r.t, MAX_TASKS) == Sum(s.t, MAX_TASKS)
  {
    var r := Reschedule(s);
    assert Chosen(s.t, MAX_TASKS, Best(s.t, MAX_TASKS));
    SumPrioSame(s.t, r.t, MAX_TASKS);
    if Exhausted(s.t) {
      SumRecharged(s.t, MAX_TASKS);
      SumSame(Recharged(s.t), r.t, MAX_TASKS);
    } else {
      SumSame(s.t, r.t, MAX_TASKS);
    }
  }

  /** Waiting costs patience: one for each timer interrupt. */
  lemma StepPatience(s: Sys, e: Event, x: nat)
    requires Fair(s) && WantsCpu(s, x) && s.cur != x && !(e.Stop? && e.i == x)
    ensures WantsCpu(Step(s, e), x) && Total(Step(s, e)) == Total(s)
    ensures Patience(Step(s, e), x) + (if e.Timer? then 1 else 0) <= Patience(s, x)
  {
    TouchedTicks(s, e, x);
    SumBounds(s.t, s.cur, MAX_TASKS);
    if Schedules(s, e) {
      RescheduleTicks(Touched(s, e), x);
    }
  }

  function Timers(es: seq<Event>): nat
    decreases |es|
  {
    if es == [] then 0 else Timers(es[..|es|-1]) + if es[|es|-1].Timer? then 1 else 0
  }

  /** Task x is not stopped by any of these events. */
  predicate Undisturbed(es: seq<Event>, x: nat) {
    forall i :: 0 <= i < |es| ==> !(es[i].Stop? && es[i].i == x)
  }

  /** Task x does not get the processor during the run. */
  ghost predicate Starves(s: Sys, es: seq<Event>, x: nat)
    requires Shaped(s)
  {
    forall k :: 0 <= k <= |es| ==> Run(s, es[..k]).cur != x
  }

  lemma {:induction false} StarvesOnlySoLong(s: Sys, es: seq<Event>, x: nat)
    requires Fair(s) && WantsCpu(s, x) && Undisturbed(es, x) && Starves(s, es, x)
    ensures WantsCpu(Run(s, es), x) && Total(Run(s, es)) == Total(s)
    ensures Patience(Run(s, es), x) + Timers(es) <= Patience(s, x)
    decreases |es|
  {
    hide Step, Total, Patience;
    if es != [] {
      var n := |es| - 1;
      var ds := es[..n];
      forall k | 0 <= k <= |ds| ensures Run(s, ds[..k]).cur != x {
        assert ds[..k] == es[..k];
      }
      StarvesOnlySoLong(s, ds, x);
      RunFair(s, ds);
      assert ds == es[..n] && Run(s, es[..n]).cur != x;
      StepPatience(Run(s, ds), es[n], x);
    }
  }

  /** Bounded waiting: a task with a priority that stays runnable gets the processor within
      twice the sum of all priorities, counted in timer interrupts. */
  lemma BoundedWait(s: Sys, es: seq<Event>, x: nat)
    requires Fair(s) && WantsCpu(s, x) && Undisturbed(es, x) && Timers(es) >= 2 * Total(s)
    ensures exists k :: 0 <= k <= |es| && Run(s, es[..k]).cur == x
  {
    if Starves(s, es, x) {
      StarvesOnlySoLong(s, es, x);
      RunFair(s, es);
      SumBounds(s.t, x, MAX_TASKS);
      SumBounds(Run(s, es).t, x, MAX_TASKS);
      PrioInTotal(Run(s, es).t, x, MAX_TASKS);
    }
  }

  lemma {:induction false} PrioInTotal(t: seq<Slot>, x: nat, n: nat)
    requires n <= |t| && x < n
    ensures Prio(t[x]) <= SumPrio(t, n)
  {
    if x < n - 1 { PrioInTotal(t, x, n - 1); }
  }

  lemma {:induction false} SameCount(t: seq<Slot>, t': seq<Slot>, n: nat)
    requires |t'| == |t| && n <= |t| && forall i :: 0 <= i < |t| ==> t'[i].Task? == t[i].Task?
    ensures Count(t', n) == Count(t, n)
  {
    if n > 0 { SameCount(t, t', n - 1); }
  }
}
