/** The round-robin scheduler and the counting semaphores it serves (pintos/src/threads/thread.c,
    pintos/src/threads/synch.c), as a transition system. A step is one section of code run with
    interrupts off, taken by the running thread or by an interrupt handler in its context; the
    choice of the next step is free, so a run is any interleaving the kernel can exhibit once the
    idle thread has started. */
module Scheduler {
  import opened Sequences

  type Tid = nat
  type SemId = nat

  datatype Status = Running | Ready | Blocked | Dying

  datatype Semaphore = Semaphore(value: nat, waiters: seq<Tid>)

  /** `downing` says which threads are inside the loop of `sema_down`, and for which semaphore:
      asleep on its wait list, or woken and not yet back to test the value. */
  datatype Kernel = Kernel(
    current: Tid,
    ready: seq<Tid>,
    status: map<Tid, Status>,
    idle: Tid,
    initial: Tid,
    sems: map<SemId, Semaphore>,
    downing: map<Tid, SemId>)

  datatype Step =
    | Yield
    | Block
    | Unblock(t: Tid)
    | Create(t: Tid)
    | Exit
    | Down(s: SemId)
    | TryDown(s: SemId)
    | Up(s: SemId)

  // ---------- The steps ----------

  /** `schedule` and `schedule_tail`: switch to the head of the ready list, or to the idle thread
      when it is empty, and destroy the thread switched from if it is dying. */
  function Schedule(k: Kernel): Kernel {
    var next := if |k.ready| == 0 then k.idle else k.ready[0];
    var rest := if |k.ready| == 0 then [] else k.ready[1..];
    var gone := if next != k.current && k.current in k.status && k.status[k.current] == Dying
                   && k.current != k.initial then {k.current} else {};
    k.(current := next, ready := rest, status := k.status[next := Running] - gone)
  }

  function SetStatus(k: Kernel, t: Tid, st: Status): Kernel {
    k.(status := k.status[t := st])
  }

  function MakeReady(k: Kernel, t: Tid): Kernel {
    SetStatus(k, t, Ready).(ready := k.ready + [t])
  }

  /** The state of a yielding thread about to call `schedule`. */
  function Yielding(k: Kernel): Kernel {
    if k.current == k.idle then SetStatus(k, k.current, Ready) else MakeReady(k, k.current)
  }

  /** The state of a thread that has joined the wait list of s, about to call `schedule`. */
  function Asleep(k: Kernel, s: SemId): Kernel
    requires s in k.sems
  {
    SetStatus(k, k.current, Blocked).(
      sems := k.sems[s := k.sems[s].(waiters := k.sems[s].waiters + [k.current])],
      downing := k.downing[k.current := s])
  }

  /** The while-test of `sema_down` and what follows it: take a unit, or join the wait list. */
  function DownSection(k: Kernel, s: SemId): Kernel
    requires s in k.sems
  {
    var sem := k.sems[s];
    if sem.value == 0 then
      Schedule(Asleep(k, s))
    else
      k.(sems := k.sems[s := sem.(value := sem.value - 1)], downing := k.downing - {k.current})
  }

  function UpSection(k: Kernel, s: SemId): Kernel
    requires s in k.sems
  {
    var sem := k.sems[s];
    if |sem.waiters| == 0 then k.(sems := k.sems[s := sem.(value := sem.value + 1)])
    else MakeReady(k, sem.waiters[0]).(
      sems := k.sems[s := Semaphore(sem.value + 1, sem.waiters[1..])])
  }

  function Apply(k: Kernel, step: Step): Kernel
    requires Enabled(k, step)
  {
    match step
    case Yield => Schedule(Yielding(k))
    case Block => Schedule(SetStatus(k, k.current, Blocked))
    case Unblock(t) => MakeReady(k, t)
    case Create(t) => SetStatus(k, t, Blocked)
    case Exit => Schedule(SetStatus(k, k.current, Dying))
    case Down(s) => DownSection(k, s)
    case TryDown(s) =>
      var sem := k.sems[s];
      if sem.value > 0 then k.(sems := k.sems[s := sem.(value := sem.value - 1)]) else k
    case Up(s) => UpSection(k, s)
  }

  /** What can happen next. A thread that comes back from sleeping in `sema_down` runs with
      interrupts off until it has tested the value again. The idle thread only blocks, and hosts
      interrupt handlers. A thread is unblocked by hand only if it blocked by hand. */
  predicate Enabled(k: Kernel, step: Step) {
    && (step.Down? || step.TryDown? || step.Up? ==> step.s in k.sems)
    && (k.current in k.downing ==> step == Down(k.downing[k.current]))
    && (k.current == k.idle ==> !step.Down? && !step.Exit? && !step.Create?)
    && (step.Unblock? ==> step.t in k.status && k.status[step.t] == Blocked && step.t !in k.downing && step.t != k.idle)
    && (step.Create? ==> step.t !in k.status)
  }

  /** Does the step call `schedule`? */
  predicate Schedules(k: Kernel, step: Step)
    requires Enabled(k, step)
  {
    step.Yield? || step.Block? || step.Exit? || (step.Down? && k.sems[step.s].value == 0)
  }

  // ---------- The invariant ----------

  /** Exactly one thread is running, and it is the current one. */
  ghost predicate OneRunning(k: Kernel) {
    && k.current in k.status && k.status[k.current] == Running
    && (forall t :: t in k.status && k.status[t] == Running ==> t == k.current)
    && k.idle in k.status && k.status[k.idle] != Dying
    && (forall t :: t in k.status && k.status[t] == Dying ==> t == k.initial)
  }

  /** The ready list holds exactly the ready threads other than idle, each once. */
  ghost predicate ReadyListExact(k: Kernel) {
    && NoDuplicates(k.ready)
    && (forall t :: t in k.ready <==> t in k.status && k.status[t] == Ready && t != k.idle)
  }

  /** A wait list holds exactly the threads asleep on that semaphore, each once. */
  ghost predicate WaitListExact(k: Kernel, s: SemId)
    requires s in k.sems
  {
    && NoDuplicates(k.sems[s].waiters)
    && (forall t :: t in k.sems[s].waiters <==>
          t in k.downing && k.downing[t] == s && t in k.status && k.status[t] == Blocked)
  }

  ghost predicate WaitListsExact(k: Kernel) {
    && (forall s :: s in k.sems ==> WaitListExact(k, s))
    && (forall t :: t in k.downing ==>
          k.downing[t] in k.sems && t in k.status && k.status[t] != Dying && t != k.idle)
  }

  /** Threads that were woken from the semaphore and have not tested its value since. */
  ghost function Woken(k: Kernel, s: SemId): set<Tid> {
    set t | t in k.downing && k.downing[t] == s && t in k.status && k.status[t] != Blocked
  }

  /** No wakeup is lost: while someone sleeps, every unit is spoken for by a woken thread. */
  ghost predicate NoLostWakeup(k: Kernel, s: SemId)
    requires s in k.sems
  {
    k.sems[s].waiters != [] ==> k.sems[s].value <= |Woken(k, s)|
  }

  ghost predicate WaitsInv(k: Kernel) {
    && WaitListsExact(k)
    && forall s :: s in k.sems ==> NoLostWakeup(k, s)
  }

  ghost predicate Inv(k: Kernel) {
    && OneRunning(k)
    && ReadyListExact(k)
    && WaitsInv(k)
  }

  // ---------- Preservation ----------

  /** The state a thread leaves behind just before it calls `schedule`. */
  ghost predicate AboutToSchedule(k: Kernel) {
    && k.current in k.status && k.status[k.current] != Running
    && (forall t :: t in k.status ==> k.status[t] != Running)
    && k.idle in k.status && k.status[k.idle] != Dying
    && (forall t :: t in k.status && k.status[t] == Dying ==> t == k.initial || t == k.current)
    && ReadyListExact(k)
    && WaitsInv(k)
  }

  ghost predicate SemInv(k: Kernel, s: SemId)
    requires s in k.sems
  {
    WaitListExact(k, s) && NoLostWakeup(k, s)
  }

  /** What is said of one semaphore depends only on its fields and on its downing threads. */
  lemma SemUntouched(k: Kernel, k': Kernel, s: SemId)
    requires s in k.sems && SemInv(k, s) && s in k'.sems && k'.sems[s] == k.sems[s]
    requires forall t :: (t in k.downing && k.downing[t] == s) <==> (t in k'.downing && k'.downing[t] == s)
    requires forall t :: t in k.downing && k.downing[t] == s ==>
               t in k.status && t in k'.status && (k'.status[t] == Blocked <==> k.status[t] == Blocked)
    ensures SemInv(k', s)
  {
    assert Woken(k', s) == Woken(k, s);
  }

  lemma WaitsUntouched(k: Kernel, k': Kernel)
    requires WaitsInv(k) && k'.sems == k.sems && k'.downing == k.downing && k'.idle == k.idle
    requires forall t :: t in k.downing ==>
      t in k'.status && k'.status[t] != Dying && (k'.status[t] == Blocked <==> k.status[t] == Blocked)
    ensures WaitsInv(k')
  {
    forall s | s in k'.sems ensures SemInv(k', s) {
      assert WaitListExact(k, s) && NoLostWakeup(k, s);
      SemUntouched(k, k', s);
    }
  }

  lemma ScheduleKeepsWaits(k: Kernel)
    requires AboutToSchedule(k)
    ensures WaitsInv(Schedule(k))
  {
    if |k.ready| > 0 { assert k.ready[0] in k.ready; }
    WaitsUntouched(k, Schedule(k));
  }

  lemma ScheduleKeepsInv(k: Kernel)
    requires AboutToSchedule(k)
    ensures Inv(Schedule(k))
  {
    PopKeepsReadyList(k);
    ScheduleKeepsWaits(k);
  }

  lemma PopKeepsReadyList(k: Kernel)
    requires AboutToSchedule(k)
    ensures OneRunning(Schedule(k)) && ReadyListExact(Schedule(k))
  {
    var k' := Schedule(k);
    if |k.ready| > 0 {
      assert k.ready[0] in k.ready;
      forall t ensures t in k'.ready <==> t in k.ready && t != k.ready[0] {
        if t in k.ready && t != k.ready[0] {
          var i :| 0 <= i < |k.ready| && k.ready[i] == t;
          assert k'.ready[i - 1] == t;
        }
      }
    }
  }

  lemma YieldLeavesCleanly(k: Kernel)
    requires Inv(k) && k.current !in k.downing
    ensures AboutToSchedule(Yielding(k))
  {
    WaitsUntouched(k, Yielding(k));
  }

  lemma YieldKeepsInv(k: Kernel)
    requires Inv(k) && Enabled(k, Yield)
    ensures Inv(Apply(k, Yield))
  {
    YieldLeavesCleanly(k);
    ScheduleKeepsInv(Yielding(k));
  }

  lemma LeaveKeepsInv(k: Kernel, st: Status)
    requires Inv(k) && k.current !in k.downing
    requires st == Blocked || (st == Dying && k.current != k.idle)
    ensures Inv(Schedule(SetStatus(k, k.current, st)))
  {
    var k1 := SetStatus(k, k.current, st);
    WaitsUntouched(k, k1);
    ScheduleKeepsInv(k1);
  }

  lemma UnblockKeepsInv(k: Kernel, t: Tid)
    requires Inv(k) && Enabled(k, Unblock(t))
    ensures Inv(Apply(k, Unblock(t)))
  {
    var k' := MakeReady(k, t);
    WaitsUntouched(k, k');
  }

  lemma CreateKeepsInv(k: Kernel, t: Tid)
    requires Inv(k) && Enabled(k, Create(t))
    ensures Inv(Apply(k, Create(t)))
  {
    var k' := Apply(k, Create(t));
    WaitsUntouched(k, k');
  }

  lemma DownKeepsInv(k: Kernel, s: SemId)
    requires Inv(k) && Enabled(k, Down(s))
    ensures Inv(Apply(k, Down(s)))
  {
    if k.sems[s].value == 0 {
      SleepKeepsInv(k, s);
    } else {
      TakeKeepsInv(k, s);
    }
  }

  lemma AsleepThreads(k: Kernel, s: SemId)
    requires OneRunning(k) && ReadyListExact(k) && Enabled(k, Down(s))
    ensures var k1 := Asleep(k, s);
            && k1.current in k1.status && (forall t :: t in k1.status ==> k1.status[t] != Running)
            && k1.idle in k1.status && k1.status[k1.idle] != Dying
            && (forall t :: t in k1.status && k1.status[t] == Dying ==> t == k1.initial || t == k1.current)
            && ReadyListExact(k1)
  {
  }

  lemma AsleepElsewhere(k: Kernel, s: SemId, r: SemId)
    requires Inv(k) && Enabled(k, Down(s)) && k.sems[s].value == 0 && r in k.sems && r != s
    ensures SemInv(Asleep(k, s), r)
  {
    assert WaitListExact(k, r) && NoLostWakeup(k, r);
    SemUntouched(k, Asleep(k, s), r);
  }

  lemma AsleepWaits(k: Kernel, s: SemId)
    requires Inv(k) && Enabled(k, Down(s)) && k.sems[s].value == 0
    ensures WaitsInv(Asleep(k, s))
  {
    var k1 := Asleep(k, s);
    forall r | r in k1.sems ensures SemInv(k1, r) {
      if r != s {
        AsleepElsewhere(k, s, r);
      } else {
        assert WaitListExact(k, s);
        AsleepOnSem(k, s);
      }
    }
  }

  lemma AsleepLeavesCleanly(k: Kernel, s: SemId)
    requires Inv(k) && Enabled(k, Down(s)) && k.sems[s].value == 0
    ensures AboutToSchedule(Asleep(k, s))
  {
    AsleepThreads(k, s);
    AsleepWaits(k, s);
  }

  lemma AsleepOnSem(k: Kernel, s: SemId)
    requires OneRunning(k) && Enabled(k, Down(s)) && k.sems[s].value == 0 && WaitListExact(k, s)
    ensures SemInv(Asleep(k, s), s)
  {
  }

  lemma SleepKeepsInv(k: Kernel, s: SemId)
    requires Inv(k) && Enabled(k, Down(s)) && k.sems[s].value == 0
    ensures Inv(DownSection(k, s))
  {
    AsleepLeavesCleanly(k, s);
    ScheduleKeepsInv(Asleep(k, s));
  }

  lemma TakeKeepsInv(k: Kernel, s: SemId)
    requires Inv(k) && Enabled(k, Down(s)) && k.sems[s].value > 0
    ensures Inv(DownSection(k, s))
  {
    var k' := DownSection(k, s);
    TakeFromSem(k, s);
    forall r | r in k'.sems ensures SemInv(k', r) {
      assert WaitListExact(k, r) && NoLostWakeup(k, r);
      if r != s { SemUntouched(k, k', r); }
    }
  }

  /** Taking a unit: a woken taker leaves the woken set, a barging one leaves it as it was, and
      either way the value falls by one. */
  lemma TakeFromSem(k: Kernel, s: SemId)
    requires Inv(k) && Enabled(k, Down(s)) && k.sems[s].value > 0
    ensures SemInv(DownSection(k, s), s)
  {
    assert WaitListExact(k, s) && NoLostWakeup(k, s);
    assert Woken(DownSection(k, s), s) == Woken(k, s) - {k.current};
  }

  lemma TryDownKeepsInv(k: Kernel, s: SemId)
    requires Inv(k) && Enabled(k, TryDown(s))
    ensures Inv(Apply(k, TryDown(s)))
  {
    var k' := Apply(k, TryDown(s));
    forall r | r in k'.sems ensures SemInv(k', r) {
      assert WaitListExact(k, r) && NoLostWakeup(k, r);
      if r != s { SemUntouched(k, k', r); } else { assert Woken(k', r) == Woken(k, r); }
    }
  }

  lemma UpKeepsThreads(k: Kernel, s: SemId)
    requires Inv(k) && s in k.sems
    ensures OneRunning(UpSection(k, s)) && ReadyListExact(UpSection(k, s)) && UpSection(k, s).idle == k.idle
  {
    UpOnSem(k, s);
  }

  lemma UpKeepsOtherSem(k: Kernel, s: SemId, r: SemId)
    requires Inv(k) && s in k.sems && r in k.sems && r != s
    ensures SemInv(UpSection(k, s), r)
  {
    assert WaitListExact(k, r) && NoLostWakeup(k, r);
    UpOnSem(k, s);
    SemUntouched(k, UpSection(k, s), r);
  }

  lemma UpKeepsWaits(k: Kernel, s: SemId)
    requires Inv(k) && s in k.sems
    ensures WaitsInv(UpSection(k, s))
  {
    UpOnSem(k, s);
    forall r | r in k.sems && r != s ensures SemInv(UpSection(k, s), r) { UpKeepsOtherSem(k, s, r); }
  }

  lemma UpKeepsInv(k: Kernel, s: SemId)
    requires Inv(k) && Enabled(k, Up(s))
    ensures Inv(Apply(k, Up(s)))
  {
    UpKeepsThreads(k, s);
    UpKeepsWaits(k, s);
  }

  /** Waking the first sleeper: the thread that `thread_unblock` insists is blocked is blocked, and
      the woken set grows with the value. */
  lemma UpOnSem(k: Kernel, s: SemId)
    requires Inv(k) && s in k.sems
    ensures SemInv(UpSection(k, s), s)
    ensures k.sems[s].waiters != [] ==>
              var t := k.sems[s].waiters[0];
              t in k.status && k.status[t] == Blocked && t in k.downing && k.downing[t] == s
  {
    var waiters := k.sems[s].waiters;
    assert WaitListExact(k, s) && NoLostWakeup(k, s);
    if waiters != [] {
      assert waiters[0] in waiters;
      PopFront(waiters);
      assert Woken(UpSection(k, s), s) == Woken(k, s) + {waiters[0]};
    } else {
      assert Woken(UpSection(k, s), s) == Woken(k, s);
    }
  }

  /** Every step keeps the invariant. */
  lemma StepKeepsInv(k: Kernel, step: Step)
    requires Inv(k) && Enabled(k, step)
    ensures Inv(Apply(k, step))
  {
    match step
    case Yield => YieldKeepsInv(k);
    case Block => LeaveKeepsInv(k, Blocked);
    case Unblock(t) => UnblockKeepsInv(k, t);
    case Create(t) => CreateKeepsInv(k, t);
    case Exit => LeaveKeepsInv(k, Dying);
    case Down(s) => DownKeepsInv(k, s);
    case TryDown(s) => TryDownKeepsInv(k, s);
    case Up(s) => UpKeepsInv(k, s);
  }

  // ---------- Runs ----------

  predicate EnabledRun(k: Kernel, steps: seq<Step>)
    decreases |steps|
  {
    steps == [] || (Enabled(k, steps[0]) && EnabledRun(Apply(k, steps[0]), steps[1..]))
  }

  function Run(k: Kernel, steps: seq<Step>): Kernel
    requires EnabledRun(k, steps)
    decreases |steps|
  {
    if steps == [] then k else Run(Apply(k, steps[0]), steps[1..])
  }

  lemma {:induction false} RunKeepsInv(k: Kernel, steps: seq<Step>)
    requires Inv(k) && EnabledRun(k, steps)
    ensures Inv(Run(k, steps))
    decreases |steps|
  {
    if steps != [] {
      StepKeepsInv(k, steps[0]);
      RunKeepsInv(Apply(k, steps[0]), steps[1..]);
    }
  }

  /** The kernel once idle has started: only the initial thread runs, nothing waits. */
  lemma BootInv(initial: Tid, idle: Tid, sems: map<SemId, Semaphore>)
    requires initial != idle && forall s :: s in sems ==> sems[s].waiters == []
    ensures Inv(Kernel(initial, [], map[initial := Running, idle := Blocked], idle, initial, sems, map[]))
  {
  }

  /** The `elem` member of a thread is on at most one list, and there at most once. */
  lemma ElemOnOneList(k: Kernel, t: Tid)
    requires Inv(k)
    ensures NoDuplicates(k.ready) && forall s :: s in k.sems ==> NoDuplicates(k.sems[s].waiters)
    ensures t in k.ready ==> forall s :: s in k.sems ==> t !in k.sems[s].waiters
    ensures forall r, s :: r in k.sems && s in k.sems && t in k.sems[r].waiters && t in k.sems[s].waiters ==> r == s
  {
    forall s | s in k.sems ensures WaitListExact(k, s) {}
  }

  /** A sleeper with a free unit is never stranded: a woken thread holds its place in the ready
      list, or is running, and will test the value next time it runs. */
  lemma FreeUnitHasTaker(k: Kernel, s: SemId) returns (t: Tid)
    requires Inv(k) && s in k.sems && k.sems[s].waiters != [] && k.sems[s].value > 0
    ensures t in k.downing && k.downing[t] == s && (t in k.ready || t == k.current)
  {
    assert NoLostWakeup(k, s);
    assert |Woken(k, s)| > 0;
    t :| t in Woken(k, s);
    assert k.status[t] == Ready || k.status[t] == Running;
  }

  // ---------- Conservation ----------

  /** Units put in by the steps of a run: one for each up. */
  function Ups(s: SemId, steps: seq<Step>): nat {
    if steps == [] then 0 else (if steps[0] == Up(s) then 1 else 0) + Ups(s, steps[1..])
  }

  /** Units taken out: one for each down or successful try that finds the value positive. */
  function CompletedDowns(k: Kernel, s: SemId, steps: seq<Step>): nat
    requires EnabledRun(k, steps)
    decreases |steps|
  {
    if steps == [] then 0
    else (if steps[0] in {Down(s), TryDown(s)} && k.sems[s].value > 0 then 1 else 0)
         + CompletedDowns(Apply(k, steps[0]), s, steps[1..])
  }

  /** A semaphore's value is what it started with, plus the ups, minus the completed downs. */
  lemma {:induction false} ValueConservation(k: Kernel, s: SemId, steps: seq<Step>)
    requires EnabledRun(k, steps) && s in k.sems
    ensures s in Run(k, steps).sems
    ensures Run(k, steps).sems[s].value + CompletedDowns(k, s, steps) == k.sems[s].value + Ups(s, steps)
    decreases |steps|
  {
    if steps != [] {
      ValueConservation(Apply(k, steps[0]), s, steps[1..]);
    }
  }

  // ---------- Round robin ----------

  /** How often a run calls `schedule`. */
  function ScheduleCount(k: Kernel, steps: seq<Step>): nat
    requires EnabledRun(k, steps)
    decreases |steps|
  {
    if steps == [] then 0
    else (if Schedules(k, steps[0]) then 1 else 0) + ScheduleCount(Apply(k, steps[0]), steps[1..])
  }

  /** A thread in the ready list keeps its place when no one is scheduled, moves up one place when
      someone is, and runs when it was first. */
  lemma ReadyPositionStep(k: Kernel, step: Step, i: nat)
    requires Inv(k) && Enabled(k, step) && i < |k.ready|
    ensures var k' := Apply(k, step);
            if !Schedules(k, step) then i < |k'.ready| && k'.ready[i] == k.ready[i] && k'.current == k.current
            else if i == 0 then k'.current == k.ready[0]
            else i - 1 < |k'.ready| && k'.ready[i - 1] == k.ready[i] && k'.current == k.ready[0]
  {
  }

  lemma {:induction false} WaitsItsTurn(k: Kernel, steps: seq<Step>, i: nat)
    requires Inv(k) && EnabledRun(k, steps) && i < |k.ready| && ScheduleCount(k, steps) <= i
    ensures var k', j := Run(k, steps), i - ScheduleCount(k, steps);
            j < |k'.ready| && k'.ready[j] == k.ready[i] && k'.current != k.ready[i]
    decreases |steps|
  {
    assert k.ready[i] in k.ready;
    if steps != [] {
      var k' := Apply(k, steps[0]);
      StepKeepsInv(k, steps[0]);
      ReadyPositionStep(k, steps[0], i);
      WaitsItsTurn(k', steps[1..], if Schedules(k, steps[0]) then i - 1 else i);
    }
  }

  /** The thread at position i of the ready list runs at exactly the (i+1)-th later schedule: it
      does not run in any run with at most i of them, and the next one after that runs it. */
  lemma RoundRobin(k: Kernel, steps: seq<Step>, i: nat, last: Step)
    requires Inv(k) && EnabledRun(k, steps) && i < |k.ready|
    ensures ScheduleCount(k, steps) <= i ==> Run(k, steps).current != k.ready[i]
    ensures ScheduleCount(k, steps) == i && Enabled(Run(k, steps), last) && Schedules(Run(k, steps), last) ==>
              Apply(Run(k, steps), last).current == k.ready[i]
  {
    if ScheduleCount(k, steps) <= i {
      WaitsItsTurn(k, steps, i);
      RunKeepsInv(k, steps);
      if ScheduleCount(k, steps) == i && Enabled(Run(k, steps), last) {
        ReadyPositionStep(Run(k, steps), last, 0);
      }
    }
  }

  // ---------- Waiting lists in turn ----------

  /** A sleeper keeps its place in the wait list except at an up, which moves it up one place. */
  lemma WaitPositionStep(k: Kernel, step: Step, s: SemId, i: nat)
    requires Enabled(k, step) && s in k.sems && i < |k.sems[s].waiters| && (step == Up(s) ==> i > 0)
    ensures s in Apply(k, step).sems
    ensures var waiters, j := Apply(k, step).sems[s].waiters, if step == Up(s) then i - 1 else i;
            j < |waiters| && waiters[j] == k.sems[s].waiters[i]
  {
  }

  /** The first one it takes off the list and puts at the end of the ready list. */
  lemma UpWakesFirst(k: Kernel, s: SemId)
    requires Inv(k) && Enabled(k, Up(s)) && k.sems[s].waiters != []
    ensures var k', t := Apply(k, Up(s)), k.sems[s].waiters[0];
            && s in k'.sems && t !in k'.sems[s].waiters && k'.ready == k.ready + [t]
            && t in k'.status && k'.status[t] == Ready
  {
    assert WaitListExact(k, s);
  }

  /** A sleeper is neither ready nor running. */
  lemma SleeperIsOff(k: Kernel, s: SemId, t: Tid)
    requires Inv(k) && s in k.sems && t in k.sems[s].waiters
    ensures t !in k.ready && k.current != t && t in k.status && k.status[t] == Blocked
  {
    assert WaitListExact(k, s);
  }

  lemma {:induction false} SleepsInTurn(k: Kernel, steps: seq<Step>, s: SemId, i: nat)
    requires EnabledRun(k, steps) && s in k.sems && i < |k.sems[s].waiters| && Ups(s, steps) <= i
    ensures s in Run(k, steps).sems
    ensures var k', j := Run(k, steps), i - Ups(s, steps);
            j < |k'.sems[s].waiters| && k'.sems[s].waiters[j] == k.sems[s].waiters[i]
    decreases |steps|
  {
    if steps != [] {
      WaitPositionStep(k, steps[0], s, i);
      SleepsInTurn(Apply(k, steps[0]), steps[1..], s, if steps[0] == Up(s) then i - 1 else i);
    }
  }

  /** The thread at position i of a wait list is woken by exactly the (i+1)-th later up: it is asleep
      after any run with at most i of them, and the next one after i puts it on the ready list. */
  lemma WokenInTurn(k: Kernel, steps: seq<Step>, s: SemId, i: nat)
    requires Inv(k) && EnabledRun(k, steps) && s in k.sems && i < |k.sems[s].waiters|
    ensures var k', t := Run(k, steps), k.sems[s].waiters[i];
            Ups(s, steps) <= i ==> t !in k'.ready && k'.current != t && t in k'.status && k'.status[t] == Blocked
    ensures var k', t := Run(k, steps), k.sems[s].waiters[i];
            Ups(s, steps) == i && Enabled(k', Up(s)) ==> Apply(k', Up(s)).ready == k'.ready + [t]
  {
    if Ups(s, steps) <= i {
      var k' := Run(k, steps);
      RunKeepsInv(k, steps);
      SleepsInTurn(k, steps, s, i);
      SleeperIsOff(k', s, k'.sems[s].waiters[i - Ups(s, steps)]);
      if Ups(s, steps) == i && Enabled(k', Up(s)) { UpWakesFirst(k', s); }
    }
  }

  // ---------- What a step does to threads ----------

  /** Giving up the processor: the threads that were ready, and behind them the one that yields, run in
      that order; idle runs when there is none. */
  lemma NextInLine(k: Kernel, step: Step)
    requires Inv(k) && Enabled(k, step)
    requires step.Yield? || step.Block? || step.Exit? || (step.Down? && k.sems[step.s].value == 0)
    ensures var k' := Apply(k, step);
            var line := if step.Yield? && k.current != k.idle then k.ready + [k.current] else k.ready;
            if line == [] then k'.current == k.idle && k'.ready == [] else [k'.current] + k'.ready == line
  {
  }

  /** What has become of the thread that has given it up. */
  lemma SwitchedFrom(k: Kernel, step: Step)
    requires Inv(k) && Enabled(k, step) && Apply(k, step).current != k.current
    ensures var k', t := Apply(k, step), k.current;
            match step
            case Yield => t in k'.status && k'.status[t] == Ready
            case Block => t in k'.status && k'.status[t] == Blocked && k'.downing == k.downing && k'.sems == k.sems
            case Exit => if t == k.initial then t in k'.status && k'.status[t] == Dying else t !in k'.status
            case Down(s) => t in k'.status && k'.status[t] == Blocked
                            && k'.sems == k.sems[s := Semaphore(0, k.sems[s].waiters + [t])]
            case _ => false
  {
  }

  /** Sections that do not switch threads. */
  lemma StaysRunning(k: Kernel, step: Step)
    requires Inv(k) && Enabled(k, step)
    ensures var k' := Apply(k, step);
            match step
            case Unblock(t) => k'.current == k.current && k'.ready == k.ready + [t] && k'.status[t] == Ready
            case Create(t) =>
              k'.current == k.current && k'.ready == k.ready && t in k'.status && k'.status[t] == Blocked
            case TryDown(_) => k'.current == k.current && k'.ready == k.ready && k'.status == k.status
            case Up(s) => k'.current == k.current && (k.sems[s].waiters == [] ==> k'.ready == k.ready)
            case Down(s) => k.sems[s].value > 0 ==>
                              k'.current == k.current && k'.ready == k.ready && k.current !in k'.downing
            case _ => true
  {
  }

  /** The thread a step is for, if it is for one. */
  function Subject(k: Kernel, step: Step): set<Tid>
    requires Enabled(k, step)
  {
    match step
    case Unblock(t) => {t}
    case Create(t) => {t}
    case Up(s) => if k.sems[s].waiters == [] then {} else {k.sems[s].waiters[0]}
    case _ => {}
  }

  /** All other threads stay as they are. */
  lemma OthersStay(k: Kernel, step: Step, t: Tid)
    requires Enabled(k, step) && t != k.current && t != Apply(k, step).current && t !in Subject(k, step)
    ensures t in Apply(k, step).status <==> t in k.status
    ensures t in k.status ==> Apply(k, step).status[t] == k.status[t]
  {
  }

  /** So do the semaphores that a step is not about. */
  lemma OtherSemsStay(k: Kernel, step: Step, s: SemId)
    requires Enabled(k, step) && s in k.sems && step !in {Down(s), TryDown(s), Up(s)}
    ensures s in Apply(k, step).sems && Apply(k, step).sems[s] == k.sems[s]
  {
  }
}
