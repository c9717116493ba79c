/** The scheduler and semaphore routines in the form the source gives them: functions that update
    the ready list, thread states and semaphores in place (pintos/src/threads/thread.c,
    pintos/src/threads/synch.c). Each is proved to take the corresponding step of module Scheduler,
    and therefore to keep its invariant. */
module Threads {
  import opened Scheduler

  class ThreadSystem {
    var current: Tid
    var readyList: seq<Tid>
    var status: map<Tid, Status>
    var idleThread: Tid
    var initialThread: Tid
    var sems: map<SemId, Semaphore>
    var downing: map<Tid, SemId>

    ghost function State(): Kernel
      reads this
    {
      Kernel(current, readyList, status, idleThread, initialThread, sems, downing)
    }

    /** The system as `thread_start` leaves it: the initial thread running, idle started and blocked. */
    constructor (initial: Tid, idle: Tid, initialValues: map<SemId, nat>)
      requires initial != idle
      ensures Inv(State()) && current == initial && readyList == []
      ensures sems.Keys == initialValues.Keys
      ensures forall s :: s in sems ==> sems[s] == Semaphore(initialValues[s], [])
    {
      current, readyList, idleThread, initialThread := initial, [], idle, initial;
      status := map[initial := Running, idle := Blocked];
      sems := map s | s in initialValues :: Semaphore(initialValues[s], []);
      downing := map[];
      new;
      BootInv(initial, idle, sems);
    }

    method NextThreadToRun() returns (next: Tid)
      modifies this`readyList
      ensures next == if old(readyList) == [] then idleThread else old(readyList)[0]
      ensures readyList == if old(readyList) == [] then [] else old(readyList)[1..]
    {
      if |readyList| == 0 {
        next := idleThread;
      } else {
        next := readyList[0];
        readyList := readyList[1..];
      }
    }

    /** `schedule` with the switch and `schedule_tail`: the caller has already left the running state. */
    method ScheduleNext()
      requires AboutToSchedule(State())
      modifies this
      ensures State() == Schedule(old(State())) && Inv(State())
    {
      ScheduleKeepsInv(State());
      var prev := current;
      var next := NextThreadToRun();
      var dying := prev != next && status[prev] == Dying && prev != initialThread;
      current := next;
      status := status[next := Running];
      if dying {
        status := status - {prev};
      }
    }

    method ThreadBlock()
      requires Inv(State()) && current !in downing
      modifies this
      ensures State() == Apply(old(State()), Block) && Inv(State())
    {
      WaitsUntouched(State(), SetStatus(State(), current, Blocked));
      status := status[current := Blocked];
      ScheduleNext();
    }

    method ThreadUnblock(t: Tid)
      requires t in status && status[t] == Blocked
      modifies this`readyList, this`status
      ensures State() == MakeReady(old(State()), t)
    {
      readyList := readyList + [t];
      status := status[t := Ready];
    }

    method ThreadYield()
      requires Inv(State()) && current !in downing
      modifies this
      ensures State() == Apply(old(State()), Yield) && Inv(State())
    {
      YieldLeavesCleanly(State());
      if current != idleThread {
        readyList := readyList + [current];
      }
      status := status[current := Ready];
      ScheduleNext();
    }

    method ThreadExit()
      requires Inv(State()) && current !in downing && current != idleThread
      modifies this
      ensures State() == Apply(old(State()), Exit) && Inv(State())
    {
      WaitsUntouched(State(), SetStatus(State(), current, Dying));
      status := status[current := Dying];
      ScheduleNext();
    }

    /** One pass of the loop in `sema_down`. If it returns true the caller has the unit; otherwise
        it is asleep, another thread is running, and the pass is repeated when it runs again. */
    method SemaDownPass(s: SemId) returns (taken: bool)
      requires Inv(State()) && Enabled(State(), Down(s))
      modifies this
      ensures State() == Apply(old(State()), Down(s)) && Inv(State())
      ensures taken <==> old(sems[s].value) > 0
    {
      StepKeepsInv(State(), Down(s));
      taken := sems[s].value > 0;
      if !taken {
        AsleepLeavesCleanly(State(), s);
        SemaSleep(s);
      } else {
        sems := sems[s := Semaphore(sems[s].value - 1, sems[s].waiters)];
        downing := downing - {current};
      }
    }

    /** The wait inside `sema_down`: onto the wait list and blocked. */
    method SemaSleep(s: SemId)
      requires s in sems && AboutToSchedule(Asleep(State(), s))
      modifies this
      ensures State() == Schedule(Asleep(old(State()), s))
    {
      sems := sems[s := Semaphore(sems[s].value, sems[s].waiters + [current])];
      downing := downing[current := s];
      status := status[current := Blocked];
      ScheduleNext();
    }

    method SemaTryDown(s: SemId) returns (success: bool)
      requires Inv(State()) && Enabled(State(), TryDown(s))
      modifies this`sems
      ensures State() == Apply(old(State()), TryDown(s)) && Inv(State())
      ensures success <==> old(sems[s].value) > 0
    {
      TryDownKeepsInv(State(), s);
      success := sems[s].value > 0;
      if success {
        sems := sems[s := Semaphore(sems[s].value - 1, sems[s].waiters)];
      }
    }

    method SemaUp(s: SemId)
      requires Inv(State()) && Enabled(State(), Up(s))
      modifies this
      ensures State() == Apply(old(State()), Up(s)) && Inv(State())
    {
      UpKeepsInv(State(), s);
      UpOnSem(State(), s);
      var sem := sems[s];
      if |sem.waiters| != 0 {
        sem := Semaphore(sem.value, sem.waiters[1..]);
        ThreadUnblock(sems[s].waiters[0]);
      }
      sems := sems[s := Semaphore(sem.value + 1, sem.waiters)];
    }
  }
}
