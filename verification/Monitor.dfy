/** Locks, condition variables and the synchronised list built on them
    (pintos/src/threads/synch.c, pintos/src/threads/synchlist.c), with any number of threads
    appending and removing. Only the semaphores run with interrupts off; everywhere else another
    thread can come in between. So each part of `lock_acquire`, `lock_release`, `cond_wait` and
    `cond_signal` is a step of its own, and so are the looking at a list and the changing of it in
    `list_push_back` and `list_pop_front`: nothing but the lock keeps what a thread has read of a
    list true until it writes. A run is any interleaving of the steps. */
module Monitor {
  import opened Options
  import opened Sequences

  type Tid = nat
  type Item = int

  /** Why a thread takes the lock: to append, to remove, to wake all who wait for items, or to
      return from `cond_wait`. */
  datatype Op = Append(item: Item) | Remove | WakeAll | Resume

  /** Where a thread stands; each value names the part it executes next, or where it sleeps. What a
      thread has read of a list and not yet acted on, it carries with it. */
  datatype PC =
    | Outside
    | Acquiring(op: Op)       // test the lock's semaphore for the first time
    | LockAsleep(op: Op)      // on the lock's wait list
    | LockWoken(op: Op)       // woken from it, to test again
    | PastDown(op: Op)        // `sema_down` done, set `holder`
    | Entered(op: Op)         // holds the lock: look at the list
    | Pushing(item: Item, seen: seq<Item>)  // `list_push_back`: link the item behind those seen
    | Found(op: Op)           // the list was not empty: read its head
    | Popping(op: Op, item: Item, rest: seq<Item>)  // `list_pop_front`: unlink the head read
    | Signalling(all: bool)   // `cond_signal`: test for waiters; `all` if within `cond_broadcast`
    | Broadcasting            // `cond_broadcast`: test for waiters
    | Selecting(all: bool)    // there were waiters: read the first
    | Taking(waiter: Tid, queue: seq<Tid>, all: bool)  // unlink the waiter read
    | Popped(waiter: Tid, all: bool)                   // up the semaphore of the waiter taken
    | MustWait                // `cond_wait`: make a fresh waiter and look at the queue
    | Enqueueing(queue: seq<Tid>)  // link the waiter behind those seen
    | Enqueued                // `lock_release` in `cond_wait`: clear `holder`
    | WaitUnheld              // `lock_release` in `cond_wait`: up the lock's semaphore
    | CondTest                // `cond_wait`: test the waiter's semaphore for the first time
    | CondAsleep              // asleep on it
    | CondWoken               // woken from it, to test again
    | Leaving(result: Option<Item>)  // `lock_release`: clear `holder`
    | Unheld(result: Option<Item>)   // `lock_release`: up the lock's semaphore, and return
    | Panicked                // an assertion of the list library failed

  /** The shared state. `wake` is the value of the private semaphore of each thread's waiter. The
      others record history: items in the order linked, who unlinked which item in what order, what
      each thread's calls of `sl_remove` have returned, and threads in the order they queued on the
      condition and in the order signals took them from it. */
  datatype State = State(
    lockValue: nat,
    lockWaiters: seq<Tid>,
    holder: Option<Tid>,
    condWaiters: seq<Tid>,
    wake: map<Tid, nat>,
    items: seq<Item>,
    pc: map<Tid, PC>,
    appended: seq<Item>,
    taken: seq<(Tid, Item)>,
    returned: map<Tid, seq<Item>>,
    queued: seq<Tid>,
    signalled: seq<Tid>)

  // ---------- The steps ----------

  function At(m: State, t: Tid, pc: PC): State {
    m.(pc := m.pc[t := pc])
  }

  function Wake(m: State, t: Tid): nat {
    if t in m.wake then m.wake[t] else 0
  }

  function Returned(m: State, t: Tid): seq<Item> {
    if t in m.returned then m.returned[t] else []
  }

  /** The while-test of `sema_down` on the lock's semaphore. */
  function LockTest(m: State, t: Tid, op: Op): State {
    if m.lockValue == 0 then At(m, t, LockAsleep(op)).(lockWaiters := m.lockWaiters + [t])
    else At(m, t, PastDown(op)).(lockValue := m.lockValue - 1)
  }

  function Awakened(pc: PC): PC {
    match pc
    case LockAsleep(op) => LockWoken(op)
    case CondAsleep => CondWoken
    case _ => pc
  }

  /** `sema_up` on the lock's semaphore by t, which goes on to `next`. */
  function LockUp(m: State, t: Tid, next: PC): State {
    var m1 := At(m, t, next).(lockValue := m.lockValue + 1);
    if m.lockWaiters == [] then m1
    else
      var w := m.lockWaiters[0];
      (if w in m.pc then At(m1, w, Awakened(m.pc[w])) else m1).(lockWaiters := m.lockWaiters[1..])
  }

  function SetHolder(m: State, t: Tid, op: Op): State {
    At(m, t, Entered(op)).(holder := Some(t))
  }

  function ClearHolder(m: State, t: Tid, next: PC): State {
    At(m, t, next).(holder := None)
  }

  /** The last part of `lock_release`, after which `sl_remove` returns what it took. */
  function Return(m: State, t: Tid, result: Option<Item>): State {
    var m1 := LockUp(m, t, Outside);
    if result.None? then m1 else m1.(returned := m.returned[t := Returned(m, t) + [result.value]])
  }

  /** What a thread that has just entered looks at, and where that takes it. */
  function FirstLook(m: State, op: Op): PC {
    match op
    case Append(x) => Pushing(x, m.items)
    case WakeAll => Broadcasting
    case _ => if m.items == [] then MustWait else Found(op)
  }

  function Push(m: State, t: Tid, x: Item, seen: seq<Item>): State {
    At(m, t, Signalling(false)).(items := seen + [x], appended := m.appended + [x])
  }

  function ReadHead(m: State, op: Op): PC {
    if m.items == [] then Panicked else Popping(op, m.items[0], m.items[1..])
  }

  function Unlink(m: State, t: Tid, x: Item, rest: seq<Item>): State {
    At(m, t, Leaving(Some(x))).(items := rest, taken := m.taken + [(t, x)])
  }

  function SignalTest(m: State, all: bool): PC {
    if m.condWaiters != [] then Selecting(all) else if all then Broadcasting else Leaving(None)
  }

  function BroadcastTest(m: State): PC {
    if m.condWaiters != [] then Signalling(true) else Leaving(None)
  }

  function ReadWaiter(m: State, all: bool): PC {
    if m.condWaiters == [] then Panicked else Taking(m.condWaiters[0], m.condWaiters[1..], all)
  }

  function TakeWaiter(m: State, t: Tid, w: Tid, queue: seq<Tid>, all: bool): State {
    At(m, t, Popped(w, all)).(condWaiters := queue, signalled := m.signalled + [w])
  }

  /** `sema_up` on the private semaphore of the waiter w. */
  function WaiterUp(m: State, w: Tid): State {
    (if w in m.pc then At(m, w, Awakened(m.pc[w])) else m).(wake := m.wake[w := Wake(m, w) + 1])
  }

  function Deliver(m: State, t: Tid, w: Tid, all: bool): State {
    At(WaiterUp(m, w), t, if all then Broadcasting else Leaving(None))
  }

  function FreshWaiter(m: State, t: Tid): State {
    At(m, t, Enqueueing(m.condWaiters)).(wake := m.wake[t := 0])
  }

  function Enqueue(m: State, t: Tid, queue: seq<Tid>): State {
    At(m, t, Enqueued).(condWaiters := queue + [t], queued := m.queued + [t])
  }

  /** The while-test of `sema_down` on the waiter's semaphore; success goes on to `lock_acquire`. */
  function CondTestStep(m: State, t: Tid): State {
    if Wake(m, t) == 0 then At(m, t, CondAsleep)
    else At(m, t, Acquiring(Resume)).(wake := m.wake[t := Wake(m, t) - 1])
  }

  predicate Enabled(m: State, t: Tid) {
    t in m.pc && !m.pc[t].Outside? && !m.pc[t].LockAsleep? && !m.pc[t].CondAsleep? && !m.pc[t].Panicked?
  }

  /** The next step of thread t. */
  function Next(m: State, t: Tid): State
    requires Enabled(m, t)
  {
    match m.pc[t]
    case Acquiring(op) => LockTest(m, t, op)
    case LockWoken(op) => LockTest(m, t, op)
    case PastDown(op) => SetHolder(m, t, op)
    case Entered(op) => At(m, t, FirstLook(m, op))
    case Pushing(x, seen) => Push(m, t, x, seen)
    case Found(op) => At(m, t, ReadHead(m, op))
    case Popping(_, x, rest) => Unlink(m, t, x, rest)
    case Signalling(all) => At(m, t, SignalTest(m, all))
    case Broadcasting => At(m, t, BroadcastTest(m))
    case Selecting(all) => At(m, t, ReadWaiter(m, all))
    case Taking(w, queue, all) => TakeWaiter(m, t, w, queue, all)
    case Popped(w, all) => Deliver(m, t, w, all)
    case MustWait => FreshWaiter(m, t)
    case Enqueueing(queue) => Enqueue(m, t, queue)
    case Enqueued => ClearHolder(m, t, WaitUnheld)
    case WaitUnheld => LockUp(m, t, CondTest)
    case CondTest => CondTestStep(m, t)
    case CondWoken => CondTestStep(m, t)
    case Leaving(result) => ClearHolder(m, t, Unheld(result))
    case Unheld(result) => Return(m, t, result)
  }

  /** A thread outside calls `sl_append` or `sl_remove`, or goes for the lock to broadcast. */
  function Start(m: State, t: Tid, op: Op): State { At(m, t, Acquiring(op)) }

  /** A thread outside does the same with `lock_try_acquire`, and gives up if the lock is taken. */
  function Try(m: State, t: Tid, op: Op): State {
    if m.lockValue == 0 then m else LockTest(m, t, op)
  }

  predicate CanStart(m: State, t: Tid, op: Op) {
    t in m.pc && m.pc[t] == Outside && op != Resume
  }

  // ---------- The invariant ----------

  /** Threads past `sema_down` on the lock and before the matching `sema_up`. */
  predicate PastLock(pc: PC) {
    pc.PastDown? || HoldsLock(pc) || pc.WaitUnheld? || pc.Unheld?
  }

  /** Threads between setting `holder` and clearing it. */
  predicate HoldsLock(pc: PC) {
    || pc.Entered? || pc.Pushing? || pc.Found? || pc.Popping? || pc.MustWait? || pc.Enqueueing? || pc.Enqueued?
    || Signals(pc) || pc.Popped? || pc.Leaving?
  }

  /** Within `cond_signal` or `cond_broadcast`, and not in the act of upping a waiter's semaphore. */
  predicate Signals(pc: PC) {
    pc.Signalling? || pc.Broadcasting? || pc.Selecting? || pc.Taking?
  }

  ghost function Past(m: State): set<Tid> {
    set t | t in m.pc && PastLock(m.pc[t])
  }

  /** The lock's semaphore and the threads past it add up to one; `holder` names the one that
      has set it. */
  ghost predicate LockInv(m: State) {
    && m.lockValue <= 1
    && (m.lockValue == 1 ==> forall t :: t in m.pc ==> !PastLock(m.pc[t]))
    && (m.lockValue == 0 ==> exists t :: t in m.pc && PastLock(m.pc[t]))
    && (forall t, u :: t in m.pc && u in m.pc && PastLock(m.pc[t]) && PastLock(m.pc[u]) ==> t == u)
    && (forall t :: t in m.pc ==> (HoldsLock(m.pc[t]) <==> m.holder == Some(t)))
    && (m.holder.Some? ==> m.holder.value in m.pc)
  }

  /** The lock's wait list is exact, and a free lock with sleepers has a woken thread on its way. */
  ghost predicate LockQueueInv(m: State) {
    && NoDuplicates(m.lockWaiters)
    && (forall t :: t in m.lockWaiters <==> t in m.pc && m.pc[t].LockAsleep?)
    && (m.lockWaiters != [] && m.lockValue > 0 ==> exists t :: t in m.pc && m.pc[t].LockWoken?)
  }

  /** In `cond_wait`, after queueing its waiter and before the waiter's semaphore lets it through. */
  predicate InCondWait(pc: PC) {
    pc.Enqueued? || pc.WaitUnheld? || pc.CondTest? || pc.CondAsleep? || pc.CondWoken?
  }

  /** The holder of the lock has taken t's waiter from the condition and has yet to up it. */
  predicate UpPending(m: State, t: Tid) {
    m.holder.Some? && m.holder.value in m.pc && m.pc[m.holder.value].Popped?
    && m.pc[m.holder.value].waiter == t
  }

  /** A thread in `cond_wait` is queued on the condition, or taken by a signal whose up is still to
      come, or carries exactly one unspent up: never two of these, never none. */
  ghost predicate WaiterInv(m: State, t: Tid)
    requires t in m.pc
  {
    var pc := m.pc[t];
    if t in m.condWaiters then InCondWait(pc) && !pc.CondWoken? && Wake(m, t) == 0 && !UpPending(m, t)
    else if UpPending(m, t) then (pc.CondTest? || pc.CondAsleep?) && Wake(m, t) == 0
    else InCondWait(pc) ==> Wake(m, t) == 1 && !pc.CondAsleep?
  }

  ghost predicate CondInv(m: State) {
    && NoDuplicates(m.condWaiters)
    && (forall t :: t in m.condWaiters ==> t in m.pc)
    && (forall t {:trigger WaiterInv(m, t)} :: t in m.pc ==> WaiterInv(m, t))
    && (forall u :: u in m.pc && m.pc[u].Popped? ==> m.pc[u].waiter in m.pc)
    && m.queued == m.signalled + m.condWaiters
  }

  /** The items of a log of removals. */
  function Items(taken: seq<(Tid, Item)>): (r: seq<Item>)
    ensures |r| == |taken|
  {
    seq(|taken|, i requires 0 <= i < |taken| => taken[i].1)
  }

  /** The items that one thread removed, in order. */
  function By(taken: seq<(Tid, Item)>, t: Tid): seq<Item> {
    if taken == [] then []
    else By(taken[..|taken| - 1], t) + (if taken[|taken| - 1].0 == t then [taken[|taken| - 1].1] else [])
  }

  /** Items leave in the order they came, each once. */
  ghost predicate ListInv(m: State) {
    m.appended == Items(m.taken) + m.items
  }

  /** What the holder of the lock has read of the two lists is still so. */
  ghost predicate SeenOk(m: State, t: Tid)
    requires t in m.pc
  {
    match m.pc[t]
    case Pushing(_, seen) => seen == m.items
    case Found(_) => m.items != []
    case Popping(_, x, rest) => m.items == [x] + rest
    case Signalling(all) => all ==> m.condWaiters != []
    case Selecting(_) => m.condWaiters != []
    case Taking(w, queue, _) => m.condWaiters == [w] + queue
    case MustWait => m.items == []
    case Enqueueing(queue) => m.items == [] && m.condWaiters == queue && Wake(m, t) == 0
    case Enqueued => m.items == []
    case WaitUnheld => m.items == []
    case Panicked => false
    case _ => true
  }

  ghost predicate SeenInv(m: State) {
    forall t {:trigger SeenOk(m, t)} :: t in m.pc ==> SeenOk(m, t)
  }

  /** The item a thread on its way out of `sl_remove` is about to return. */
  function Carried(pc: PC): seq<Item> {
    if (pc.Leaving? || pc.Unheld?) && pc.result.Some? then [pc.result.value] else []
  }

  /** What a thread has removed it has returned, but for the item it is about to return. */
  ghost predicate ReturnOk(m: State, t: Tid)
    requires t in m.pc
  {
    By(m.taken, t) == Returned(m, t) + Carried(m.pc[t])
  }

  ghost predicate ReturnInv(m: State) {
    forall t {:trigger ReturnOk(m, t)} :: t in m.pc ==> ReturnOk(m, t)
  }

  /** A remover that a signal took from the condition and that has not removed an item or found
      none since, or an appender that has not finished taking a waiter. */
  predicate Commits(pc: PC) {
    || ((pc.Acquiring? || pc.LockAsleep? || pc.LockWoken? || pc.PastDown? || pc.Entered? || pc.Found? || pc.Popping?)
        && pc.op == Resume)
    || ((pc.Signalling? || pc.Selecting? || pc.Taking?) && !pc.all)
  }

  /** The threads an item on the list can count on: these, and waiters a signal has taken. */
  ghost function Committed(m: State): set<Tid> {
    set t | t in m.pc && (Commits(m.pc[t]) || (InCondWait(m.pc[t]) && t !in m.condWaiters))
  }

  /** No signal is lost: while removers wait, every item has someone committed to it. */
  ghost predicate SignalInv(m: State) {
    m.condWaiters != [] ==> |m.items| <= |Committed(m)|
  }

  ghost predicate Inv(m: State) {
    LockInv(m) && LockQueueInv(m) && CondInv(m) && ListInv(m) && SeenInv(m) && SignalInv(m) && ReturnInv(m)
  }

  // ---------- The lock ----------

  lemma LockSame(m: State, m': State)
    requires LockInv(m) && m'.pc.Keys == m.pc.Keys && m'.lockValue == m.lockValue && m'.holder == m.holder
    requires forall u :: u in m.pc ==>
      PastLock(m'.pc[u]) == PastLock(m.pc[u]) && HoldsLock(m'.pc[u]) == HoldsLock(m.pc[u])
    ensures LockInv(m')
  {
    if m.lockValue == 0 {
      var o :| o in m.pc && PastLock(m.pc[o]);
      assert PastLock(m'.pc[o]);
    }
  }

  lemma LockTestKeepsLock(m: State, t: Tid, op: Op)
    requires LockInv(m) && t in m.pc && !PastLock(m.pc[t])
    ensures LockInv(LockTest(m, t, op))
  {
    var m' := LockTest(m, t, op);
    if m.lockValue == 0 { LockSame(m, m'); } else { assert PastLock(m'.pc[t]); }
  }

  lemma HolderSetKeepsLock(m: State, t: Tid, op: Op)
    requires LockInv(m) && t in m.pc && m.pc[t] == PastDown(op)
    ensures LockInv(SetHolder(m, t, op))
  {
    assert PastLock(m.pc[t]);
    assert PastLock(SetHolder(m, t, op).pc[t]);
  }

  lemma HolderClearedKeepsLock(m: State, t: Tid, pc: PC)
    requires LockInv(m) && t in m.pc && HoldsLock(m.pc[t]) && PastLock(pc) && !HoldsLock(pc)
    ensures LockInv(ClearHolder(m, t, pc))
  {
    assert PastLock(ClearHolder(m, t, pc).pc[t]);
  }

  lemma LockUpKeepsLock(m: State, t: Tid, next: PC)
    requires LockInv(m) && LockQueueInv(m) && t in m.pc && PastLock(m.pc[t]) && !HoldsLock(m.pc[t])
    requires !PastLock(next)
    ensures LockInv(LockUp(m, t, next))
  {
    if m.lockWaiters != [] { assert m.lockWaiters[0] in m.lockWaiters; }
  }

  /** Nobody holds the lock while some thread is past it without holding it. */
  lemma NoHolder(m: State, t: Tid)
    requires LockInv(m) && t in m.pc && PastLock(m.pc[t]) && !HoldsLock(m.pc[t])
    ensures m.holder == None
  {
    assert forall u :: u in m.pc && HoldsLock(m.pc[u]) ==> u == t;
  }

  /** The holder is the only thread past the lock. */
  lemma HolderAlone(m: State, t: Tid)
    requires LockInv(m) && t in m.pc && HoldsLock(m.pc[t])
    ensures m.holder == Some(t) && forall u :: u in m.pc && u != t ==> !PastLock(m.pc[u])
  {
    assert PastLock(m.pc[t]);
  }

  // ---------- The lock's wait list ----------

  lemma QueueSame(m: State, m': State)
    requires LockQueueInv(m) && m'.pc.Keys == m.pc.Keys && m'.lockWaiters == m.lockWaiters
    requires forall u :: u in m.pc ==>
      m'.pc[u].LockAsleep? == m.pc[u].LockAsleep? && (m.pc[u].LockWoken? ==> m'.pc[u].LockWoken?)
    requires m'.lockValue == m.lockValue
    ensures LockQueueInv(m')
  {
    if m.lockWaiters != [] && m.lockValue > 0 {
      var u :| u in m.pc && m.pc[u].LockWoken?;
      assert m'.pc[u].LockWoken?;
    }
  }

  lemma LockTestKeepsQueue(m: State, t: Tid, op: Op)
    requires LockInv(m) && LockQueueInv(m) && t in m.pc && BeforeLock(m.pc[t], op)
    ensures LockQueueInv(LockTest(m, t, op))
  {
  }

  lemma LockUpKeepsQueue(m: State, t: Tid, next: PC)
    requires LockQueueInv(m) && t in m.pc && !m.pc[t].LockAsleep? && !next.LockAsleep?
    ensures LockQueueInv(LockUp(m, t, next))
  {
    if m.lockWaiters != [] {
      PopFront(m.lockWaiters);
      assert m.lockWaiters[0] in m.lockWaiters;
      assert LockUp(m, t, next).pc[m.lockWaiters[0]].LockWoken?;
    }
  }

  /** Thread t goes on to `next`, and a sleeper on the lock, if any, wakes to test it again. */
  ghost predicate Released(m: State, m': State, t: Tid, next: PC) {
    && t in m.pc && m'.pc.Keys == m.pc.Keys && m'.pc[t] == next
    && forall u :: u in m.pc && u != t ==>
         m'.pc[u] == m.pc[u] || (m.pc[u].LockAsleep? && m'.pc[u] == LockWoken(m.pc[u].op))
  }

  lemma LockUpReleases(m: State, t: Tid, next: PC)
    requires LockQueueInv(m) && t in m.pc && !m.pc[t].LockAsleep?
    ensures Released(m, LockUp(m, t, next), t, next)
  {
    if m.lockWaiters != [] { assert m.lockWaiters[0] in m.lockWaiters; }
  }

  /** Two places that the lock cannot tell apart. */
  predicate SameForLock(pc: PC, pc': PC) {
    && PastLock(pc) == PastLock(pc') && HoldsLock(pc) == HoldsLock(pc')
    && !pc.LockAsleep? && !pc'.LockAsleep? && !pc.LockWoken?
  }

  ghost predicate LockFields(m: State, m': State) {
    m'.lockValue == m.lockValue && m'.holder == m.holder && m'.lockWaiters == m.lockWaiters
  }

  /** The step only concerns the condition or the list. */
  ghost predicate LockUntouched(m: State, m': State) {
    && m'.pc.Keys == m.pc.Keys && LockFields(m, m')
    && forall u :: u in m.pc ==> m'.pc[u] == m.pc[u] || SameForLock(m.pc[u], m'.pc[u])
  }

  lemma BesidesLock(m: State, m': State)
    requires LockInv(m) && LockQueueInv(m) && LockUntouched(m, m')
    ensures LockInv(m') && LockQueueInv(m')
  {
    LockSame(m, m');
    QueueSame(m, m');
  }

  /** Thread t moves to pc, and nobody else moves. */
  ghost predicate Moves(m: State, m': State, t: Tid, pc: PC) {
    t in m.pc && m'.pc == m.pc[t := pc]
  }

  lemma MoveBesidesLock(m: State, m': State, t: Tid, pc: PC)
    requires LockInv(m) && LockQueueInv(m) && Moves(m, m', t, pc) && LockFields(m, m') && SameForLock(m.pc[t], pc)
    ensures LockInv(m') && LockQueueInv(m')
  {
    BesidesLock(m, m');
  }

  // ---------- The condition ----------

  ghost predicate CondFields(m: State, m': State) {
    m'.condWaiters == m.condWaiters && m'.wake == m.wake && m'.queued == m.queued && m'.signalled == m.signalled
  }

  ghost predicate UpsAsBefore(m: State, m': State) {
    forall u :: u in m.pc ==> (UpPending(m', u) <==> UpPending(m, u))
  }

  /** The move of a thread that is not in `cond_wait`, and not about to up a waiter afterwards. */
  predicate Elsewhere(pc: PC, pc': PC) {
    !InCondWait(pc) && !InCondWait(pc') && !pc'.Popped?
  }

  /** Nothing happens to the condition: no thread moves into, within or out of `cond_wait` or into a
      signal's second half. */
  ghost predicate CondStill(m: State, m': State) {
    && m'.pc.Keys == m.pc.Keys && CondFields(m, m') && UpsAsBefore(m, m')
    && forall u :: u in m.pc ==> m'.pc[u] == m.pc[u] || Elsewhere(m.pc[u], m'.pc[u])
  }

  lemma CondSame(m: State, m': State)
    requires CondInv(m) && CondStill(m, m')
    ensures CondInv(m')
  {
    forall u | u in m'.pc ensures WaiterInv(m', u) { assert WaiterInv(m, u); }
  }

  /** Setting or clearing the holder, or not, by a thread that ups no waiter. */
  ghost predicate HolderBy(m: State, m': State, t: Tid) {
    m'.holder == m.holder || (m.holder in {None, Some(t)} && m'.holder in {None, Some(t)})
  }

  lemma MoveElsewhere(m: State, m': State, t: Tid, pc: PC)
    requires Moves(m, m', t, pc) && CondFields(m, m') && HolderBy(m, m', t)
    requires Elsewhere(m.pc[t], pc) && !m.pc[t].Popped?
    ensures CondStill(m, m')
  {
  }

  lemma MoveBesidesCond(m: State, m': State, t: Tid, pc: PC)
    requires CondInv(m) && Moves(m, m', t, pc) && CondFields(m, m') && HolderBy(m, m', t)
    requires Elsewhere(m.pc[t], pc) && !m.pc[t].Popped?
    ensures CondInv(m')
  {
    MoveElsewhere(m, m', t, pc);
    CondSame(m, m');
  }

  /** Thread t moves inside `cond_wait` without changing its waiter. */
  ghost predicate CondMoved(m: State, m': State, t: Tid) {
    && t in m.pc && m'.pc.Keys == m.pc.Keys && CondFields(m, m') && UpsAsBefore(m, m')
    && InCondWait(m.pc[t]) && InCondWait(m'.pc[t]) && !m.pc[t].CondAsleep? && !m'.pc[t].CondWoken?
    && (UpPending(m, t) ==> m'.pc[t].CondTest? || m'.pc[t].CondAsleep?)
    && (m'.pc[t].CondAsleep? ==> Wake(m, t) == 0)
    && forall u :: u in m.pc && u != t ==> m'.pc[u] == m.pc[u] || Elsewhere(m.pc[u], m'.pc[u])
  }

  lemma CondMove(m: State, m': State, t: Tid)
    requires CondInv(m) && CondMoved(m, m', t)
    ensures CondInv(m')
  {
    forall u | u in m'.pc ensures WaiterInv(m', u) { assert WaiterInv(m, u); }
  }

  /** The waiter's semaphore lets t through: the single unspent up is spent. */
  lemma CondPass(m: State, t: Tid)
    requires CondInv(m) && t in m.pc && (m.pc[t].CondTest? || m.pc[t].CondWoken?) && Wake(m, t) > 0
    ensures CondInv(CondTestStep(m, t))
  {
    var m' := CondTestStep(m, t);
    assert WaiterInv(m, t);
    forall u | u in m'.pc ensures WaiterInv(m', u) { assert WaiterInv(m, u); }
  }

  lemma CondTestKeeps(m: State, t: Tid)
    requires CondInv(m) && t in m.pc && (m.pc[t].CondTest? || m.pc[t].CondWoken?)
    ensures CondInv(CondTestStep(m, t))
  {
    assert WaiterInv(m, t);
    if Wake(m, t) > 0 { CondPass(m, t); } else { CondMove(m, CondTestStep(m, t), t); }
  }

  /** A fresh waiter is of no concern to the condition until it is queued. */
  lemma CondFresh(m: State, t: Tid)
    requires CondInv(m) && m.holder == Some(t) && t in m.pc && m.pc[t].MustWait?
    ensures CondInv(FreshWaiter(m, t))
  {
    var m' := FreshWaiter(m, t);
    forall u | u in m'.pc ensures WaiterInv(m', u) { assert WaiterInv(m, u); }
  }

  lemma CondEnqueue(m: State, t: Tid)
    requires m.holder == Some(t) && CondInv(m) && t in m.pc
    requires m.pc[t] == Enqueueing(m.condWaiters) && Wake(m, t) == 0
    ensures CondInv(Enqueue(m, t, m.condWaiters))
  {
    var m' := Enqueue(m, t, m.condWaiters);
    assert WaiterInv(m, t);
    forall u | u in m'.pc ensures WaiterInv(m', u) { assert WaiterInv(m, u); }
    assert m'.queued == m'.signalled + m'.condWaiters;
  }

  lemma CondTake(m: State, t: Tid, w: Tid, queue: seq<Tid>, all: bool)
    requires m.holder == Some(t) && CondInv(m) && t in m.pc && m.pc[t] == Taking(w, queue, all)
    requires m.condWaiters == [w] + queue && forall u :: u in m.pc && u != t ==> !PastLock(m.pc[u])
    ensures CondInv(TakeWaiter(m, t, w, queue, all))
  {
    var m' := TakeWaiter(m, t, w, queue, all);
    FirstWaits(m, w, queue);
    PopFront(m.condWaiters);
    assert m.condWaiters[1..] == queue;
    forall u | u in m'.pc ensures WaiterInv(m', u) {
      assert WaiterInv(m, u);
      TakenWaiter(m, t, u);
    }
    assert m'.queued == m'.signalled + m'.condWaiters;
  }

  lemma TakenWaiter(m: State, t: Tid, u: Tid)
    requires m.holder == Some(t) && t in m.pc && m.pc[t].Taking? && m.condWaiters != []
    requires m.pc[t].waiter == m.condWaiters[0]
    requires u in m.pc && WaiterInv(m, u) && (InCondWait(m.pc[u]) ==> !m.pc[u].Enqueued? && !m.pc[u].WaitUnheld?)
    requires forall v :: v in m.pc[t].queue <==> v in m.condWaiters && v != m.condWaiters[0]
    ensures WaiterInv(TakeWaiter(m, t, m.pc[t].waiter, m.pc[t].queue, m.pc[t].all), u)
  {
  }

  lemma CondDeliver(m: State, t: Tid, w: Tid, all: bool)
    requires m.holder == Some(t) && CondInv(m) && t in m.pc && m.pc[t] == Popped(w, all)
    requires forall u :: u in m.pc && u != t ==> !PastLock(m.pc[u])
    ensures CondInv(Deliver(m, t, w, all))
  {
    var m' := Deliver(m, t, w, all);
    assert WaiterInv(m, w);
    forall u | u in m'.pc ensures WaiterInv(m', u) { assert WaiterInv(m, u); }
  }

  // ---------- What has been seen ----------

  /** The places at which something a thread has read matters. */
  predicate Looking(pc: PC) {
    || pc.Pushing? || pc.Found? || pc.Popping? || pc.Signalling? || pc.Selecting? || pc.Taking?
    || pc.MustWait? || pc.Enqueueing? || pc.Enqueued? || pc.WaitUnheld? || pc.Panicked?
  }

  lemma SeenSame(m: State, m': State)
    requires SeenInv(m) && m'.pc.Keys == m.pc.Keys && m'.items == m.items && m'.condWaiters == m.condWaiters
    requires forall u :: u in m.pc && Looking(m'.pc[u]) ==> m'.pc[u] == m.pc[u] && Wake(m', u) == Wake(m, u)
    ensures SeenInv(m')
  {
    forall u | u in m'.pc ensures SeenOk(m', u) { assert SeenOk(m, u); }
  }

  /** The holder may change the lists: no other thread has looked at them. */
  lemma SeenAlone(m: State, m': State, t: Tid)
    requires SeenInv(m) && m'.pc.Keys == m.pc.Keys && t in m.pc && SeenOk(m', t)
    requires forall u :: u in m.pc && u != t ==> !PastLock(m.pc[u]) && (m'.pc[u] == m.pc[u] || m'.pc[u].CondWoken?)
    ensures SeenInv(m')
  {
    forall u | u in m'.pc ensures SeenOk(m', u) { assert SeenOk(m, u); }
  }

  lemma HolderSees(m: State, m': State, t: Tid, pc: PC)
    requires LockInv(m) && SeenInv(m) && Moves(m, m', t, pc) && HoldsLock(m.pc[t]) && SeenOk(m', t)
    ensures SeenInv(m')
  {
    HolderAlone(m, t);
    SeenAlone(m, m', t);
  }

  // ---------- Commitments ----------

  lemma SameCommitted(m: State, m': State)
    requires m'.pc.Keys == m.pc.Keys && m'.condWaiters == m.condWaiters
    requires forall u :: u in m.pc ==>
      Commits(m'.pc[u]) == Commits(m.pc[u]) && InCondWait(m'.pc[u]) == InCondWait(m.pc[u])
    ensures Committed(m') == Committed(m)
  {
  }

  lemma PushCommits(m: State, t: Tid, x: Item)
    requires SignalInv(m) && t in m.pc && m.pc[t] == Pushing(x, m.items)
    ensures SignalInv(Push(m, t, x, m.items))
  {
    assert Committed(Push(m, t, x, m.items)) == Committed(m) + {t};
    assert t !in Committed(m);
  }

  lemma UnlinkSet(m: State, t: Tid, x: Item, rest: seq<Item>)
    requires t in m.pc && m.pc[t].Popping?
    ensures Committed(Unlink(m, t, x, rest)) == Committed(m) - {t}
  {
  }

  lemma UnlinkUncommits(m: State, t: Tid, x: Item, rest: seq<Item>)
    requires SignalInv(m) && t in m.pc && m.pc[t].Popping? && |m.items| == |rest| + 1
    ensures SignalInv(Unlink(m, t, x, rest))
  {
    UnlinkSet(m, t, x, rest);
  }

  /** The appender's commitment passes to the waiter it takes from the condition; a broadcaster has
      none to pass on. */
  lemma TakeHandsOver(m: State, t: Tid, w: Tid, queue: seq<Tid>, all: bool)
    requires CondInv(m) && SignalInv(m) && t in m.pc && m.pc[t] == Taking(w, queue, all)
    requires m.condWaiters == [w] + queue
    ensures SignalInv(TakeWaiter(m, t, w, queue, all))
  {
    FirstWaits(m, w, queue);
    HandoverSet(m, t, w, queue, all);
    HandoverSize(m, t, w, all);
  }

  lemma FirstWaits(m: State, w: Tid, queue: seq<Tid>)
    requires CondInv(m) && m.condWaiters == [w] + queue
    ensures w in m.pc && InCondWait(m.pc[w]) && w in m.condWaiters
    ensures forall u :: u in queue <==> u in m.condWaiters && u != w
  {
    PopFront(m.condWaiters);
    assert m.condWaiters[1..] == queue && m.condWaiters[0] in m.condWaiters && WaiterInv(m, w);
  }

  lemma HandoverSize(m: State, t: Tid, w: Tid, all: bool)
    requires t in m.pc && m.pc[t].Taking? && m.pc[t].all == all
    requires w in m.pc && InCondWait(m.pc[w]) && w in m.condWaiters
    ensures |Committed(m) - {t} + {w}| >= |Committed(m)|
  {
    assert w !in Committed(m) && (t in Committed(m) ==> !all);
    if all { assert Committed(m) - {t} == Committed(m); }
  }

  lemma HandoverSet(m: State, t: Tid, w: Tid, queue: seq<Tid>, all: bool)
    requires t in m.pc && m.pc[t] == Taking(w, queue, all) && w in m.pc && InCondWait(m.pc[w])
    requires forall u :: u in queue <==> u in m.condWaiters && u != w
    ensures Committed(TakeWaiter(m, t, w, queue, all)) == Committed(m) - {t} + {w}
  {
  }

  // ---------- Returns ----------

  lemma ReturnSame(m: State, m': State)
    requires ReturnInv(m) && m'.pc.Keys == m.pc.Keys && m'.taken == m.taken && m'.returned == m.returned
    requires forall u :: u in m.pc ==> Carried(m'.pc[u]) == Carried(m.pc[u])
    ensures ReturnInv(m')
  {
    forall u | u in m'.pc ensures ReturnOk(m', u) { assert ReturnOk(m, u); }
  }

  lemma ByAppend(taken: seq<(Tid, Item)>, t: Tid, x: Item, u: Tid)
    ensures By(taken + [(t, x)], u) == By(taken, u) + (if t == u then [x] else [])
  {
    assert (taken + [(t, x)])[..|taken|] == taken;
  }

  lemma UnlinkCarries(m: State, t: Tid, op: Op, x: Item, rest: seq<Item>)
    requires ReturnInv(m) && t in m.pc && m.pc[t] == Popping(op, x, rest)
    ensures ReturnInv(Unlink(m, t, x, rest))
  {
    var m' := Unlink(m, t, x, rest);
    forall u | u in m'.pc ensures ReturnOk(m', u) {
      assert ReturnOk(m, u);
      ByAppend(m.taken, t, x, u);
    }
  }

  lemma MoveCarriesSame(m: State, m': State, t: Tid, pc: PC)
    requires ReturnInv(m) && Moves(m, m', t, pc) && m'.taken == m.taken && m'.returned == m.returned
    requires Carried(m.pc[t]) == Carried(pc)
    ensures ReturnInv(m')
  {
    ReturnSame(m, m');
  }

  lemma ReturnHandsOver(m: State, m': State, t: Tid, result: Option<Item>)
    requires ReturnInv(m) && m'.taken == m.taken && t in m.pc && m.pc[t] == Unheld(result)
    requires m'.returned == if result.None? then m.returned else m.returned[t := Returned(m, t) + [result.value]]
    requires Released(m, m', t, Outside)
    ensures ReturnInv(m')
  {
    forall u | u in m'.pc ensures ReturnOk(m', u) { assert ReturnOk(m, u); }
  }

  // ---------- Steps on the lock ----------

  /** Two places that differ only in how far the thread has come with the lock. */
  predicate LockOnly(pc: PC, pc': PC) {
    Elsewhere(pc, pc') && !pc.Popped? && Commits(pc) == Commits(pc') && !Looking(pc')
  }

  ghost predicate ListFields(m: State, m': State) {
    m'.items == m.items && m'.appended == m.appended && m'.taken == m.taken
  }

  /** The step only concerns the lock. */
  ghost predicate CondUntouched(m: State, m': State) {
    && CondStill(m, m') && ListFields(m, m')
    && forall u :: u in m.pc ==> m'.pc[u] == m.pc[u] || LockOnly(m.pc[u], m'.pc[u])
  }

  lemma BesidesCond(m: State, m': State)
    requires CondInv(m) && ListInv(m) && SeenInv(m) && SignalInv(m) && CondUntouched(m, m')
    ensures CondInv(m') && ListInv(m') && SeenInv(m') && SignalInv(m')
  {
    CondSame(m, m');
    SeenSame(m, m');
    SameCommitted(m, m');
  }

  lemma MoveOnLock(m: State, m': State, t: Tid, pc: PC)
    requires Moves(m, m', t, pc) && CondFields(m, m') && HolderBy(m, m', t) && ListFields(m, m')
    requires LockOnly(m.pc[t], pc)
    ensures CondUntouched(m, m')
  {
    MoveElsewhere(m, m', t, pc);
  }

  /** All of the invariant but the lock's own part. */
  ghost predicate RestInv(m: State) {
    CondInv(m) && ListInv(m) && SeenInv(m) && SignalInv(m) && ReturnInv(m)
  }

  lemma MoveOnLockKeepsRest(m: State, m': State, t: Tid, pc: PC)
    requires RestInv(m) && Moves(m, m', t, pc) && CondFields(m, m') && HolderBy(m, m', t) && ListFields(m, m')
    requires LockOnly(m.pc[t], pc) && m'.returned == m.returned && Carried(m.pc[t]) == Carried(pc)
    ensures RestInv(m')
  {
    MoveOnLock(m, m', t, pc);
    BesidesCond(m, m');
    MoveCarriesSame(m, m', t, pc);
  }

  /** Where a thread may be when it tests the lock's semaphore for op. */
  predicate BeforeLock(pc: PC, op: Op) {
    pc == Acquiring(op) || pc == LockWoken(op) || (pc == Outside && op != Resume)
  }

  lemma LockTestKeepsRest(m: State, t: Tid, op: Op)
    requires RestInv(m) && t in m.pc && BeforeLock(m.pc[t], op)
    ensures RestInv(LockTest(m, t, op))
  {
    MoveOnLockKeepsRest(m, LockTest(m, t, op), t, if m.lockValue == 0 then LockAsleep(op) else PastDown(op));
  }

  lemma LockTestKeepsInv(m: State, t: Tid, op: Op)
    requires Inv(m) && t in m.pc && BeforeLock(m.pc[t], op)
    ensures Inv(LockTest(m, t, op))
  {
    LockTestKeepsLock(m, t, op);
    LockTestKeepsQueue(m, t, op);
    LockTestKeepsRest(m, t, op);
  }

  lemma HolderSetKeepsRest(m: State, t: Tid, op: Op)
    requires RestInv(m) && t in m.pc && m.pc[t] == PastDown(op) && m.holder == None
    ensures RestInv(SetHolder(m, t, op))
  {
    MoveOnLockKeepsRest(m, SetHolder(m, t, op), t, Entered(op));
  }

  lemma HolderKeepsInv(m: State, t: Tid, op: Op)
    requires Inv(m) && t in m.pc && m.pc[t] == PastDown(op)
    ensures Inv(SetHolder(m, t, op))
  {
    NoHolder(m, t);
    HolderSetKeepsLock(m, t, op);
    QueueSame(m, SetHolder(m, t, op));
    HolderSetKeepsRest(m, t, op);
  }

  lemma LeavingKeepsRest(m: State, t: Tid, result: Option<Item>)
    requires RestInv(m) && t in m.pc && m.pc[t] == Leaving(result) && m.holder == Some(t)
    ensures RestInv(ClearHolder(m, t, Unheld(result)))
  {
    MoveOnLockKeepsRest(m, ClearHolder(m, t, Unheld(result)), t, Unheld(result));
  }

  lemma LeavingKeepsInv(m: State, t: Tid, result: Option<Item>)
    requires Inv(m) && t in m.pc && m.pc[t] == Leaving(result)
    ensures Inv(ClearHolder(m, t, Unheld(result)))
  {
    HolderAlone(m, t);
    HolderClearedKeepsLock(m, t, Unheld(result));
    QueueSame(m, ClearHolder(m, t, Unheld(result)));
    LeavingKeepsRest(m, t, result);
  }

  lemma ReleaseOnLock(m: State, m': State, t: Tid)
    requires t in m.pc && m.pc[t].Unheld? && m.holder == None && m'.holder == None
    requires Released(m, m', t, Outside) && CondFields(m, m') && ListFields(m, m')
    ensures CondUntouched(m, m')
  {
  }

  lemma ReturnKeepsLock(m: State, t: Tid, result: Option<Item>)
    requires LockInv(m) && LockQueueInv(m) && t in m.pc && m.pc[t] == Unheld(result)
    ensures LockInv(Return(m, t, result)) && LockQueueInv(Return(m, t, result))
  {
    LockUpKeepsLock(m, t, Outside);
    LockUpKeepsQueue(m, t, Outside);
    LogKeepsLock(LockUp(m, t, Outside), Return(m, t, result).returned);
  }

  lemma LogKeepsLock(m: State, returned: map<Tid, seq<Item>>)
    requires LockInv(m) && LockQueueInv(m)
    ensures LockInv(m.(returned := returned)) && LockQueueInv(m.(returned := returned))
  {
    LockSame(m, m.(returned := returned));
    QueueSame(m, m.(returned := returned));
  }

  lemma ReturnReleases(m: State, t: Tid, result: Option<Item>)
    requires LockQueueInv(m) && t in m.pc && m.pc[t] == Unheld(result)
    ensures Released(m, Return(m, t, result), t, Outside)
  {
    LockUpReleases(m, t, Outside);
  }

  lemma ReturnKeepsRest(m: State, t: Tid, result: Option<Item>)
    requires LockQueueInv(m) && RestInv(m) && m.holder == None && t in m.pc && m.pc[t] == Unheld(result)
    ensures RestInv(Return(m, t, result))
  {
    var m' := Return(m, t, result);
    ReturnReleases(m, t, result);
    ReleaseOnLock(m, m', t);
    BesidesCond(m, m');
    ReturnHandsOver(m, m', t, result);
  }

  lemma ReturnKeepsInv(m: State, t: Tid, result: Option<Item>)
    requires Inv(m) && t in m.pc && m.pc[t] == Unheld(result)
    ensures Inv(Return(m, t, result))
  {
    NoHolder(m, t);
    ReturnKeepsLock(m, t, result);
    ReturnKeepsRest(m, t, result);
  }

  // ---------- Steps of the holder ----------

  /** What every move of the holder keeps, as long as it keeps the lock and stays clear of the
      condition. */
  lemma HolderMoves(m: State, m': State, t: Tid, pc: PC)
    requires LockInv(m) && LockQueueInv(m) && SeenInv(m)
    requires Moves(m, m', t, pc) && LockFields(m, m') && HoldsLock(m.pc[t]) && HoldsLock(pc) && SeenOk(m', t)
    ensures LockInv(m') && LockQueueInv(m') && SeenInv(m') && m.holder == Some(t)
  {
    HolderAlone(m, t);
    MoveBesidesLock(m, m', t, pc);
    HolderSees(m, m', t, pc);
  }

  /** The holder may go on to pc for what it sees. */
  ghost predicate LooksTo(m: State, t: Tid, pc: PC)
    requires t in m.pc
  {
    && HoldsLock(m.pc[t]) && HoldsLock(pc) && Elsewhere(m.pc[t], pc) && !m.pc[t].Popped?
    && Carried(m.pc[t]) == Carried(pc) && SeenOk(At(m, t, pc), t)
    && (Commits(pc) == Commits(m.pc[t]) || m.items == [] || m.condWaiters == [])
  }

  /** Looking at a list changes nothing but where the thread stands. */
  lemma LookStep(m: State, t: Tid, pc: PC)
    requires Inv(m) && t in m.pc && LooksTo(m, t, pc)
    ensures Inv(At(m, t, pc))
  {
    var m' := At(m, t, pc);
    HolderMoves(m, m', t, pc);
    MoveBesidesCond(m, m', t, pc);
    LookKeepsSignal(m, t, pc);
    MoveCarriesSame(m, m', t, pc);
  }

  lemma LookKeepsSignal(m: State, t: Tid, pc: PC)
    requires SignalInv(m) && t in m.pc && Elsewhere(m.pc[t], pc)
    requires Commits(pc) == Commits(m.pc[t]) || m.items == [] || m.condWaiters == []
    ensures SignalInv(At(m, t, pc))
  {
    if m.items != [] && m.condWaiters != [] { SameCommitted(m, At(m, t, pc)); }
  }

  lemma PushKeepsRest(m: State, t: Tid, x: Item, seen: seq<Item>)
    requires CondInv(m) && ListInv(m) && SignalInv(m) && ReturnInv(m)
    requires t in m.pc && m.pc[t] == Pushing(x, seen) && seen == m.items
    ensures var m' := Push(m, t, x, seen); CondInv(m') && ListInv(m') && SignalInv(m') && ReturnInv(m')
  {
    var m' := Push(m, t, x, seen);
    MoveBesidesCond(m, m', t, Signalling(false));
    PushCommits(m, t, x);
    MoveCarriesSame(m, m', t, Signalling(false));
    assert m'.appended == Items(m'.taken) + m'.items;
  }

  lemma PushStep(m: State, t: Tid)
    requires Inv(m) && t in m.pc && m.pc[t].Pushing?
    ensures Inv(Next(m, t))
  {
    var x, seen := m.pc[t].item, m.pc[t].seen;
    assert SeenOk(m, t);
    HolderMoves(m, Push(m, t, x, seen), t, Signalling(false));
    PushKeepsRest(m, t, x, seen);
    assert Next(m, t) == Push(m, t, x, seen);
  }

  lemma ItemsAppend(taken: seq<(Tid, Item)>, t: Tid, x: Item)
    ensures Items(taken + [(t, x)]) == Items(taken) + [x]
  {
  }

  lemma UnlinkKeepsList(m: State, t: Tid, x: Item, rest: seq<Item>)
    requires ListInv(m) && m.items == [x] + rest
    ensures ListInv(Unlink(m, t, x, rest))
  {
    ItemsAppend(m.taken, t, x);
    assert Items(m.taken) + ([x] + rest) == (Items(m.taken) + [x]) + rest;
  }

  lemma UnlinkStep(m: State, t: Tid)
    requires Inv(m) && t in m.pc && m.pc[t].Popping?
    ensures Inv(Next(m, t))
  {
    var op, x, rest := m.pc[t].op, m.pc[t].item, m.pc[t].rest;
    var m' := Unlink(m, t, x, rest);
    assert SeenOk(m, t);
    HolderMoves(m, m', t, Leaving(Some(x)));
    MoveBesidesCond(m, m', t, Leaving(Some(x)));
    UnlinkUncommits(m, t, x, rest);
    UnlinkCarries(m, t, op, x, rest);
    UnlinkKeepsList(m, t, x, rest);
    assert Next(m, t) == m';
  }

  lemma TakeKeepsRest(m: State, t: Tid, w: Tid, queue: seq<Tid>, all: bool)
    requires CondInv(m) && SignalInv(m) && ReturnInv(m) && t in m.pc && m.pc[t] == Taking(w, queue, all)
    requires m.condWaiters == [w] + queue
    requires m.holder == Some(t) && forall u :: u in m.pc && u != t ==> !PastLock(m.pc[u])
    ensures var m' := TakeWaiter(m, t, w, queue, all); CondInv(m') && SignalInv(m') && ReturnInv(m')
  {
    CondTake(m, t, w, queue, all);
    TakeHandsOver(m, t, w, queue, all);
    MoveCarriesSame(m, TakeWaiter(m, t, w, queue, all), t, Popped(w, all));
  }

  lemma TakeStep(m: State, t: Tid)
    requires Inv(m) && t in m.pc && m.pc[t].Taking?
    ensures Inv(Next(m, t))
  {
    var w, queue, all := m.pc[t].waiter, m.pc[t].queue, m.pc[t].all;
    var m' := TakeWaiter(m, t, w, queue, all);
    assert SeenOk(m, t);
    HolderMoves(m, m', t, Popped(w, all));
    HolderAlone(m, t);
    TakeKeepsRest(m, t, w, queue, all);
    assert Next(m, t) == m';
  }

  /** An up moves the waiter, if it sleeps, and its sender t. */
  ghost predicate Upped(m: State, m': State, t: Tid) {
    && t in m.pc && m.pc[t].Popped? && m'.pc.Keys == m.pc.Keys
    && (m'.pc[t] == Broadcasting || m'.pc[t] == Leaving(None))
    && forall u :: u in m.pc && u != t ==> m'.pc[u] == m.pc[u] || (m.pc[u].CondAsleep? && m'.pc[u].CondWoken?)
  }

  lemma DeliverUps(m: State, t: Tid, w: Tid, all: bool)
    requires t in m.pc && m.pc[t] == Popped(w, all) && w in m.pc && (m.pc[w].CondTest? || m.pc[w].CondAsleep?)
    ensures Upped(m, Deliver(m, t, w, all), t)
  {
  }

  lemma UpKeepsLock(m: State, m': State, t: Tid)
    requires LockInv(m) && LockQueueInv(m) && Upped(m, m', t) && LockFields(m, m')
    ensures LockInv(m') && LockQueueInv(m')
  {
    BesidesLock(m, m');
  }

  lemma UpKeepsSeen(m: State, m': State, t: Tid)
    requires SeenInv(m) && Upped(m, m', t) && m'.items == m.items && m'.condWaiters == m.condWaiters
    requires forall u :: u in m.pc && u != t ==> !PastLock(m.pc[u])
    ensures SeenInv(m')
  {
    SeenAlone(m, m', t);
  }

  lemma UpKeepsRest(m: State, m': State, t: Tid)
    requires SignalInv(m) && ReturnInv(m) && Upped(m, m', t) && m'.condWaiters == m.condWaiters
    requires m'.items == m.items && m'.taken == m.taken && m'.returned == m.returned
    ensures SignalInv(m') && ReturnInv(m')
  {
    SameCommitted(m, m');
    ReturnSame(m, m');
  }

  lemma PoppedWaits(m: State, t: Tid, w: Tid, all: bool)
    requires LockInv(m) && CondInv(m) && t in m.pc && m.pc[t] == Popped(w, all)
    ensures w in m.pc && (m.pc[w].CondTest? || m.pc[w].CondAsleep?)
  {
    HolderAlone(m, t);
    assert WaiterInv(m, w);
  }

  lemma DeliverKeepsInv(m: State, t: Tid, w: Tid, all: bool)
    requires Inv(m) && t in m.pc && m.pc[t] == Popped(w, all)
    ensures Inv(Deliver(m, t, w, all))
  {
    var m' := Deliver(m, t, w, all);
    PoppedWaits(m, t, w, all);
    DeliverUps(m, t, w, all);
    UpKeepsLock(m, m', t);
    UpKeepsRest(m, m', t);
    HolderAlone(m, t);
    CondDeliver(m, t, w, all);
    UpKeepsSeen(m, m', t);
  }

  lemma DeliverIsNext(m: State, t: Tid)
    requires t in m.pc && m.pc[t].Popped?
    ensures Next(m, t) == Deliver(m, t, m.pc[t].waiter, m.pc[t].all)
  {
  }

  lemma DeliverStep(m: State, t: Tid)
    requires Inv(m) && t in m.pc && m.pc[t].Popped?
    ensures Inv(Next(m, t))
  {
    DeliverIsNext(m, t);
    DeliverKeepsInv(m, t, m.pc[t].waiter, m.pc[t].all);
  }

  /** With no items on the list nobody need be committed. */
  lemma NoItemsNoSignal(m: State)
    requires m.items == []
    ensures SignalInv(m)
  {
  }

  lemma FreshStep(m: State, t: Tid)
    requires Inv(m) && t in m.pc && m.pc[t].MustWait?
    ensures Inv(Next(m, t))
  {
    var m' := FreshWaiter(m, t);
    assert SeenOk(m, t);
    HolderMoves(m, m', t, Enqueueing(m.condWaiters));
    CondFresh(m, t);
    NoItemsNoSignal(m');
    MoveCarriesSame(m, m', t, Enqueueing(m.condWaiters));
    assert Next(m, t) == m';
  }

  lemma EnqueueStep(m: State, t: Tid)
    requires Inv(m) && t in m.pc && m.pc[t].Enqueueing?
    ensures Inv(Next(m, t))
  {
    var queue := m.pc[t].queue;
    var m' := Enqueue(m, t, queue);
    assert SeenOk(m, t);
    HolderMoves(m, m', t, Enqueued);
    CondEnqueue(m, t);
    NoItemsNoSignal(m');
    MoveCarriesSame(m, m', t, Enqueued);
    assert Next(m, t) == m';
  }

  // ---------- The rest of `cond_wait` ----------

  lemma WaitReleaseKeepsRest(m: State, t: Tid)
    requires LockInv(m) && RestInv(m) && t in m.pc && m.pc[t].Enqueued? && m.holder == Some(t)
    ensures RestInv(ClearHolder(m, t, WaitUnheld))
  {
    var m' := ClearHolder(m, t, WaitUnheld);
    assert SeenOk(m, t);
    WaitReleaseKeepsCond(m, t);
    HolderSees(m, m', t, WaitUnheld);
    NoItemsNoSignal(m');
    MoveCarriesSame(m, m', t, WaitUnheld);
  }

  lemma WaitReleaseKeepsInv(m: State, t: Tid)
    requires Inv(m) && t in m.pc && m.pc[t].Enqueued?
    ensures Inv(ClearHolder(m, t, WaitUnheld))
  {
    HolderAlone(m, t);
    HolderClearedKeepsLock(m, t, WaitUnheld);
    QueueSame(m, ClearHolder(m, t, WaitUnheld));
    WaitReleaseKeepsRest(m, t);
  }

  lemma WaitReleaseKeepsCond(m: State, t: Tid)
    requires CondInv(m) && t in m.pc && m.pc[t].Enqueued? && m.holder == Some(t)
    ensures CondInv(ClearHolder(m, t, WaitUnheld))
  {
    assert WaiterInv(m, t);
    CondMove(m, ClearHolder(m, t, WaitUnheld), t);
  }

  lemma WaitUnheldKeepsCond(m: State, m': State, t: Tid)
    requires CondInv(m) && t in m.pc && m.pc[t].WaitUnheld? && m.holder == None && m'.holder == None
    requires Released(m, m', t, CondTest) && CondFields(m, m')
    ensures CondInv(m')
  {
    CondMove(m, m', t);
  }

  lemma WaitUnheldKeepsRest(m: State, m': State, t: Tid)
    requires SeenInv(m) && ReturnInv(m) && t in m.pc && m.pc[t].WaitUnheld?
    requires Released(m, m', t, CondTest) && CondFields(m, m') && ListFields(m, m') && m'.returned == m.returned
    ensures SeenInv(m') && SignalInv(m') && ReturnInv(m')
  {
    assert SeenOk(m, t);
    SeenSame(m, m');
    NoItemsNoSignal(m');
    ReturnSame(m, m');
  }

  lemma WaitUnheldKeepsAll(m: State, t: Tid)
    requires LockQueueInv(m) && RestInv(m) && t in m.pc && m.pc[t].WaitUnheld? && m.holder == None
    ensures RestInv(LockUp(m, t, CondTest))
  {
    LockUpReleases(m, t, CondTest);
    WaitUnheldKeepsCond(m, LockUp(m, t, CondTest), t);
    WaitUnheldKeepsRest(m, LockUp(m, t, CondTest), t);
  }

  lemma WaitUnheldKeepsInv(m: State, t: Tid)
    requires Inv(m) && t in m.pc && m.pc[t].WaitUnheld?
    ensures Inv(LockUp(m, t, CondTest))
  {
    NoHolder(m, t);
    LockUpKeepsLock(m, t, CondTest);
    LockUpKeepsQueue(m, t, CondTest);
    WaitUnheldKeepsAll(m, t);
  }

  lemma CondTestedKeepsRest(m: State, t: Tid)
    requires SeenInv(m) && SignalInv(m) && ReturnInv(m) && t in m.pc && (m.pc[t].CondTest? || m.pc[t].CondWoken?)
    requires Wake(m, t) > 0 ==> t !in m.condWaiters
    ensures var m' := CondTestStep(m, t); SeenInv(m') && SignalInv(m') && ReturnInv(m')
  {
    SeenSame(m, CondTestStep(m, t));
    CondTestedCommitted(m, t);
    ReturnSame(m, CondTestStep(m, t));
  }

  lemma CondTestedKeepsLock(m: State, t: Tid)
    requires LockInv(m) && LockQueueInv(m) && t in m.pc && (m.pc[t].CondTest? || m.pc[t].CondWoken?)
    ensures LockInv(CondTestStep(m, t)) && LockQueueInv(CondTestStep(m, t))
  {
    MoveBesidesLock(m, CondTestStep(m, t), t, if Wake(m, t) == 0 then CondAsleep else Acquiring(Resume));
  }

  lemma WokenIsOut(m: State, t: Tid)
    requires CondInv(m) && t in m.pc && Wake(m, t) > 0
    ensures t !in m.condWaiters
  {
    assert WaiterInv(m, t);
  }

  lemma CondTestedKeepsInv(m: State, t: Tid)
    requires Inv(m) && t in m.pc && (m.pc[t].CondTest? || m.pc[t].CondWoken?)
    ensures Inv(CondTestStep(m, t))
  {
    CondTestedKeepsLock(m, t);
    CondTestKeeps(m, t);
    if Wake(m, t) > 0 { WokenIsOut(m, t); }
    CondTestedKeepsRest(m, t);
  }

  lemma CondTestedCommitted(m: State, t: Tid)
    requires t in m.pc && (m.pc[t].CondTest? || m.pc[t].CondWoken?)
    requires Wake(m, t) > 0 ==> t !in m.condWaiters
    ensures Committed(CondTestStep(m, t)) == Committed(m)
  {
  }

  // ---------- Every run ----------

  predicate OnlyLooks(pc: PC) {
    pc.Entered? || pc.Found? || pc.Signalling? || pc.Broadcasting? || pc.Selecting?
  }

  /** Where a look leads. */
  function Look(m: State, pc: PC): PC
    requires OnlyLooks(pc)
  {
    match pc
    case Entered(op) => FirstLook(m, op)
    case Found(op) => ReadHead(m, op)
    case Signalling(all) => SignalTest(m, all)
    case Broadcasting => BroadcastTest(m)
    case Selecting(all) => ReadWaiter(m, all)
  }

  lemma LookSees(m: State, t: Tid)
    requires t in m.pc && OnlyLooks(m.pc[t]) && SeenOk(m, t)
    ensures LooksTo(m, t, Look(m, m.pc[t]))
  {
  }

  lemma LookKeepsInv(m: State, t: Tid)
    requires Inv(m) && t in m.pc && OnlyLooks(m.pc[t])
    ensures Inv(At(m, t, Look(m, m.pc[t])))
  {
    assert SeenOk(m, t);
    LookSees(m, t);
    LookStep(m, t, Look(m, m.pc[t]));
  }

  predicate WritesItems(pc: PC) {
    pc.Pushing? || pc.Popping? || pc.MustWait?
  }

  predicate WritesQueue(pc: PC) {
    pc.Taking? || pc.Popped? || pc.Enqueueing?
  }

  lemma ItemsKeepInv(m: State, t: Tid)
    requires Inv(m) && t in m.pc && WritesItems(m.pc[t])
    ensures Inv(Next(m, t))
  {
    match m.pc[t]
    case Pushing(_, _) => PushStep(m, t);
    case Popping(_, _, _) => UnlinkStep(m, t);
    case MustWait => FreshStep(m, t);
  }

  lemma QueueKeepsInv(m: State, t: Tid)
    requires Inv(m) && t in m.pc && WritesQueue(m.pc[t])
    ensures Inv(Next(m, t))
  {
    match m.pc[t]
    case Taking(_, _, _) => TakeStep(m, t);
    case Popped(_, _) => DeliverStep(m, t);
    case Enqueueing(_) => EnqueueStep(m, t);
  }

  lemma FirstTestIsNext(m: State, t: Tid)
    requires t in m.pc && m.pc[t].Acquiring?
    ensures Next(m, t) == LockTest(m, t, m.pc[t].op)
  {
  }

  lemma FirstTestStep(m: State, t: Tid)
    requires Inv(m) && t in m.pc && m.pc[t].Acquiring?
    ensures Inv(Next(m, t))
  {
    FirstTestIsNext(m, t);
    LockTestKeepsInv(m, t, m.pc[t].op);
  }

  lemma SecondTestIsNext(m: State, t: Tid)
    requires t in m.pc && m.pc[t].LockWoken?
    ensures Next(m, t) == LockTest(m, t, m.pc[t].op)
  {
  }

  lemma SecondTestStep(m: State, t: Tid)
    requires Inv(m) && t in m.pc && m.pc[t].LockWoken?
    ensures Inv(Next(m, t))
  {
    SecondTestIsNext(m, t);
    LockTestKeepsInv(m, t, m.pc[t].op);
  }

  lemma HolderIsNext(m: State, t: Tid)
    requires t in m.pc && m.pc[t].PastDown?
    ensures Next(m, t) == SetHolder(m, t, m.pc[t].op)
  {
  }

  lemma HolderStep(m: State, t: Tid)
    requires Inv(m) && t in m.pc && m.pc[t].PastDown?
    ensures Inv(Next(m, t))
  {
    HolderIsNext(m, t);
    HolderKeepsInv(m, t, m.pc[t].op);
  }

  lemma LeavingIsNext(m: State, t: Tid)
    requires t in m.pc && m.pc[t].Leaving?
    ensures Next(m, t) == ClearHolder(m, t, Unheld(m.pc[t].result))
  {
  }

  lemma LeavingStep(m: State, t: Tid)
    requires Inv(m) && t in m.pc && m.pc[t].Leaving?
    ensures Inv(Next(m, t))
  {
    LeavingIsNext(m, t);
    LeavingKeepsInv(m, t, m.pc[t].result);
  }

  lemma ReturnIsNext(m: State, t: Tid)
    requires t in m.pc && m.pc[t].Unheld?
    ensures Next(m, t) == Return(m, t, m.pc[t].result)
  {
  }

  lemma ReturnStep(m: State, t: Tid)
    requires Inv(m) && t in m.pc && m.pc[t].Unheld?
    ensures Inv(Next(m, t))
  {
    ReturnIsNext(m, t);
    ReturnKeepsInv(m, t, m.pc[t].result);
  }

  lemma WaitReleaseIsNext(m: State, t: Tid)
    requires t in m.pc && m.pc[t].Enqueued?
    ensures Next(m, t) == ClearHolder(m, t, WaitUnheld)
  {
  }

  lemma WaitReleaseStep(m: State, t: Tid)
    requires Inv(m) && t in m.pc && m.pc[t].Enqueued?
    ensures Inv(Next(m, t))
  {
    WaitReleaseIsNext(m, t);
    WaitReleaseKeepsInv(m, t);
  }

  lemma WaitUnheldIsNext(m: State, t: Tid)
    requires t in m.pc && m.pc[t].WaitUnheld?
    ensures Next(m, t) == LockUp(m, t, CondTest)
  {
  }

  lemma WaitUnheldStep(m: State, t: Tid)
    requires Inv(m) && t in m.pc && m.pc[t].WaitUnheld?
    ensures Inv(Next(m, t))
  {
    WaitUnheldIsNext(m, t);
    WaitUnheldKeepsInv(m, t);
  }

  lemma CondTestedIsNext(m: State, t: Tid)
    requires t in m.pc && (m.pc[t].CondTest? || m.pc[t].CondWoken?)
    ensures Next(m, t) == CondTestStep(m, t)
  {
  }

  lemma CondTestedStep(m: State, t: Tid)
    requires Inv(m) && t in m.pc && (m.pc[t].CondTest? || m.pc[t].CondWoken?)
    ensures Inv(Next(m, t))
  {
    CondTestedIsNext(m, t);
    CondTestedKeepsInv(m, t);
  }

  predicate OnTheLock(pc: PC) {
    pc.Acquiring? || pc.LockWoken? || pc.PastDown? || pc.Leaving? || pc.Unheld?
  }

  lemma LockKeepsInv(m: State, t: Tid)
    requires Inv(m) && Enabled(m, t) && OnTheLock(m.pc[t])
    ensures Inv(Next(m, t))
  {
    match m.pc[t]
    case Acquiring(_) => FirstTestStep(m, t);
    case LockWoken(_) => SecondTestStep(m, t);
    case PastDown(_) => HolderStep(m, t);
    case Leaving(_) => LeavingStep(m, t);
    case Unheld(_) => ReturnStep(m, t);
  }

  lemma WaitKeepsInv(m: State, t: Tid)
    requires Inv(m) && Enabled(m, t) && InCondWait(m.pc[t])
    ensures Inv(Next(m, t))
  {
    match m.pc[t]
    case Enqueued => WaitReleaseStep(m, t);
    case WaitUnheld => WaitUnheldStep(m, t);
    case CondTest => CondTestedStep(m, t);
    case CondWoken => CondTestedStep(m, t);
  }

  lemma StepKeepsInv(m: State, t: Tid)
    requires Inv(m) && Enabled(m, t)
    ensures Inv(Next(m, t))
  {
    if OnlyLooks(m.pc[t]) { LookKeepsInv(m, t); }
    else if WritesItems(m.pc[t]) { ItemsKeepInv(m, t); }
    else if WritesQueue(m.pc[t]) { QueueKeepsInv(m, t); }
    else if OnTheLock(m.pc[t]) { LockKeepsInv(m, t); }
    else { WaitKeepsInv(m, t); }
  }

  lemma StartKeepsInv(m: State, t: Tid, op: Op)
    requires Inv(m) && CanStart(m, t, op)
    ensures Inv(Start(m, t, op))
  {
    MoveBesidesLock(m, Start(m, t, op), t, Acquiring(op));
    MoveOnLockKeepsRest(m, Start(m, t, op), t, Acquiring(op));
  }

  /** `lock_try_acquire` takes the first pass of `lock_acquire` when that would not sleep. */
  lemma TryKeepsInv(m: State, t: Tid, op: Op)
    requires Inv(m) && CanStart(m, t, op)
    ensures Inv(Try(m, t, op))
  {
    if m.lockValue > 0 { LockTestKeepsInv(m, t, op); }
  }

  /** A thread outside starts an operation or tries to, or a thread inside takes its next step. */
  datatype Event = Begin(t: Tid, op: Op) | Attempt(t: Tid, op: Op) | Go(t: Tid)

  predicate Possible(m: State, e: Event) {
    match e
    case Begin(t, op) => CanStart(m, t, op)
    case Attempt(t, op) => CanStart(m, t, op)
    case Go(t) => Enabled(m, t)
  }

  function Happens(m: State, e: Event): State
    requires Possible(m, e)
  {
    match e
    case Begin(t, op) => Start(m, t, op)
    case Attempt(t, op) => Try(m, t, op)
    case Go(t) => Next(m, t)
  }

  predicate PossibleRun(m: State, run: seq<Event>)
    decreases |run|
  {
    run == [] || (Possible(m, run[0]) && PossibleRun(Happens(m, run[0]), run[1..]))
  }

  function After(m: State, run: seq<Event>): State
    requires PossibleRun(m, run)
    decreases |run|
  {
    if run == [] then m else After(Happens(m, run[0]), run[1..])
  }

  /** The list as `sl_init` leaves it, with the given threads about to use it. */
  function Initial(threads: set<Tid>): State {
    State(1, [], None, [], map[], [], map t | t in threads :: Outside, [], [], map[], [], [])
  }

  lemma InitialInv(threads: set<Tid>)
    ensures Inv(Initial(threads))
  {
  }

  lemma EventKeepsInv(m: State, e: Event)
    requires Inv(m) && Possible(m, e)
    ensures Inv(Happens(m, e))
  {
    match e
    case Begin(t, op) => StartKeepsInv(m, t, op);
    case Attempt(t, op) => TryKeepsInv(m, t, op);
    case Go(t) => StepKeepsInv(m, t);
  }

  lemma {:induction false} RunKeepsInv(m: State, run: seq<Event>)
    requires Inv(m) && PossibleRun(m, run)
    ensures Inv(After(m, run))
    decreases |run|
  {
    if run != [] {
      EventKeepsInv(m, run[0]);
      RunKeepsInv(Happens(m, run[0]), run[1..]);
    }
  }

  // ---------- What it means ----------

  /** Mutual exclusion: the semaphore and the threads past it add up to one, and `holder` is null or
      names the only such thread. */
  lemma MutualExclusion(m: State)
    requires Inv(m)
    ensures m.lockValue + |Past(m)| == 1
    ensures m.holder.Some? ==> Past(m) == {m.holder.value}
    ensures forall t, u :: t in m.pc && u in m.pc && HoldsLock(m.pc[t]) && PastLock(m.pc[u]) ==> t == u
  {
    if m.lockValue == 0 {
      var t :| t in m.pc && PastLock(m.pc[t]);
      assert Past(m) == {t};
    } else {
      assert Past(m) == {};
    }
  }

  /** The assertions of the source hold: `lock_acquire` is never called by the holder, and
      `lock_release`, `cond_wait` and `cond_signal` only by it. */
  lemma LockAssertionsHold(m: State, t: Tid)
    requires Inv(m) && t in m.pc
    ensures m.pc[t].Acquiring? ==> m.holder != Some(t)
    ensures m.pc[t].Leaving? || m.pc[t].Enqueued? || m.pc[t].MustWait? || Signals(m.pc[t]) ==> m.holder == Some(t)
  {
  }

  /** In every run from an empty list, items leave in the order they were appended, each once; the
      calls of `sl_remove` made by a thread return, in order, exactly the items that thread took, the
      last perhaps still to come; and signals take waiters in the order they queued, each once. */
  lemma FirstInFirstOut(threads: set<Tid>, run: seq<Event>)
    requires PossibleRun(Initial(threads), run)
    ensures var m := After(Initial(threads), run);
            && m.appended == Items(m.taken) + m.items && m.queued == m.signalled + m.condWaiters
            && (forall t :: t in m.pc ==> By(m.taken, t) == Returned(m, t) + Carried(m.pc[t]))
            && (forall t :: t in m.pc ==> m.pc[t] != Panicked)
  {
    InitialInv(threads);
    RunKeepsInv(Initial(threads), run);
    var m := After(Initial(threads), run);
    forall t | t in m.pc ensures m.pc[t] != Panicked && By(m.taken, t) == Returned(m, t) + Carried(m.pc[t]) {
      assert SeenOk(m, t) && ReturnOk(m, t);
    }
  }

  /** `sl_remove` never pops an empty list, nor `cond_signal` an empty queue: the assertion of
      `list_pop_front` holds. */
  lemma NeverPopsEmpty(m: State, t: Tid)
    requires Inv(m) && t in m.pc
    ensures m.pc[t].Found? || m.pc[t].Popping? ==> m.items != []
    ensures m.pc[t].Selecting? || m.pc[t].Taking? ==> m.condWaiters != []
  {
    assert SeenOk(m, t);
  }

  /** It takes the lock: with two threads past it at once, of two items appended one is lost. */
  lemma UnlockedPushesLoseAnItem(m: State, t: Tid, u: Tid, x: Item, y: Item)
    requires ListInv(m) && t in m.pc && u in m.pc && t != u
    requires m.pc[t] == Pushing(x, m.items) && m.pc[u] == Pushing(y, m.items)
    ensures Enabled(m, t) && Enabled(Next(m, t), u)
    ensures var m' := Next(Next(m, t), u); m'.items == m.items + [y] && !ListInv(m')
  {
    var m' := Next(Next(m, t), u);
    assert |m'.appended| == |m.appended| + 2 && |m'.items| == |m.items| + 1;
  }

  /** A signal sent to a queued waiter is never lost, however the waiter's release of the lock and
      its sleep interleave with it: once the up is delivered the waiter is not asleep and its
      semaphore will let it through exactly once. */
  lemma DeliveredSignalIsKept(m: State, t: Tid)
    requires Inv(m) && t in m.pc && InCondWait(m.pc[t])
    requires t !in m.condWaiters && !UpPending(m, t)
    ensures Wake(m, t) == 1 && Enabled(m, t)
  {
    assert WaiterInv(m, t);
  }

  // ---------- Broadcast ----------

  predicate InBroadcast(pc: PC) {
    pc.Broadcasting? || ((pc.Signalling? || pc.Selecting? || pc.Taking? || pc.Popped?) && pc.all)
  }

  /** The run is possible and t is inside `cond_broadcast` all through it. */
  predicate BroadcastsThrough(m: State, t: Tid, run: seq<Event>)
    decreases |run|
  {
    && t in m.pc && InBroadcast(m.pc[t])
    && (run == [] || (Possible(m, run[0]) && BroadcastsThrough(Happens(m, run[0]), t, run[1..])))
  }

  /** The steps `cond_broadcast` has yet to take before it finds the list of waiters empty. */
  function StepsLeft(m: State, t: Tid): int
    requires t in m.pc
  {
    5 * |m.condWaiters|
    + (match m.pc[t]
       case Signalling(_) => -1
       case Selecting(_) => -2
       case Taking(_, _, _) => -3
       case Popped(_, _) => 1
       case _ => 0)
  }

  function StepsOf(t: Tid, run: seq<Event>): nat {
    if run == [] then 0 else (if run[0] == Go(t) then 1 else 0) + StepsOf(t, run[1..])
  }

  /** The broadcaster's own steps count down. */
  lemma BroadcastStep(m: State, t: Tid)
    requires SeenInv(m) && t in m.pc && InBroadcast(m.pc[t])
    requires InBroadcast(Next(m, t).pc[t])
    ensures Next(m, t).queued == m.queued && StepsLeft(m, t) == StepsLeft(Next(m, t), t) + 1
  {
    assert SeenOk(m, t);
  }

  /** While a thread broadcasts nobody else is past the lock, so nobody queues and nobody is taken. */
  lemma BroadcastAlone(m: State, t: Tid, e: Event)
    requires LockInv(m) && LockQueueInv(m) && Possible(m, e) && t in m.pc && InBroadcast(m.pc[t]) && e != Go(t)
    requires t in Happens(m, e).pc && !PastLock(m.pc[e.t])
    ensures Happens(m, e).queued == m.queued && Happens(m, e).condWaiters == m.condWaiters
    ensures Happens(m, e).pc[t] == m.pc[t]
  {
  }

  lemma BroadcastEvent(m: State, t: Tid, e: Event)
    requires Inv(m) && Possible(m, e) && t in m.pc && InBroadcast(m.pc[t])
    requires t in Happens(m, e).pc && InBroadcast(Happens(m, e).pc[t])
    ensures Happens(m, e).queued == m.queued
    ensures StepsLeft(m, t) == StepsLeft(Happens(m, e), t) + (if e == Go(t) then 1 else 0)
  {
    HolderAlone(m, t);
    if e == Go(t) { BroadcastStep(m, t); } else { BroadcastAlone(m, t, e); }
  }

  lemma {:induction false} BroadcastRun(m: State, t: Tid, run: seq<Event>)
    requires Inv(m) && BroadcastsThrough(m, t, run)
    ensures PossibleRun(m, run) && Inv(After(m, run)) && After(m, run).queued == m.queued
    ensures t in After(m, run).pc && InBroadcast(After(m, run).pc[t])
    ensures StepsLeft(m, t) == StepsLeft(After(m, run), t) + StepsOf(t, run)
    decreases |run|
  {
    if run != [] {
      EventKeepsInv(m, run[0]);
      BroadcastEvent(m, t, run[0]);
      BroadcastRun(Happens(m, run[0]), t, run[1..]);
    }
  }

  /** The loop test of `cond_broadcast` finds no waiters left. */
  predicate BroadcastEnds(m: State, t: Tid) {
    t in m.pc && m.pc[t].Broadcasting? && m.condWaiters == []
  }

  /** `cond_broadcast` wakes exactly the threads that were queued when it began, however other
      threads interleave: its loop ends after five steps for each of them and not before, and by then
      a signal has taken every one, in order, and nobody has queued since. */
  lemma BroadcastReachesAll(m: State, t: Tid, run: seq<Event>)
    requires Inv(m) && BroadcastsThrough(m, t, run) && m.pc[t].Broadcasting?
    ensures PossibleRun(m, run)
    ensures BroadcastEnds(After(m, run), t) <==> StepsOf(t, run) == 5 * |m.condWaiters|
    ensures BroadcastEnds(After(m, run), t) ==> After(m, run).signalled == m.signalled + m.condWaiters
  {
    BroadcastRun(m, t, run);
    BroadcastTally(m, t, After(m, run), StepsOf(t, run));
  }

  lemma BroadcastTally(m: State, t: Tid, m': State, steps: nat)
    requires CondInv(m) && CondInv(m') && m'.queued == m.queued && t in m.pc && t in m'.pc
    requires m.pc[t].Broadcasting? && InBroadcast(m'.pc[t]) && StepsLeft(m, t) == StepsLeft(m', t) + steps
    ensures BroadcastEnds(m', t) <==> steps == 5 * |m.condWaiters|
    ensures BroadcastEnds(m', t) ==> m'.signalled == m.signalled + m.condWaiters
  {
  }

  /** The monitor is never stuck: when no thread can take a step, every thread is outside or is a
      remover asleep on the condition, and then the list is empty. */
  lemma NeverStuck(m: State)
    requires Inv(m) && forall t :: !Enabled(m, t)
    ensures forall t :: t in m.pc ==> m.pc[t].Outside? || (m.pc[t].CondAsleep? && t in m.condWaiters)
    ensures m.condWaiters != [] ==> m.items == []
  {
    assert forall t :: t in m.pc ==> !PastLock(m.pc[t]) by {
      forall t | t in m.pc ensures !PastLock(m.pc[t]) { assert !Enabled(m, t) && SeenOk(m, t); }
    }
    assert m.holder == None;
    NobodyOnTheLock(m);
    forall t | t in m.pc ensures m.pc[t].Outside? || (m.pc[t].CondAsleep? && t in m.condWaiters) {
      assert !Enabled(m, t) && WaiterInv(m, t) && SeenOk(m, t);
    }
    assert Committed(m) == {};
  }

  lemma NobodyOnTheLock(m: State)
    requires LockInv(m) && LockQueueInv(m) && forall t :: !Enabled(m, t)
    requires forall t :: t in m.pc ==> !PastLock(m.pc[t])
    ensures forall t :: t in m.pc ==> !m.pc[t].LockAsleep?
  {
    forall t | t in m.pc ensures !m.pc[t].LockWoken? { assert !Enabled(m, t); }
  }
}
