/** The life of processes over the process table (pintos/src/userprog/plist.c,
    pintos/src/userprog/process.c), with any number of processes starting, storing their exit status,
    ending, and waiting. Inserting, storing and removing happen under the table's lock and are one
    step each here (module TableSteps has their looks and stores); a wait takes no lock, so each slot it
    looks at, its `sema_down`, its reading of the status and its freeing of the slot are steps of their
    own. */
module Processes {
  import opened ProcessTable

  /** Where a parent's wait for a child stands. */
  datatype Wait =
    | Searching(position: nat)          // look at this slot's id
    | Waiting(slot: nat)                // sema_down
    | Woken(slot: nat)                  // read the exit status
    | Fetched(slot: nat, status: int)   // free the slot
    | Done(status: int)

  /** The table, and its history: every id seen as a process or a parent, the parent of every process
      inserted, the status each last stored (-1 at first), those that have been removed, and the waits. */
  datatype World = World(
    table: Table,
    known: set<int>,
    parentOf: map<int, int>,
    last: map<int, int>,
    gone: set<int>,
    waits: map<int, Wait>)

  datatype Step =
    | Insert(id: int, parent: int, slot: nat)
    | Store(id: int, status: int)
    | Remove(id: int)
    | Begin(child: int)
    | Advance(child: int)

  predicate Running(w: World, p: int) { p in w.parentOf && p !in w.gone }

  predicate InWait(w: World, c: int) { c in w.waits && !w.waits[c].Done? }

  /** The parent waits for this child now. */
  ghost predicate Busy(w: World, p: int) {
    exists c :: InWait(w, c) && c in w.parentOf && w.parentOf[c] == p
  }

  predicate MayInsert(w: World, id: int, parent: int) {
    id != 0 && id != parent && parent != 0 && id !in w.known && parent !in w.gone
  }

  /** When a step can happen: ids of processes are new; which free slot is taken, or that none is
      found, is left open, since waits free slots that a search has passed; a process ends once, and
      not while it waits; a wait is by the running, registered parent of a child it has not waited for
      before. */
  ghost predicate Enabled(w: World, s: Step) {
    match s
    case Insert(id, parent, k) => MayInsert(w, id, parent) && k <= |w.table| && (k < |w.table| ==> w.table[k].free)
    case Store(id, _) => id != 0 && id !in w.gone
    case Remove(id) => id != 0 && id !in w.gone && !Busy(w, id)
    case Begin(c) => c in w.parentOf && Running(w, w.parentOf[c]) && c !in w.waits
    case Advance(c) => CanAdvance(w, c)
  }

  predicate CanAdvance(w: World, c: int) {
    c in w.waits &&
    match w.waits[c]
    case Searching(_) => true
    case Waiting(i) => i < |w.table| && w.table[i].sema > 0
    case Woken(i) => i < |w.table|
    case Fetched(i, _) => i < |w.table|
    case Done(_) => false
  }

  /** One step of a wait: `plist_process_exit_status_get` between two points where others may run. */
  function AdvanceWait(w: World, c: int): World
    requires CanAdvance(w, c)
  {
    match w.waits[c]
    case Searching(position) =>
      if position >= |w.table| then w.(waits := w.waits[c := Done(-1)])
      else w.(waits := w.waits[c := if w.table[position].id == c then Waiting(position) else Searching(position + 1)])
    case Waiting(i) =>
      w.(waits := w.waits[c := Woken(i)], table := w.table[i := w.table[i].(sema := w.table[i].sema - 1)])
    case Woken(i) => w.(waits := w.waits[c := Fetched(i, w.table[i].exitStatus)])
    case Fetched(i, status) => w.(waits := w.waits[c := Done(status)], table := w.table[i := w.table[i].(free := true)])
  }

  /** In slot k, or failing for want of one. */
  function InsertProcess(w: World, id: int, parent: int, k: nat): World
    requires k <= |w.table|
  {
    var w1 := w.(known := w.known + {id, parent});
    if k == |w.table| then w1
    else w1.(table := InsertedAt(w.table, id, parent, k),
             parentOf := w.parentOf[id := parent], last := w.last[id := -1])
  }

  function StoreStatus(w: World, id: int, status: int): World {
    w.(table := StatusStored(w.table, id, status), last := if id in w.last then w.last[id := status] else w.last)
  }

  function RemoveProcess(w: World, id: int): World {
    w.(table := Removed(w.table, id), gone := w.gone + {id}, known := w.known + {id})
  }

  ghost function Next(w: World, s: Step): World
    requires Enabled(w, s)
  {
    match s
    case Insert(id, parent, k) => InsertProcess(w, id, parent, k)
    case Store(id, status) => StoreStatus(w, id, status)
    case Remove(id) => RemoveProcess(w, id)
    case Begin(c) => w.(waits := w.waits[c := Searching(0)])
    case Advance(c) => AdvanceWait(w, c)
  }

  // ---------- The invariant ----------

  /** No two slots have the same id, zero aside. */
  ghost predicate IdsUnique(t: Table) {
    forall i, j :: 0 <= i < j < |t| && t[i].id == t[j].id ==> t[i].id == 0
  }

  ghost predicate HistoryInv(w: World) {
    && 0 !in w.parentOf && w.last.Keys == w.parentOf.Keys
    && w.parentOf.Keys <= w.known && w.gone <= w.known
    && (forall c :: c in w.parentOf ==> w.parentOf[c] in w.known && w.parentOf[c] != c && w.parentOf[c] != 0)
    && (forall i :: 0 <= i < |w.table| && w.table[i].id != 0 ==> w.table[i].id in w.parentOf)
  }

  /** Process c still has its slot. */
  predicate Held(t: Table, c: int) {
    FindId(t, c) < |t| && !t[FindId(t, c)].free
  }

  /** The unit of the slot's semaphore is there from the end of the process to its parent's wait. */
  predicate Unclaimed(w: World, c: int) {
    c in w.gone && (c in w.waits ==> w.waits[c].Searching? || w.waits[c].Waiting?)
  }

  /** What a used slot says is so: its process is alive exactly if it has not ended, its parent
      likewise, and one of the two is. */
  ghost predicate SlotInv(w: World, s: Slot) {
    && s.id in w.parentOf && s.id in w.last
    && s.parentId == w.parentOf[s.id]
    && (s.alive <==> s.id !in w.gone)
    && (s.parentAlive <==> Running(w, s.parentId))
    && (s.alive || s.parentAlive)
    && s.exitStatus == w.last[s.id]
    && s.sema == (if Unclaimed(w, s.id) then 1 else 0)
  }

  /** Every process that has not ended has its slot; one that has keeps it until its running parent's
      wait is over. */
  ghost predicate KeepsSlot(w: World, c: int)
    requires c in w.parentOf
  {
    c !in w.gone || (Running(w, w.parentOf[c]) && !(c in w.waits && w.waits[c].Done?))
  }

  ghost predicate TableInv(w: World) {
    && IdsUnique(w.table)
    && (forall i :: 0 <= i < |w.table| ==> if w.table[i].free then !w.table[i].alive else SlotInv(w, w.table[i]))
    && (forall c :: c in w.parentOf && KeepsSlot(w, c) ==> Held(w.table, c))
  }

  /** A wait has its child's slot in view, and takes the status only after the child has ended. */
  ghost predicate WaitInv(w: World, c: int)
    requires c in w.waits
  {
    && c in w.parentOf && c in w.last
    && (!w.waits[c].Done? ==> Running(w, w.parentOf[c]))
    && match w.waits[c]
       case Searching(position) => position <= FindId(w.table, c)
       case Waiting(i) => i == FindId(w.table, c)
       case Woken(i) => i == FindId(w.table, c) && c in w.gone
       case Fetched(i, status) => i == FindId(w.table, c) && c in w.gone && status == w.last[c]
       case Done(status) => c in w.gone && status == w.last[c]
  }

  ghost predicate Inv(w: World) {
    HistoryInv(w) && TableInv(w) && forall c :: c in w.waits ==> WaitInv(w, c)
  }

  // ---------- Consequences ----------

  /** A used slot means that its process or that process's parent is alive. */
  lemma UsedSlotHasLiving(w: World, i: nat)
    requires Inv(w) && i < |w.table| && !w.table[i].free
    ensures exists j :: 0 <= j < |w.table| && w.table[j].alive
  {
    assert SlotInv(w, w.table[i]);
    if !w.table[i].alive {
      var p := w.table[i].parentId;
      assert Held(w.table, p);
      assert SlotInv(w, w.table[FindId(w.table, p)]);
    }
  }

  /** When no process is alive every slot is free: no slot is lost. */
  lemma NoneAliveAllFree(w: World)
    requires Inv(w) && forall i :: 0 <= i < |w.table| ==> !w.table[i].alive
    ensures forall i :: 0 <= i < |w.table| ==> w.table[i].free
  {
    forall i | 0 <= i < |w.table| ensures w.table[i].free {
      if !w.table[i].free { UsedSlotHasLiving(w, i); }
    }
  }

  /** The parent's state kept in a used slot is what looking the parent up would give. */
  lemma ParentAliveIsReal(w: World, i: nat)
    requires Inv(w) && i < |w.table| && !w.table[i].free
    ensures w.table[i].parentAlive <==> IsAlive(w.table, w.table[i].parentId)
  {
    assert SlotInv(w, w.table[i]);
    AliveIsRunning(w, w.table[i].parentId);
  }

  lemma AliveIsRunning(w: World, p: int)
    requires HistoryInv(w) && TableInv(w) && p != 0
    ensures IsAlive(w.table, p) <==> Running(w, p)
  {
    var k := FindId(w.table, p);
    assert Running(w, p) ==> Held(w.table, p);
    assert k < |w.table| && !w.table[k].free ==> SlotInv(w, w.table[k]);
  }

  // ---------- The table through one locked operation ----------

  lemma FindUnique(t: Table, i: nat)
    requires IdsUnique(t) && i < |t| && t[i].id != 0
    ensures FindId(t, t[i].id) == i
  {
  }

  /** What a removal does: its own slot ends, with one up; the slots of its children are told. */
  ghost predicate RemovalOf(w: World, t': Table, id: int) {
    var t, k := w.table, FindId(w.table, id);
    && k < |t| && !t[k].free && |t'| == |t|
    && (forall i :: 0 <= i < |t| && i != k ==> t'[i] == if t[i].parentId == id then Orphaned(t[i]) else t[i])
    && t'[k] == t[k].(alive := false, free := !Running(w, t[k].parentId), sema := t[k].sema + 1)
  }

  lemma RemovedSlots(w: World, id: int)
    requires HistoryInv(w) && TableInv(w) && Running(w, id)
    ensures RemovalOf(w, Removed(w.table, id), id)
  {
    var k := FindId(w.table, id);
    assert Held(w.table, id);
    assert SlotInv(w, w.table[k]);
    var p := w.table[k].parentId;
    AliveIsRunning(w, p);
    var t1 := w.table[k := w.table[k].(alive := false)];
    FindIdIs(t1, p, FindId(w.table, p));
  }

  lemma FindSame(t: Table, t': Table, c: int)
    requires |t'| == |t| && forall i :: 0 <= i < |t| ==> (t'[i].id == c <==> t[i].id == c)
    ensures FindId(t', c) == FindId(t, c)
  {
    FindIdIs(t', c, FindId(t, c));
  }

  /** A new id is in no slot. */
  lemma FreshId(w: World, id: int)
    requires HistoryInv(w) && id != 0 && id !in w.known
    ensures forall i :: 0 <= i < |w.table| ==> w.table[i].id != id
    ensures id !in w.parentOf && id !in w.gone
  {
  }

  /** The slot an insertion fills. */
  lemma InsertedSlot(w: World, id: int, parent: int, k: nat)
    requires HistoryInv(w) && TableInv(w) && Enabled(w, Insert(id, parent, k)) && k < |w.table|
    ensures InsertedAt(w.table, id, parent, k)
         == w.table[k := Slot(id, -1, false, true, parent, Running(w, parent), 0)]
  {
    var t1 := w.table[k := w.table[k].(free := false, alive := true, id := id, parentId := parent)];
    AliveIsRunning(w, parent);
    if w.table[k].id == parent {
      FindUnique(w.table, k);
      NoOtherParentSlot(w, k, parent, t1);
    } else {
      FindSame(w.table, t1, parent);
    }
  }

  lemma NoOtherParentSlot(w: World, k: nat, parent: int, t1: Table)
    requires IdsUnique(w.table) && k < |w.table| == |t1| && w.table[k].id == parent != 0 && t1 == w.table[k := t1[k]]
    requires t1[k].id != parent
    ensures !IsAlive(t1, parent)
  {
  }

  lemma InsertKeepsHistory(w: World, id: int, parent: int, k: nat)
    requires HistoryInv(w) && TableInv(w) && Enabled(w, Insert(id, parent, k))
    ensures HistoryInv(InsertProcess(w, id, parent, k))
  {
    FreshId(w, id);
    if k < |w.table| { InsertedSlot(w, id, parent, k); }
  }

  /** A process that holds a slot is found there still. */
  lemma InsertKeepsHeld(w: World, id: int, parent: int, k: nat, c: int)
    requires HistoryInv(w) && TableInv(w) && Enabled(w, Insert(id, parent, k)) && k < |w.table|
    requires c in w.parentOf && Held(w.table, c)
    ensures FindId(InsertedAt(w.table, id, parent, k), c) == FindId(w.table, c)
    ensures Held(InsertedAt(w.table, id, parent, k), c)
  {
    InsertedSlot(w, id, parent, k);
    FreshId(w, id);
    if w.table[k].id == c { FindUnique(w.table, k); }
    FindSame(w.table, InsertedAt(w.table, id, parent, k), c);
  }

  lemma WaitsRegistered(w: World)
    requires Inv(w)
    ensures w.waits.Keys <= w.parentOf.Keys
  {
    forall c | c in w.waits ensures c in w.parentOf { assert WaitInv(w, c); }
  }

  lemma InsertKeepsSlots(w: World, id: int, parent: int, k: nat, i: nat)
    requires Inv(w) && Enabled(w, Insert(id, parent, k)) && k < |w.table|
    requires i < |w.table|
    ensures var w' := InsertProcess(w, id, parent, k);
            if w'.table[i].free then !w'.table[i].alive else SlotInv(w', w'.table[i])
  {
    InsertedSlot(w, id, parent, k);
    FreshId(w, id);
    WaitsRegistered(w);
    if i != k && !w.table[i].free { assert SlotInv(w, w.table[i]); }
  }

  lemma InsertKeepsTable(w: World, id: int, parent: int, k: nat)
    requires Inv(w) && Enabled(w, Insert(id, parent, k)) && k < |w.table|
    ensures TableInv(InsertProcess(w, id, parent, k))
  {
    var w' := InsertProcess(w, id, parent, k);
    InsertedSlot(w, id, parent, k);
    FreshId(w, id);
    forall i | 0 <= i < |w.table| ensures if w'.table[i].free then !w'.table[i].alive else SlotInv(w', w'.table[i]) {
      InsertKeepsSlots(w, id, parent, k, i);
    }
    forall c | c in w'.parentOf && KeepsSlot(w', c) ensures Held(w'.table, c) {
      if c == id { FindIdIs(w'.table, id, k); }
      else {
        assert KeepsSlot(w, c);
        InsertKeepsHeld(w, id, parent, k, c);
      }
    }
  }

  lemma InsertKeepsWaits(w: World, id: int, parent: int, k: nat, c: int)
    requires Inv(w) && Enabled(w, Insert(id, parent, k)) && k < |w.table| && c in w.waits
    ensures WaitInv(InsertProcess(w, id, parent, k), c)
  {
    assert WaitInv(w, c);
    FreshId(w, id);
    if !w.waits[c].Done? { InsertKeepsHeld(w, id, parent, k, c); }
  }

  lemma InsertKeepsInv(w: World, id: int, parent: int, k: nat)
    requires Inv(w) && Enabled(w, Insert(id, parent, k))
    ensures Inv(InsertProcess(w, id, parent, k))
  {
    InsertKeepsHistory(w, id, parent, k);
    if k < |w.table| {
      InsertKeepsTable(w, id, parent, k);
      forall c | c in w.waits ensures WaitInv(InsertProcess(w, id, parent, k), c) {
        InsertKeepsWaits(w, id, parent, k, c);
      }
    } else {
      FullTableSame(w, id, parent, k);
    }
  }

  lemma FullTableSame(w: World, id: int, parent: int, k: nat)
    requires Inv(w) && k == |w.table| && HistoryInv(InsertProcess(w, id, parent, k))
    ensures Inv(InsertProcess(w, id, parent, k))
  {
    var w' := InsertProcess(w, id, parent, k);
    forall i | 0 <= i < |w.table| && !w.table[i].free ensures SlotInv(w', w.table[i]) { assert SlotInv(w, w.table[i]); }
    forall c | c in w'.parentOf && KeepsSlot(w', c) ensures Held(w'.table, c) { assert KeepsSlot(w, c); }
    forall c | c in w.waits ensures WaitInv(w', c) { assert WaitInv(w, c); }
  }

  // ---------- Storing a status ----------

  /** An id no process has is in no slot. */
  lemma UnregisteredNowhere(w: World, id: int)
    requires HistoryInv(w) && id != 0 && id !in w.parentOf
    ensures FindId(w.table, id) == |w.table|
  {
  }

  lemma StoreKeepsSlot(w: World, id: int, status: int, i: nat)
    requires HistoryInv(w) && TableInv(w) && id in w.parentOf && id !in w.gone && i < |w.table| && !w.table[i].free
    ensures var w' := StoreStatus(w, id, status); |w'.table| == |w.table| && SlotInv(w', w'.table[i])
  {
    assert KeepsSlot(w, id) && Held(w.table, id);
    assert SlotInv(w, w.table[i]);
    if w.table[i].id == id { FindUnique(w.table, i); }
  }

  lemma StoreKeepsFound(w: World, id: int, status: int, c: int)
    requires id in w.parentOf
    ensures var t' := StatusStored(w.table, id, status);
            FindId(t', c) == FindId(w.table, c) && (Held(w.table, c) ==> Held(t', c))
  {
    FindSame(w.table, StatusStored(w.table, id, status), c);
  }

  lemma StoreKeepsTable(w: World, id: int, status: int)
    requires HistoryInv(w) && TableInv(w) && id in w.parentOf && id !in w.gone
    ensures HistoryInv(StoreStatus(w, id, status)) && TableInv(StoreStatus(w, id, status))
  {
    var w' := StoreStatus(w, id, status);
    forall i | 0 <= i < |w.table| && !w.table[i].free ensures SlotInv(w', w'.table[i]) {
      StoreKeepsSlot(w, id, status, i);
    }
    forall c | c in w'.parentOf && KeepsSlot(w', c) ensures Held(w'.table, c) {
      assert KeepsSlot(w, c);
      StoreKeepsFound(w, id, status, c);
    }
  }

  lemma StoreKeepsWait(w: World, id: int, status: int, c: int)
    requires id in w.parentOf && id !in w.gone && c in w.waits && WaitInv(w, c)
    ensures WaitInv(StoreStatus(w, id, status), c)
  {
    StoreKeepsFound(w, id, status, c);
  }

  lemma StoreKeepsInv(w: World, id: int, status: int)
    requires Inv(w) && Enabled(w, Store(id, status))
    ensures Inv(StoreStatus(w, id, status))
  {
    if id !in w.parentOf {
      UnregisteredNowhere(w, id);
      assert StoreStatus(w, id, status) == w;
    } else {
      StoreKeepsTable(w, id, status);
      forall c | c in w.waits ensures WaitInv(StoreStatus(w, id, status), c) {
        assert WaitInv(w, c);
        StoreKeepsWait(w, id, status, c);
      }
    }
  }

  // ---------- Removing a process ----------

  function AfterRemoval(w: World, t': Table, id: int): World {
    w.(table := t', gone := w.gone + {id}, known := w.known + {id})
  }

  lemma RemoveKeepsOther(w: World, t': Table, id: int, i: nat)
    requires Inv(w) && id in w.parentOf && RemovalOf(w, t', id) && i < |w.table| && i != FindId(w.table, id)
    ensures if t'[i].free then !t'[i].alive else SlotInv(AfterRemoval(w, t', id), t'[i])
  {
    if !w.table[i].free {
      assert SlotInv(w, w.table[i]);
      if w.table[i].id == id { FindUnique(w.table, i); }
    }
  }

  lemma RemoveKeepsOwn(w: World, t': Table, id: int)
    requires Inv(w) && Enabled(w, Remove(id)) && id in w.parentOf && RemovalOf(w, t', id)
    ensures var s := t'[FindId(w.table, id)];
            !s.alive && (s.free || SlotInv(AfterRemoval(w, t', id), s))
  {
    assert SlotInv(w, w.table[FindId(w.table, id)]);
    if id in w.waits { assert WaitInv(w, id); }
  }

  lemma RemoveKeepsHeld(w: World, t': Table, id: int, c: int)
    requires Inv(w) && id in w.parentOf && RemovalOf(w, t', id)
    requires c in w.parentOf && KeepsSlot(AfterRemoval(w, t', id), c)
    ensures Held(t', c)
  {
    FindSame(w.table, t', c);
    assert KeepsSlot(w, c) && Held(w.table, c);
    assert SlotInv(w, w.table[FindId(w.table, c)]);
  }

  lemma RemoveKeepsWait(w: World, t': Table, id: int, c: int)
    requires Inv(w) && Enabled(w, Remove(id)) && id in w.parentOf && RemovalOf(w, t', id) && c in w.waits
    ensures WaitInv(AfterRemoval(w, t', id), c)
  {
    assert WaitInv(w, c);
    FindSame(w.table, t', c);
    if InWait(w, c) { assert w.parentOf[c] != id; }
  }

  lemma RemovalKeepsHistory(w: World, t': Table, id: int)
    requires HistoryInv(w) && id in w.parentOf && RemovalOf(w, t', id)
    ensures HistoryInv(AfterRemoval(w, t', id)) && (IdsUnique(w.table) ==> IdsUnique(t'))
  {
  }

  lemma RemovalKeepsTable(w: World, t': Table, id: int)
    requires Inv(w) && Enabled(w, Remove(id)) && id in w.parentOf && RemovalOf(w, t', id)
    ensures HistoryInv(AfterRemoval(w, t', id)) && TableInv(AfterRemoval(w, t', id))
  {
    var w' := AfterRemoval(w, t', id);
    RemovalKeepsHistory(w, t', id);
    forall i | 0 <= i < |t'| ensures if t'[i].free then !t'[i].alive else SlotInv(w', t'[i]) {
      if i == FindId(w.table, id) { RemoveKeepsOwn(w, t', id); } else { RemoveKeepsOther(w, t', id, i); }
    }
    forall c | c in w'.parentOf && KeepsSlot(w', c) ensures Held(t', c) { RemoveKeepsHeld(w, t', id, c); }
  }

  lemma RemovalKeepsInv(w: World, t': Table, id: int)
    requires Inv(w) && Enabled(w, Remove(id)) && id in w.parentOf && RemovalOf(w, t', id)
    ensures Inv(AfterRemoval(w, t', id))
  {
    RemovalKeepsTable(w, t', id);
    forall c | c in w.waits ensures WaitInv(AfterRemoval(w, t', id), c) { RemoveKeepsWait(w, t', id, c); }
  }

  lemma RemoveKeepsInv(w: World, id: int)
    requires Inv(w) && Enabled(w, Remove(id))
    ensures Inv(RemoveProcess(w, id))
  {
    if id !in w.parentOf {
      UnregisteredRemoved(w, id);
    } else {
      RemovedSlots(w, id);
      RemovalKeepsInv(w, Removed(w.table, id), id);
    }
  }

  lemma UnregisteredRemoved(w: World, id: int)
    requires Inv(w) && Enabled(w, Remove(id)) && id !in w.parentOf
    ensures Inv(RemoveProcess(w, id))
  {
    var w' := RemoveProcess(w, id);
    UnregisteredNowhere(w, id);
    forall i | 0 <= i < |w.table| && !w.table[i].free ensures SlotInv(w', w.table[i]) { assert SlotInv(w, w.table[i]); }
    forall c | c in w'.parentOf && KeepsSlot(w', c) ensures Held(w'.table, c) { assert KeepsSlot(w, c); }
    forall c | c in w.waits ensures WaitInv(w', c) { assert WaitInv(w, c); }
  }

  // ---------- Waiting ----------

  lemma BeginKeepsInv(w: World, c: int)
    requires Inv(w) && Enabled(w, Begin(c))
    ensures Inv(w.(waits := w.waits[c := Searching(0)]))
  {
    var w' := w.(waits := w.waits[c := Searching(0)]);
    forall i | 0 <= i < |w.table| && !w.table[i].free ensures SlotInv(w', w.table[i]) { assert SlotInv(w, w.table[i]); }
    forall d | d in w'.parentOf && KeepsSlot(w', d) ensures Held(w'.table, d) { assert KeepsSlot(w, d); }
    forall d | d in w'.waits ensures WaitInv(w', d) { if d != c { assert WaitInv(w, d); } }
  }

  /** While a wait is under way its child's slot stays put. */
  lemma WaitHolds(w: World, c: int)
    requires Inv(w) && InWait(w, c)
    ensures c in w.parentOf && WaitInv(w, c) && Held(w.table, c) && SlotInv(w, w.table[FindId(w.table, c)])
  {
    assert WaitInv(w, c);
    assert KeepsSlot(w, c);
  }

  /** One slot, the child's, changes in a step of a wait, and not its id. */
  lemma AdvanceTable(w: World, c: int)
    requires Inv(w) && CanAdvance(w, c)
    ensures var w' := AdvanceWait(w, c); var k := FindId(w.table, c);
            && k < |w.table| && w.table[k].id == c
            && w'.table == w.table[k := w.table[k].(
                 sema := if w.waits[c].Waiting? then w.table[k].sema - 1 else w.table[k].sema,
                 free := w.waits[c].Fetched?)]
            && w'.waits.Keys == w.waits.Keys && (forall d :: d in w.waits && d != c ==> w'.waits[d] == w.waits[d])
  {
    WaitHolds(w, c);
  }

  lemma AdvanceKeepsSlots(w: World, c: int, i: nat)
    requires Inv(w) && CanAdvance(w, c) && i < |w.table|
    ensures var w' := AdvanceWait(w, c);
            if w'.table[i].free then !w'.table[i].alive else SlotInv(w', w'.table[i])
  {
    AdvanceTable(w, c);
    WaitHolds(w, c);
    if !w.table[i].free {
      assert SlotInv(w, w.table[i]);
      if i != FindId(w.table, c) && w.table[i].id == c { FindUnique(w.table, i); }
    }
  }

  lemma AdvanceKeepsWaits(w: World, c: int, d: int)
    requires Inv(w) && CanAdvance(w, c) && d in w.waits
    ensures WaitInv(AdvanceWait(w, c), d)
  {
    AdvanceTable(w, c);
    FindSame(w.table, AdvanceWait(w, c).table, d);
    assert WaitInv(w, d);
    if d == c { WaitHolds(w, c); }
  }

  lemma AdvanceKeepsInv(w: World, c: int)
    requires Inv(w) && CanAdvance(w, c)
    ensures Inv(AdvanceWait(w, c))
  {
    var w' := AdvanceWait(w, c);
    AdvanceTable(w, c);
    forall i | 0 <= i < |w.table| ensures if w'.table[i].free then !w'.table[i].alive else SlotInv(w', w'.table[i]) {
      AdvanceKeepsSlots(w, c, i);
    }
    forall d | d in w'.parentOf && KeepsSlot(w', d) ensures Held(w'.table, d) { AdvanceKeepsHeld(w, c, d); }
    forall d | d in w'.waits ensures WaitInv(w', d) { AdvanceKeepsWaits(w, c, d); }
  }

  lemma AdvanceKeepsHeld(w: World, c: int, d: int)
    requires Inv(w) && CanAdvance(w, c) && d in w.parentOf && KeepsSlot(AdvanceWait(w, c), d)
    ensures Held(AdvanceWait(w, c).table, d)
  {
    AdvanceTable(w, c);
    FindSame(w.table, AdvanceWait(w, c).table, d);
    assert WaitInv(w, c);
    assert KeepsSlot(w, d) && Held(w.table, d);
  }

  // ---------- Every run ----------

  lemma StepKeepsInv(w: World, s: Step)
    requires Inv(w) && Enabled(w, s)
    ensures Inv(Next(w, s))
  {
    match s
    case Insert(id, parent, k) => InsertKeepsInv(w, id, parent, k);
    case Store(id, status) => StoreKeepsInv(w, id, status);
    case Remove(id) => RemoveKeepsInv(w, id);
    case Begin(c) => BeginKeepsInv(w, c);
    case Advance(c) => AdvanceKeepsInv(w, c);
  }

  function Initial(): World {
    World(seq(PLIST_SIZE, i => Slot(0, 0, true, false, 0, false, 0)), {}, map[], map[], {}, map[])
  }

  ghost predicate IsStep(w: World, w': World) {
    exists s :: Enabled(w, s) && w' == Next(w, s)
  }

  ghost predicate IsRun(run: seq<World>) {
    && run != [] && run[0] == Initial()
    && forall i :: 0 <= i < |run| - 1 ==> IsStep(run[i], run[i + 1])
  }

  /** In every run, every state is sound. */
  lemma {:induction false} RunKeepsInv(run: seq<World>, i: nat)
    requires IsRun(run) && i < |run|
    ensures Inv(run[i])
  {
    if i > 0 {
      RunKeepsInv(run, i - 1);
      assert IsStep(run[i - 1], run[i - 1 + 1]);
      var s :| Enabled(run[i - 1], s) && run[i] == Next(run[i - 1], s);
      StepKeepsInv(run[i - 1], s);
    }
  }

  /** The history is what the steps have done: a process inserted starts with -1 as its status, storing
      replaces it, removing ends a process, and nothing else changes either. */
  lemma HistoryIsSteps(w: World, s: Step, c: int)
    requires Enabled(w, s) && HistoryInv(w)
    ensures var w' := Next(w, s);
            var entered := s.Insert? && s.slot < |w.table| && s.id == c;
            && (c in w'.parentOf <==> c in w.parentOf || entered)
            && (entered ==> w'.parentOf[c] == s.parent)
            && (c in w.parentOf && !entered ==> w'.parentOf[c] == w.parentOf[c])
            && (c in w'.last <==> c in w.last || entered)
            && (entered ==> w'.last[c] == -1)
            && (c in w.last && !entered ==> w'.last[c] == if s.Store? && s.id == c then s.status else w.last[c])
            && (c in w'.gone <==> c in w.gone || s == Remove(c))
  {
  }

  /** A wait that has returned saw its child end, and returned the status it last stored, or -1. */
  lemma WaitReturnsLastStatus(run: seq<World>, i: nat, c: int)
    requires IsRun(run) && i < |run| && c in run[i].waits && run[i].waits[c].Done?
    ensures c in run[i].gone && c in run[i].last && run[i].waits[c].status == run[i].last[c]
  {
    RunKeepsInv(run, i);
    assert WaitInv(run[i], c);
  }

  /** A wait never hangs: it is held up only while its child runs. */
  lemma WaitProceeds(w: World, c: int)
    requires Inv(w) && InWait(w, c)
    ensures CanAdvance(w, c) || (w.waits[c].Waiting? && c !in w.gone)
  {
    WaitHolds(w, c);
  }
}
