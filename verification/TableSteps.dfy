/** The operations on the process table store by store (pintos/src/userprog/plist.c): the table's lock
    keeps two of them apart, but a wait takes no lock and can come in between any two steps. What an
    operation has done so far is set against a table as it would be without it, which is a state of
    module Processes; when the operation takes effect, that state takes its step. */
module TableSteps {
  import opened ProcessTable
  import opened Processes

  /** What the holder of the lock does next; searches look at one slot at a time. */
  datatype Op =
    | Idle
    | InsertScan(id: int, parent: int, i: nat)                  // is slot i free?
    | InsertFill(id: int, parent: int, k: nat, n: nat)          // store free, alive, id, parent_id in turn
    | InsertLook(id: int, parent: int, k: nat, i: nat)          // is slot i the parent's?
    | InsertSeen(id: int, parent: int, k: nat, i: nat)          // fetch `alive` from it
    | InsertFinish(id: int, parent: int, k: nat, alive: bool, n: nat)  // parent_alive, exit_status, p_sema
    | StoreScan(id: int, status: int, i: nat)                   // is slot i the process's?
    | StoreWrite(id: int, status: int, k: nat)
    | RemoveScan(id: int, i: nat)                               // is slot i the process's?
    | RemoveMark(id: int, k: nat)                               // alive = false
    | RemoveLook(id: int, k: nat, i: nat)                       // is slot i the parent's?
    | RemoveSeen(id: int, k: nat, i: nat)                       // fetch `alive` from it
    | RemoveFree(id: int, k: nat, alive: bool)                  // free = true, unless the parent is alive
    | RemoveChild(id: int, k: nat, i: nat)                      // is slot i a child's?
    | RemoveTell(id: int, k: nat, i: nat)                       // parent_alive = false
    | RemoveReap(id: int, k: nat, i: nat)                       // free = true, unless it is alive
    | RemoveUp(id: int, k: nat)                                 // sema_up

  /** The table and the waits as they are, and the state they stand for. */
  datatype Fine = Fine(table: Table, waits: map<int, Wait>, op: Op, w: World)

  datatype Move =
    | StartInsert(id: int, parent: int)
    | StartStore(id: int, status: int)
    | StartRemove(id: int)
    | Go
    | BeginWait(child: int)
    | AdvanceInWait(child: int)

  // ---------- The steps ----------

  /** The n-th store into a slot just found free. */
  function Stored(s: Slot, id: int, parent: int, n: nat): Slot {
    if n == 0 then s.(free := false) else if n == 1 then s.(alive := true)
    else if n == 2 then s.(id := id) else s.(parentId := parent)
  }

  function FinishStored(s: Slot, alive: bool, n: nat): Slot {
    if n == 0 then s.(parentAlive := alive) else if n == 1 then s.(exitStatus := -1) else s.(sema := 0)
  }

  function Put(f: Fine, k: nat, s: Slot, op: Op): Fine
    requires k < |f.table|
  {
    f.(table := f.table[k := s], op := op)
  }

  function InsertStep(f: Fine): Fine
    requires f.op.InsertScan? || f.op.InsertFill? || f.op.InsertLook? || f.op.InsertSeen? || f.op.InsertFinish?
    requires InTable(f.op, |f.table|) && |f.w.table| == |f.table|
  {
    match f.op
    case InsertScan(id, parent, i) =>
      if i >= |f.table| then f.(op := Idle, w := InsertProcess(f.w, id, parent, |f.table|))
      else f.(op := if f.table[i].free then InsertFill(id, parent, i, 0) else InsertScan(id, parent, i + 1))
    case InsertFill(id, parent, k, n) =>
      Put(f, k, Stored(f.table[k], id, parent, n),
          if n < 3 then InsertFill(id, parent, k, n + 1) else InsertLook(id, parent, k, 0))
    case InsertLook(id, parent, k, i) =>
      f.(op := if i >= |f.table| then InsertFinish(id, parent, k, false, 0)
               else if f.table[i].id == parent then InsertSeen(id, parent, k, i)
               else InsertLook(id, parent, k, i + 1))
    case InsertSeen(id, parent, k, i) => f.(op := InsertFinish(id, parent, k, f.table[i].alive, 0))
    case InsertFinish(id, parent, k, alive, n) =>
      var f' := Put(f, k, FinishStored(f.table[k], alive, n), InsertFinish(id, parent, k, alive, n + 1));
      if n < 2 then f' else f'.(op := Idle, w := InsertProcess(f.w, id, parent, k))
  }

  function StoreStep(f: Fine): Fine
    requires (f.op.StoreScan? || f.op.StoreWrite?) && InTable(f.op, |f.table|)
  {
    match f.op
    case StoreScan(id, status, i) =>
      if i >= |f.table| then f.(op := Idle, w := StoreStatus(f.w, id, status))
      else f.(op := if f.table[i].id == id then StoreWrite(id, status, i) else StoreScan(id, status, i + 1))
    case StoreWrite(id, status, k) =>
      Put(f, k, f.table[k].(exitStatus := status), Idle).(w := StoreStatus(f.w, id, status))
  }

  predicate IsRemove(op: Op) {
    || op.RemoveScan? || op.RemoveMark? || op.RemoveLook? || op.RemoveSeen? || op.RemoveFree? || op.RemoveChild?
    || op.RemoveTell? || op.RemoveReap? || op.RemoveUp?
  }

  function RemoveStep(f: Fine): Fine
    requires IsRemove(f.op) && InTable(f.op, |f.table|)
  {
    match f.op
    case RemoveScan(id, i) =>
      if i >= |f.table| then f.(op := Idle, w := RemoveProcess(f.w, id))
      else f.(op := if f.table[i].id == id then RemoveMark(id, i) else RemoveScan(id, i + 1))
    case RemoveMark(id, k) => Put(f, k, f.table[k].(alive := false), RemoveLook(id, k, 0))
    case RemoveLook(id, k, i) =>
      f.(op := if i >= |f.table| then RemoveFree(id, k, false)
               else if f.table[i].id == f.table[k].parentId then RemoveSeen(id, k, i)
               else RemoveLook(id, k, i + 1))
    case RemoveSeen(id, k, i) => f.(op := RemoveFree(id, k, f.table[i].alive))
    case RemoveFree(id, k, alive) =>
      if alive then f.(op := RemoveChild(id, k, 0)) else Put(f, k, f.table[k].(free := true), RemoveChild(id, k, 0))
    case RemoveChild(id, k, i) =>
      f.(op := if i >= |f.table| then RemoveUp(id, k)
               else if f.table[i].parentId == id then RemoveTell(id, k, i)
               else RemoveChild(id, k, i + 1))
    case RemoveTell(id, k, i) => Put(f, i, f.table[i].(parentAlive := false), RemoveReap(id, k, i))
    case RemoveReap(id, k, i) =>
      if f.table[i].alive then f.(op := RemoveChild(id, k, i + 1))
      else Put(f, i, f.table[i].(free := true), RemoveChild(id, k, i + 1))
    case RemoveUp(id, k) =>
      Put(f, k, f.table[k].(sema := f.table[k].sema + 1), Idle).(w := RemoveProcess(f.w, id))
  }

  /** The slots an operation has in hand are there. */
  predicate InTable(op: Op, size: nat) {
    match op
    case InsertFill(_, _, k, _) => k < size
    case InsertLook(_, _, k, _) => k < size
    case InsertSeen(_, _, k, i) => k < size && i < size
    case InsertFinish(_, _, k, _, _) => k < size
    case StoreWrite(_, _, k) => k < size
    case RemoveMark(_, k) => k < size
    case RemoveLook(_, k, _) => k < size
    case RemoveSeen(_, k, i) => k < size && i < size
    case RemoveFree(_, k, _) => k < size
    case RemoveChild(_, k, _) => k < size
    case RemoveTell(_, k, i) => k < size && i < size
    case RemoveReap(_, k, i) => k < size && i < size
    case RemoveUp(_, k) => k < size
    case _ => true
  }

  function OpStep(f: Fine): Fine
    requires !f.op.Idle? && InTable(f.op, |f.table|) && |f.w.table| == |f.table|
  {
    if IsRemove(f.op) then RemoveStep(f)
    else if f.op.StoreScan? || f.op.StoreWrite? then StoreStep(f)
    else InsertStep(f)
  }

  /** What a wait sees: the table as it is. */
  function Actual(f: Fine): World { f.w.(table := f.table, waits := f.waits) }

  function WaitStep(f: Fine, c: int): Fine
    requires CanAdvance(Actual(f), c)
  {
    var a := AdvanceWait(Actual(f), c);
    f.(table := a.table, waits := a.waits, w := if CanAdvance(f.w, c) then AdvanceWait(f.w, c) else f.w)
  }

  predicate Removing(op: Op, id: int) { IsRemove(op) && op.id == id }

  /** An operation starts when no other has the lock; a process in `plist_remove` does not wait. */
  ghost predicate Can(f: Fine, m: Move) {
    match m
    case StartInsert(id, parent) => f.op.Idle? && MayInsert(f.w, id, parent)
    case StartStore(id, status) => f.op.Idle? && Enabled(f.w, Store(id, status))
    case StartRemove(id) => f.op.Idle? && Enabled(f.w, Remove(id))
    case Go => !f.op.Idle? && InTable(f.op, |f.table|) && |f.w.table| == |f.table|
    case BeginWait(c) =>
      c in f.w.parentOf && Running(f.w, f.w.parentOf[c]) && c !in f.waits && !Removing(f.op, f.w.parentOf[c])
    case AdvanceInWait(c) => CanAdvance(Actual(f), c)
  }

  ghost function After(f: Fine, m: Move): Fine
    requires Can(f, m)
  {
    match m
    case StartInsert(id, parent) => f.(op := InsertScan(id, parent, 0))
    case StartStore(id, status) => f.(op := StoreScan(id, status, 0))
    case StartRemove(id) => f.(op := RemoveScan(id, 0))
    case Go => OpStep(f)
    case BeginWait(c) =>
      f.(waits := f.waits[c := Searching(0)], w := f.w.(waits := f.w.waits[c := Searching(0)]))
    case AdvanceInWait(c) => WaitStep(f, c)
  }

  // ---------- What an operation has done so far ----------

  function Filled(s: Slot, id: int, parent: int, n: nat): Slot {
    Slot(if n > 2 then id else s.id, s.exitStatus, n == 0 && s.free, n > 1 || s.alive,
         if n > 3 then parent else s.parentId, s.parentAlive, s.sema)
  }

  function Finished(s: Slot, alive: bool, n: nat): Slot {
    s.(parentAlive := if n > 0 then alive else s.parentAlive, exitStatus := if n > 1 then -1 else s.exitStatus)
  }

  function Entered(t: Table, k: nat, id: int, parent: int): Table
    requires k < |t|
  {
    t[k := Filled(t[k], id, parent, 4)]
  }

  function Marked(t: Table, k: nat): Table
    requires k < |t|
  {
    t[k := t[k].(alive := false)]
  }

  function Freed(t: Table, k: nat): Table
    requires k < |t|
  {
    if IsAlive(Marked(t, k), t[k].parentId) then Marked(t, k) else Marked(t, k)[k := Marked(t, k)[k].(free := true)]
  }

  /** The children among the first i slots are told. */
  function Told(t: Table, id: int, i: nat): (r: Table)
    ensures |r| == |t|
    ensures forall j :: 0 <= j < |t| ==> r[j] == if j < i && t[j].parentId == id then Orphaned(t[j]) else t[j]
  {
    seq(|t|, j requires 0 <= j < |t| => if j < i && t[j].parentId == id then Orphaned(t[j]) else t[j])
  }

  predicate Inserting(op: Op) { op.InsertFill? || op.InsertLook? || op.InsertSeen? || op.InsertFinish? }

  /** An insertion's slot so far. */
  function InsertedSoFar(op: Op, s: Slot): Slot
    requires Inserting(op)
  {
    match op
    case InsertFill(id, parent, _, n) => Filled(s, id, parent, n)
    case InsertLook(id, parent, _, _) => Filled(s, id, parent, 4)
    case InsertSeen(id, parent, _, _) => Filled(s, id, parent, 4)
    case InsertFinish(id, parent, _, alive, n) => Finished(Filled(s, id, parent, 4), alive, n)
  }

  predicate Telling(op: Op) { op.RemoveChild? || op.RemoveTell? || op.RemoveReap? || op.RemoveUp? }

  /** A removal's table while it tells the children. */
  function ToldSoFar(op: Op, t: Table): Table
    requires Telling(op) && InTable(op, |t|)
  {
    match op
    case RemoveChild(id, k, i) => Told(Freed(t, k), id, i)
    case RemoveTell(id, k, i) => Told(Freed(t, k), id, i)
    case RemoveReap(id, k, i) => var r := Told(Freed(t, k), id, i); r[i := r[i].(parentAlive := false)]
    case RemoveUp(id, k) => Told(Freed(t, k), id, |t|)
  }

  /** The table as it is, from the table without the operation. */
  function Partial(op: Op, t: Table): Table
    requires InTable(op, |t|)
  {
    if Inserting(op) then t[op.k := InsertedSoFar(op, t[op.k])]
    else if op.RemoveLook? || op.RemoveSeen? || op.RemoveFree? then Marked(t, op.k)
    else if Telling(op) then ToldSoFar(op, t)
    else t
  }

  /** A search for an id has passed the first i slots. */
  ghost predicate Passed(t: Table, id: int, i: nat) {
    i <= |t| && forall j :: 0 <= j < i ==> t[j].id != id
  }

  ghost predicate MayRemove(w: World, id: int) { id != 0 && id !in w.gone && !Busy(w, id) }

  ghost predicate Claimed(w: World, id: int, parent: int, k: nat) {
    MayInsert(w, id, parent) && k < |w.table| && w.table[k].free
  }

  ghost predicate Found(w: World, id: int, k: nat) { k < |w.table| && k == FindId(w.table, id) }

  /** What the operation has found out is so. */
  ghost predicate OpInv(op: Op, w: World) {
    InTable(op, |w.table|) &&
    match op
    case Idle => true
    case InsertScan(id, parent, _) => MayInsert(w, id, parent)
    case InsertFill(id, parent, k, n) => Claimed(w, id, parent, k) && n <= 3
    case InsertLook(id, parent, k, i) => Claimed(w, id, parent, k) && Passed(Entered(w.table, k, id, parent), parent, i)
    case InsertSeen(id, parent, k, i) =>
      Claimed(w, id, parent, k) && i == FindId(Entered(w.table, k, id, parent), parent)
    case InsertFinish(id, parent, k, alive, n) =>
      Claimed(w, id, parent, k) && n <= 2 && alive == IsAlive(Entered(w.table, k, id, parent), parent)
    case StoreScan(id, _, i) => id != 0 && id !in w.gone && Passed(w.table, id, i)
    case StoreWrite(id, _, k) => id != 0 && id !in w.gone && Found(w, id, k)
    case RemoveScan(id, i) => MayRemove(w, id) && Passed(w.table, id, i)
    case RemoveMark(id, k) => MayRemove(w, id) && Found(w, id, k)
    case RemoveLook(id, k, i) =>
      MayRemove(w, id) && Found(w, id, k) && Passed(Marked(w.table, k), w.table[k].parentId, i)
    case RemoveSeen(id, k, i) =>
      MayRemove(w, id) && Found(w, id, k) && i == FindId(Marked(w.table, k), w.table[k].parentId)
    case RemoveFree(id, k, alive) =>
      MayRemove(w, id) && Found(w, id, k) && alive == IsAlive(Marked(w.table, k), w.table[k].parentId)
    case RemoveChild(id, k, i) => MayRemove(w, id) && Found(w, id, k) && i <= |w.table|
    case RemoveTell(id, k, i) => MayRemove(w, id) && Found(w, id, k) && w.table[i].parentId == id
    case RemoveReap(id, k, i) => MayRemove(w, id) && Found(w, id, k) && w.table[i].parentId == id
    case RemoveUp(id, k) => MayRemove(w, id) && Found(w, id, k)
  }

  ghost predicate Sound(f: Fine) {
    Inv(f.w) && f.waits == f.w.waits && OpInv(f.op, f.w) && f.table == Partial(f.op, f.w.table)
  }

  // ---------- Steps of an operation ----------

  lemma PassedFind(t: Table, id: int, i: nat)
    requires Passed(t, id, i)
    ensures i < |t| && t[i].id == id ==> FindId(t, id) == i
    ensures i == |t| ==> FindId(t, id) == |t|
  {
    if i == |t| || t[i].id == id { FindIdIs(t, id, i); }
  }

  lemma ScanKeepsSound(f: Fine)
    requires Sound(f) && f.op.InsertScan?
    ensures Sound(InsertStep(f))
  {
    var id, parent, i := f.op.id, f.op.parent, f.op.i;
    if i >= |f.table| { InsertKeepsInv(f.w, id, parent, |f.table|); }
    else if f.table[i].free { assert f.table == f.table[i := Filled(f.table[i], id, parent, 0)]; }
  }

  lemma FillKeepsSound(f: Fine)
    requires Sound(f) && f.op.InsertFill?
    ensures Sound(InsertStep(f))
  {
    var id, parent, k, n := f.op.id, f.op.parent, f.op.k, f.op.n;
    FilledNext(f.w.table[k], id, parent, n);
    assert InsertStep(f).table == f.w.table[k := Filled(f.w.table[k], id, parent, n + 1)];
  }

  lemma FilledNext(s: Slot, id: int, parent: int, n: nat)
    requires n <= 3 && s.free
    ensures Stored(Filled(s, id, parent, n), id, parent, n) == Filled(s, id, parent, n + 1)
  {
  }

  lemma LookKeepsSound(f: Fine)
    requires Sound(f) && (f.op.InsertLook? || f.op.InsertSeen?)
    ensures Sound(InsertStep(f))
  {
    if f.op.InsertLook? { PassedFind(f.table, f.op.parent, f.op.i); }
  }

  lemma FinishKeepsSound(f: Fine)
    requires Sound(f) && f.op.InsertFinish?
    ensures Sound(InsertStep(f))
  {
    var id, parent, k := f.op.id, f.op.parent, f.op.k;
    if f.op.n == 2 {
      InsertKeepsInv(f.w, id, parent, k);
      assert Filled(f.w.table[k], id, parent, 4)
          == f.w.table[k].(free := false, alive := true, id := id, parentId := parent);
    }
  }

  lemma IdleSound(f: Fine)
    requires f.op.Idle? && Inv(f.w) && f.waits == f.w.waits && f.table == f.w.table
    ensures Sound(f)
  {
  }

  lemma StoreScanKeepsSound(f: Fine)
    requires Sound(f) && f.op.StoreScan?
    ensures Sound(StoreStep(f))
  {
    PassedFind(f.table, f.op.id, f.op.i);
    if f.op.i >= |f.table| {
      StoreKeepsInv(f.w, f.op.id, f.op.status);
      IdleSound(StoreStep(f));
    }
  }

  lemma StoreWriteKeepsSound(f: Fine)
    requires Sound(f) && f.op.StoreWrite?
    ensures Sound(StoreStep(f))
  {
    StoreKeepsInv(f.w, f.op.id, f.op.status);
    IdleSound(StoreStep(f));
  }

  lemma FindKeepsSound(f: Fine)
    requires Sound(f) && f.op.RemoveScan?
    ensures Sound(RemoveStep(f))
  {
    PassedFind(f.table, f.op.id, f.op.i);
    if f.op.i >= |f.table| { RemoveKeepsInv(f.w, f.op.id); }
  }

  lemma ParentLookKeepsSound(f: Fine)
    requires Sound(f) && (f.op.RemoveMark? || f.op.RemoveLook? || f.op.RemoveSeen?)
    ensures Sound(RemoveStep(f))
  {
    if f.op.RemoveLook? { PassedFind(f.table, f.table[f.op.k].parentId, f.op.i); }
  }

  lemma FreeKeepsSound(f: Fine)
    requires Sound(f) && f.op.RemoveFree?
    ensures Sound(RemoveStep(f))
  {
    var t, k := f.w.table, f.op.k;
    assert Told(Freed(t, k), f.op.id, 0) == Freed(t, k);
  }

  lemma FreedParents(t: Table, k: nat)
    requires k < |t|
    ensures |Freed(t, k)| == |t|
    ensures forall j :: 0 <= j < |t| ==> Freed(t, k)[j].parentId == t[j].parentId && Freed(t, k)[j].id == t[j].id
  {
  }

  lemma ToldMore(t: Table, id: int, i: nat)
    requires i < |t|
    ensures t[i].parentId != id ==> Told(t, id, i + 1) == Told(t, id, i)
    ensures t[i].parentId == id ==> Told(t, id, i + 1) == Told(t, id, i)[i := Orphaned(t[i])]
    ensures Told(t, id, i)[i] == t[i]
  {
  }

  lemma LookChildStep(r: Table, id: int, i: nat)
    requires i < |r|
    ensures Told(r, id, i)[i] == r[i]
    ensures r[i].parentId != id ==> Told(r, id, i + 1) == Told(r, id, i)
  {
    ToldMore(r, id, i);
  }

  lemma LookChildKeepsSound(f: Fine)
    requires Sound(f) && f.op.RemoveChild?
    ensures Sound(RemoveStep(f))
  {
    LookChildTable(f.w.table, f.op.id, f.op.k, f.op.i);
  }

  lemma LookChildTable(t: Table, id: int, k: nat, i: nat)
    requires k < |t| && i <= |t|
    ensures |Told(Freed(t, k), id, i)| == |t|
    ensures i < |t| ==> Told(Freed(t, k), id, i)[i].parentId == t[i].parentId
    ensures i < |t| && t[i].parentId != id ==> Told(Freed(t, k), id, i + 1) == Told(Freed(t, k), id, i)
  {
    FreedParents(t, k);
    if i < |t| { LookChildStep(Freed(t, k), id, i); }
  }

  lemma TellKeepsSound(f: Fine)
    requires Sound(f) && f.op.RemoveTell?
    ensures Sound(RemoveStep(f))
  {
    PartialSize(f.op, f.w.table);
    assert RemoveStep(f).table == Partial(RemoveStep(f).op, f.w.table);
  }

  /** Telling a child and reaping it is one more told. */
  lemma ReapStep(r: Table, id: int, i: nat, u: Table)
    requires i < |r| && r[i].parentId == id
    requires u == Told(r, id, i)[i := Told(r, id, i)[i].(parentAlive := false)]
    ensures Told(r, id, i + 1) == if u[i].alive then u else u[i := u[i].(free := true)]
  {
    ToldMore(r, id, i);
    ReapedSlot(r[i], u[i]);
  }

  lemma ReapTable(t: Table, id: int, k: nat, i: nat, u: Table)
    requires k < |t| && i < |t| && t[i].parentId == id
    requires u == Told(Freed(t, k), id, i)[i := Told(Freed(t, k), id, i)[i].(parentAlive := false)]
    ensures |u| == |t|
    ensures Told(Freed(t, k), id, i + 1) == if u[i].alive then u else u[i := u[i].(free := true)]
  {
    FreedParents(t, k);
    ReapStep(Freed(t, k), id, i, u);
  }

  lemma ReapKeepsSound(f: Fine)
    requires Sound(f) && f.op.RemoveReap?
    ensures Sound(RemoveStep(f))
  {
    ReapTable(f.w.table, f.op.id, f.op.k, f.op.i, f.table);
  }

  lemma ReapedSlot(s: Slot, r: Slot)
    requires r == s.(parentAlive := false)
    ensures Orphaned(s) == if r.alive then r else r.(free := true)
  {
  }

  lemma UpKeepsSound(f: Fine)
    requires Sound(f) && f.op.RemoveUp?
    ensures Sound(RemoveStep(f))
  {
    RemoveKeepsInv(f.w, f.op.id);
    UpStep(f);
    IdleSound(RemoveStep(f));
  }

  lemma UpStep(f: Fine)
    requires f.op.RemoveUp? && Found(f.w, f.op.id, f.op.k)
    requires f.table == Told(Freed(f.w.table, f.op.k), f.op.id, |f.w.table|)
    ensures f.op.k < |f.table|
    ensures RemoveStep(f) == Fine(Removed(f.w.table, f.op.id), f.waits, Idle, RemoveProcess(f.w, f.op.id))
  {
    AllTold(f.w.table, f.op.id, f.op.k, f.table);
    UpIsRemoval(f);
  }

  lemma UpIsRemoval(f: Fine)
    requires f.op.RemoveUp? && f.op.k < |f.table|
    requires f.table[f.op.k := f.table[f.op.k].(sema := f.table[f.op.k].sema + 1)] == Removed(f.w.table, f.op.id)
    ensures RemoveStep(f) == Fine(Removed(f.w.table, f.op.id), f.waits, Idle, RemoveProcess(f.w, f.op.id))
  {
  }

  lemma AllTold(t: Table, id: int, k: nat, r: Table)
    requires k < |t| && k == FindId(t, id) && r == Told(Freed(t, k), id, |t|)
    ensures |r| == |t| && r[k := r[k].(sema := r[k].sema + 1)] == Removed(t, id)
  {
    assert r == ChildrenKilled(Freed(t, k), id);
  }

  lemma OpKeepsSound(f: Fine)
    requires Sound(f) && !f.op.Idle?
    ensures |f.w.table| == |f.table| && InTable(f.op, |f.table|) && Sound(OpStep(f))
  {
    PartialSize(f.op, f.w.table);
    if IsRemove(f.op) {
      if f.op.RemoveUp? { UpKeepsSound(f); }
      else if f.op.RemoveFree? { FreeKeepsSound(f); }
      else if f.op.RemoveChild? { LookChildKeepsSound(f); }
      else if f.op.RemoveTell? { TellKeepsSound(f); }
      else if f.op.RemoveReap? { ReapKeepsSound(f); }
      else if f.op.RemoveScan? { FindKeepsSound(f); }
      else { ParentLookKeepsSound(f); }
    } else if f.op.StoreScan? || f.op.StoreWrite? {
      if f.op.StoreScan? { StoreScanKeepsSound(f); } else { StoreWriteKeepsSound(f); }
    } else if f.op.InsertFinish? {
      FinishKeepsSound(f);
    } else if f.op.InsertScan? {
      ScanKeepsSound(f);
    } else if f.op.InsertFill? {
      FillKeepsSound(f);
    } else {
      LookKeepsSound(f);
    }
  }

  lemma PartialSize(op: Op, t: Table)
    requires InTable(op, |t|)
    ensures |Partial(op, t)| == |t|
  {
  }

  // ---------- Steps of a wait ----------

  /** A wait may change slot j of the table without the operation knowing: it is not the slot that the
      operation is at work on, nor a child's that it tells. */
  ghost predicate Clear(op: Op, t: Table, j: nat) {
    && j < |t| && InTable(op, |t|)
    && (Inserting(op) ==> j != op.k)
    && (IsRemove(op) && !op.RemoveScan? ==> j != op.k)
    && (IsRemove(op) ==> t[j].parentId != op.id)
  }

  /** A change that no search can see. */
  predicate SameForSearch(s: Slot, s': Slot) { s'.id == s.id && s'.alive == s.alive && s'.parentId == s.parentId }

  lemma SearchSame(t: Table, t': Table, id: int)
    requires |t'| == |t| && forall j :: 0 <= j < |t| ==> t'[j].id == t[j].id && t'[j].alive == t[j].alive
    ensures FindId(t', id) == FindId(t, id) && IsAlive(t', id) == IsAlive(t, id)
  {
    FindIdIs(t', id, FindId(t, id));
  }

  lemma FreedClear(t: Table, k: nat, j: nat, s: Slot)
    requires k < |t| && j < |t| && j != k && SameForSearch(t[j], s)
    ensures Freed(t, k)[j] == t[j] && Freed(t[j := s], k) == Freed(t, k)[j := s]
  {
    SearchSame(Marked(t, k), Marked(t[j := s], k), t[k].parentId);
    assert Marked(t[j := s], k) == Marked(t, k)[j := s];
  }

  lemma ToldClear(t: Table, id: int, i: nat, j: nat, s: Slot)
    requires j < |t| && t[j].parentId != id && s.parentId == t[j].parentId
    ensures Told(t, id, i)[j] == t[j] && Told(t[j := s], id, i) == Told(t, id, i)[j := s]
  {
  }

  /** So it changes the table as it is in the same way. */
  lemma PartialClear(op: Op, t: Table, j: nat, s: Slot)
    requires Clear(op, t, j) && SameForSearch(t[j], s)
    requires op.RemoveReap? ==> t[op.i].parentId == op.id
    ensures Partial(op, t)[j] == t[j] && Partial(op, t[j := s]) == Partial(op, t)[j := s]
  {
    if Telling(op) { ToldSoFarClear(op, t, j, s); }
  }

  lemma ToldSoFarClear(op: Op, t: Table, j: nat, s: Slot)
    requires Telling(op) && Clear(op, t, j) && SameForSearch(t[j], s)
    requires op.RemoveReap? ==> t[op.i].parentId == op.id
    ensures ToldSoFar(op, t)[j] == t[j] && ToldSoFar(op, t[j := s]) == ToldSoFar(op, t)[j := s]
  {
    TellingClear(t, op.id, op.k, if op.RemoveUp? then |t| else op.i, j, s);
    if op.RemoveReap? { UpdatesCommute(Told(Freed(t, op.k), op.id, op.i), op.i, j, s); }
  }

  lemma TellingClear(t: Table, id: int, k: nat, i: nat, j: nat, s: Slot)
    requires k < |t| && j < |t| && j != k && t[j].parentId != id && SameForSearch(t[j], s)
    ensures Told(Freed(t, k), id, i)[j] == t[j]
    ensures Told(Freed(t[j := s], k), id, i) == Told(Freed(t, k), id, i)[j := s]
  {
    FreedClear(t, k, j, s);
    ToldClear(Freed(t, k), id, i, j, s);
  }

  lemma UpdatesCommute(r: Table, i: nat, j: nat, s: Slot)
    requires i < |r| && j < |r| && i != j
    ensures r[j := s][i := r[j := s][i].(parentAlive := false)] == r[i := r[i].(parentAlive := false)][j := s]
  {
  }

  /** The step of a wait on the table without the operation. */
  ghost predicate WaitChange(w: World, w': World, c: int) {
    var k := FindId(w.table, c);
    && k < |w.table| == |w'.table| && w'.table == w.table[k := w'.table[k]] && SameForSearch(w.table[k], w'.table[k])
    && w' == w.(table := w'.table, waits := w'.waits)
    && (forall d :: InWait(w', d) ==> InWait(w, d))
  }

  lemma AdvanceChanges(w: World, c: int)
    requires Inv(w) && CanAdvance(w, c)
    ensures WaitChange(w, AdvanceWait(w, c), c)
  {
    AdvanceTable(w, c);
  }

  lemma ClaimedKept(w: World, w': World, c: int, id: int, parent: int, k: nat)
    requires WaitChange(w, w', c) && Claimed(w, id, parent, k) && k != FindId(w.table, c)
    ensures Claimed(w', id, parent, k)
    ensures forall i :: Passed(Entered(w.table, k, id, parent), parent, i) ==>
              Passed(Entered(w'.table, k, id, parent), parent, i)
    ensures FindId(Entered(w'.table, k, id, parent), parent) == FindId(Entered(w.table, k, id, parent), parent)
    ensures IsAlive(Entered(w'.table, k, id, parent), parent) == IsAlive(Entered(w.table, k, id, parent), parent)
  {
    SearchSame(Entered(w.table, k, id, parent), Entered(w'.table, k, id, parent), parent);
  }

  lemma PassedKept(t: Table, t': Table, id: int, i: nat)
    requires |t'| == |t| && (forall j :: 0 <= j < |t| ==> t'[j].id == t[j].id) && Passed(t, id, i)
    ensures Passed(t', id, i)
  {
  }

  lemma MayRemoveKept(w: World, w': World, c: int, id: int)
    requires WaitChange(w, w', c) && MayRemove(w, id)
    ensures MayRemove(w', id)
  {
  }

  lemma FoundKept(w: World, w': World, c: int, id: int, k: nat)
    requires WaitChange(w, w', c) && Found(w, id, k)
    ensures Found(w', id, k) && w'.table[k].parentId == w.table[k].parentId
    ensures forall p, i: nat :: Passed(Marked(w.table, k), p, i) ==> Passed(Marked(w'.table, k), p, i)
    ensures forall p :: FindId(Marked(w'.table, k), p) == FindId(Marked(w.table, k), p)
                        && IsAlive(Marked(w'.table, k), p) == IsAlive(Marked(w.table, k), p)
  {
    SearchSame(w.table, w'.table, id);
    forall p, i: nat | Passed(Marked(w.table, k), p, i) ensures Passed(Marked(w'.table, k), p, i) {
      PassedKept(Marked(w.table, k), Marked(w'.table, k), p, i);
    }
    forall p ensures FindId(Marked(w'.table, k), p) == FindId(Marked(w.table, k), p)
                     && IsAlive(Marked(w'.table, k), p) == IsAlive(Marked(w.table, k), p)
    {
      SearchSame(Marked(w.table, k), Marked(w'.table, k), p);
    }
  }

  lemma OpInvKept(op: Op, w: World, w': World, c: int)
    requires OpInv(op, w) && WaitChange(w, w', c) && Clear(op, w.table, FindId(w.table, c))
    ensures OpInv(op, w')
  {
    if Inserting(op) {
      ClaimedKept(w, w', c, op.id, op.parent, op.k);
    } else if IsRemove(op) {
      MayRemoveKept(w, w', c, op.id);
      if !op.RemoveScan? { FoundKept(w, w', c, op.id, op.k); }
    } else if op.StoreWrite? {
      FoundKept(w, w', c, op.id, op.k);
    }
  }

  /** The child's slot is out of the operation's way whenever its parent's wait can touch it. */
  lemma WaitIsClear(f: Fine, c: int)
    requires Sound(f) && InWait(f.w, c) && (IsRemove(f.op) ==> c != f.op.id)
    ensures FindId(f.w.table, c) < |f.w.table| && Clear(f.op, f.w.table, FindId(f.w.table, c))
  {
    WaitHolds(f.w, c);
    var j := FindId(f.w.table, c);
    assert f.w.table[j].parentId == f.w.parentOf[c];
    if IsRemove(f.op) && f.w.parentOf[c] == f.op.id { assert Busy(f.w, f.op.id); }
  }

  /** While a process is being removed its parent's wait only searches, or is held up. */
  lemma RemovedIsAwaited(f: Fine)
    requires Sound(f) && IsRemove(f.op) && InWait(f.w, f.op.id)
    ensures f.w.waits[f.op.id].Searching? || f.w.waits[f.op.id].Waiting?
    ensures var k := FindId(f.w.table, f.op.id); k < |f.table| && f.w.table[k].sema == 0 && f.table[k].sema == 0
  {
    WaitHolds(f.w, f.op.id);
    PartialSize(f.op, f.w.table);
  }

  lemma InsertedId(op: Op, s: Slot)
    requires Inserting(op)
    ensures InsertedSoFar(op, s).id == s.id || InsertedSoFar(op, s).id == op.id
  {
  }

  lemma ToldIds(op: Op, t: Table, j: nat)
    requires Telling(op) && InTable(op, |t|) && j < |t|
    ensures |ToldSoFar(op, t)| == |t| && ToldSoFar(op, t)[j].id == t[j].id
  {
    FreedParents(t, op.k);
    ToldId(Freed(t, op.k), op.id, if op.RemoveUp? then |t| else op.i, j);
  }

  lemma ToldId(t: Table, id: int, i: nat, j: nat)
    requires j < |t|
    ensures Told(t, id, i)[j].id == t[j].id
  {
  }

  lemma PartialIds(op: Op, t: Table, j: nat)
    requires InTable(op, |t|) && j < |t|
    ensures |Partial(op, t)| == |t|
    ensures !(Inserting(op) && j == op.k) ==> Partial(op, t)[j].id == t[j].id
  {
    if Telling(op) { ToldIds(op, t, j); }
  }

  /** A search of a wait tells the child's slot from all others, whatever an operation is at. */
  lemma SearchSeesChild(f: Fine, c: int, j: nat)
    requires Sound(f) && InWait(f.w, c) && j < |f.table|
    ensures |f.table| == |f.w.table| && (f.table[j].id == c <==> f.w.table[j].id == c)
  {
    PartialSize(f.op, f.w.table);
    PartialIds(f.op, f.w.table, j);
    WaitHolds(f.w, c);
    if Inserting(f.op) && j == f.op.k {
      InsertedId(f.op, f.w.table[j]);
      if f.w.table[j].id == c { FindUnique(f.w.table, j); }
    }
  }

  lemma SearchingKeepsSound(f: Fine, c: int)
    requires Sound(f) && CanAdvance(Actual(f), c) && f.waits[c].Searching?
    ensures Sound(WaitStep(f, c)) && CanAdvance(f.w, c) && WaitStep(f, c).w == AdvanceWait(f.w, c)
  {
    var i := f.waits[c].position;
    PartialSize(f.op, f.w.table);
    if i < |f.table| { SearchSeesChild(f, c, i); }
    AdvanceKeepsInv(f.w, c);
    AdvanceChanges(f.w, c);
    assert AdvanceWait(f.w, c).table == f.w.table;
    StillMay(f.op, f.w, AdvanceWait(f.w, c));
  }

  /** Nothing an operation relies on has changed but where waits stand. */
  lemma StillMay(op: Op, w: World, w': World)
    requires OpInv(op, w) && w' == w.(waits := w'.waits) && forall d :: InWait(w', d) ==> InWait(w, d)
    ensures OpInv(op, w')
  {
    if IsRemove(op) && Busy(w', op.id) {
      var d :| InWait(w', d) && d in w'.parentOf && w'.parentOf[d] == op.id;
      assert InWait(w, d);
    }
  }

  lemma ChangingKeepsSound(f: Fine, c: int)
    requires Sound(f) && CanAdvance(Actual(f), c) && !f.waits[c].Searching?
    ensures Sound(WaitStep(f, c)) && CanAdvance(f.w, c) && WaitStep(f, c).w == AdvanceWait(f.w, c)
  {
    if IsRemove(f.op) && c == f.op.id { RemovedIsAwaited(f); WaitHolds(f.w, c); }
    WaitIsClear(f, c);
    WaitHolds(f.w, c);
    var j := FindId(f.w.table, c);
    PartialSize(f.op, f.w.table);
    PartialClear(f.op, f.w.table, j, f.w.table[j]);
    assert f.table[j] == f.w.table[j];
    AdvanceKeepsInv(f.w, c);
    AdvanceChanges(f.w, c);
    ChangeKeepsOp(f, c, j);
  }

  /** The change is the same on the table as it is. */
  lemma ChangeKeepsOp(f: Fine, c: int, j: nat)
    requires CanAdvance(f.w, c) && !f.w.waits[c].Searching? && f.w.waits[c].slot == j && j == FindId(f.w.table, c)
    requires f.waits == f.w.waits && |f.table| == |f.w.table| && Clear(f.op, f.w.table, j)
    requires f.table == Partial(f.op, f.w.table) && f.table[j] == f.w.table[j]
    requires OpInv(f.op, f.w) && WaitChange(f.w, AdvanceWait(f.w, c), c)
    ensures CanAdvance(Actual(f), c)
    ensures var w' := AdvanceWait(f.w, c);
            WaitStep(f, c) == f.(table := Partial(f.op, w'.table), waits := w'.waits, w := w') && OpInv(f.op, w')
  {
    var w' := AdvanceWait(f.w, c);
    PartialClear(f.op, f.w.table, j, w'.table[j]);
    OpInvKept(f.op, f.w, w', c);
    assert AdvanceWait(Actual(f), c).table == f.table[j := w'.table[j]];
  }

  lemma BeginKeepsSound(f: Fine, c: int)
    requires Sound(f) && Can(f, BeginWait(c))
    ensures Enabled(f.w, Begin(c)) && Sound(After(f, BeginWait(c)))
  {
    BeginKeepsInv(f.w, c);
    StillMayRemove(f.op, f.w, c);
  }

  lemma StillMayRemove(op: Op, w: World, c: int)
    requires OpInv(op, w) && c in w.parentOf && !Removing(op, w.parentOf[c])
    ensures OpInv(op, w.(waits := w.waits[c := Searching(0)]))
  {
    var w' := w.(waits := w.waits[c := Searching(0)]);
    if IsRemove(op) && Busy(w', op.id) {
      var d :| InWait(w', d) && d in w'.parentOf && w'.parentOf[d] == op.id;
      assert d != c && InWait(w, d);
    }
  }

  // ---------- The steps of module Processes ----------

  lemma OpRefines(f: Fine)
    requires Sound(f) && !f.op.Idle? && |f.w.table| == |f.table| && InTable(f.op, |f.table|)
    ensures OpStep(f).w == f.w || IsStep(f.w, OpStep(f).w)
  {
    if OpStep(f).w != f.w {
      if IsRemove(f.op) { assert Enabled(f.w, Remove(f.op.id)); }
      else if f.op.StoreScan? || f.op.StoreWrite? { assert Enabled(f.w, Store(f.op.id, f.op.status)); }
      else if f.op.InsertScan? { assert Enabled(f.w, Insert(f.op.id, f.op.parent, |f.table|)); }
      else { assert Enabled(f.w, Insert(f.op.id, f.op.parent, f.op.k)); }
    }
  }

  /** Every step is one of module Processes, or none. */
  lemma MoveRefines(f: Fine, m: Move)
    requires Sound(f) && Can(f, m)
    ensures After(f, m).w == f.w || IsStep(f.w, After(f, m).w)
  {
    match m
    case StartInsert(_, _) =>
    case StartStore(_, _) =>
    case StartRemove(_) =>
    case Go => OpRefines(f);
    case BeginWait(c) => assert Enabled(f.w, Begin(c)) && After(f, m).w == Next(f.w, Begin(c));
    case AdvanceInWait(c) =>
      if f.waits[c].Searching? { SearchingKeepsSound(f, c); } else { ChangingKeepsSound(f, c); }
      assert Enabled(f.w, Advance(c)) && After(f, m).w == Next(f.w, Advance(c));
  }

  // ---------- Every run ----------

  lemma MoveKeepsSound(f: Fine, m: Move)
    requires Sound(f) && Can(f, m)
    ensures Sound(After(f, m))
  {
    match m
    case StartInsert(_, _) =>
    case StartStore(_, _) =>
    case StartRemove(_) =>
    case Go => OpKeepsSound(f);
    case BeginWait(c) => BeginKeepsSound(f, c);
    case AdvanceInWait(c) => if f.waits[c].Searching? { SearchingKeepsSound(f, c); } else { ChangingKeepsSound(f, c); }
  }

  function FineInitial(): Fine { Fine(Processes.Initial().table, map[], Idle, Processes.Initial()) }

  ghost predicate IsMove(f: Fine, f': Fine) {
    exists m :: Can(f, m) && f' == After(f, m)
  }

  ghost predicate IsFineRun(run: seq<Fine>) {
    && run != [] && run[0] == FineInitial()
    && forall i :: 0 <= i < |run| - 1 ==> IsMove(run[i], run[i + 1])
  }

  lemma MovedRefines(f: Fine, f': Fine)
    requires Sound(f) && IsMove(f, f')
    ensures Sound(f') && (f'.w == f.w || IsStep(f.w, f'.w))
  {
    var m :| Can(f, m) && f' == After(f, m);
    MoveKeepsSound(f, m);
    MoveRefines(f, m);
  }

  lemma {:induction false} FineRunSound(run: seq<Fine>, i: nat)
    requires IsFineRun(run) && i < |run|
    ensures Sound(run[i])
  {
    if i == 0 {
      RunKeepsInv([Processes.Initial()], 0);
    } else {
      FineRunSound(run, i - 1);
      assert IsMove(run[i - 1], run[i - 1 + 1]);
      MovedRefines(run[i - 1], run[i]);
    }
  }

  /** A run of module Processes ends in this state. */
  ghost predicate Reached(w: World) {
    exists r :: IsRun(r) && r[|r| - 1] == w
  }

  lemma ReachedGrows(w: World, w': World)
    requires Reached(w) && (w' == w || IsStep(w, w'))
    ensures Reached(w')
  {
    var r :| IsRun(r) && r[|r| - 1] == w;
    if w' != w {
      var r' := r + [w'];
      forall i | 0 <= i < |r'| - 1 ensures IsStep(r'[i], r'[i + 1]) {
        if i < |r| - 1 { assert r'[i] == r[i] && r'[i + 1] == r[i + 1]; }
      }
      assert IsRun(r') && r'[|r'| - 1] == w';
    }
  }

  /** In every run each state stands for one that a run of module Processes ends in; when the lock is
      free the two have the same table and waits. */
  lemma {:induction false} FineRunRefines(run: seq<Fine>, i: nat)
    requires IsFineRun(run) && i < |run|
    ensures Reached(run[i].w)
    ensures run[i].waits == run[i].w.waits && (run[i].op.Idle? ==> run[i].table == run[i].w.table)
  {
    FineRunSound(run, i);
    if i == 0 {
      var r := [Processes.Initial()];
      assert IsRun(r) && r[|r| - 1] == run[0].w;
    } else {
      FineRunRefines(run, i - 1);
      FineRunSound(run, i - 1);
      assert IsMove(run[i - 1], run[i - 1 + 1]);
      MovedRefines(run[i - 1], run[i]);
      ReachedGrows(run[i - 1].w, run[i].w);
    }
  }

  /** A wait that has returned saw its child end, and returned the status that it last stored, or -1,
      however the stores and looks of the operations came in between its own. */
  lemma WaitSawLastStatus(run: seq<Fine>, i: nat, c: int)
    requires IsFineRun(run) && i < |run| && c in run[i].waits && run[i].waits[c].Done?
    ensures c in run[i].w.gone && c in run[i].w.last && run[i].waits[c].status == run[i].w.last[c]
  {
    FineRunSound(run, i);
    assert WaitInv(run[i].w, c);
  }
}
