/** Readers and writers of one inode (pintos/src/filesys/inode.c): any number of threads in
    `inode_read_at` and `inode_write_at`, interleaved. The first reader of a group takes the
    semaphore and the last one, perhaps another thread, returns it; a counter kept under a lock says
    who that is. The lock and the semaphore are used as what modules Monitor and Scheduler show them
    to be: a lock admits one thread, a down takes effect when the value is positive. */
module ReadersWriters {
  import opened Bytes
  import opened Options
  import opened Sequences

  type Tid = nat

  /** Where a thread stands; each value names what the thread does next. Copying may end after any
      chunk: at the end of the request or the file, or because no bounce buffer could be had. */
  datatype PC =
    | Outside
    | ReadLocking(offset: nat)                            // acquire the lock
    | Counting(offset: nat)                               // fetch how_many_readers
    | Incrementing(offset: nat, seen: int)                // store it, one more
    | FirstTest(offset: nat)                              // how_many_readers == 1 ?
    | GroupDown(offset: nat)                              // sema_down
    | ReadUnlocking(offset: nat)                          // release the lock
    | Reading(offset: nat, copied: seq<byte>)             // copy another chunk, or stop
    | LeaveLocking                                        // acquire the lock
    | Uncounting                                          // fetch how_many_readers
    | Decrementing(seen: int)                             // store it, one less
    | LastTest                                            // how_many_readers == 0 ?
    | GroupUp                                             // sema_up
    | LeaveUnlocking                                      // release the lock
    | WriteDown(offset: nat, bytes: seq<byte>)            // sema_down
    | Writing(offset: nat, bytes: seq<byte>, done: nat, found: seq<byte>)  // copy another chunk, or stop
    | WriteUp                                             // sema_up

  /** `found` in Writing records the content the writer started from. */
  datatype State = State(
    holder: Option<Tid>,
    readers: int,
    sema: nat,
    content: seq<byte>,
    pc: map<Tid, PC>)

  /** What a thread chooses to do where it has a choice. */
  datatype Choice = Read(offset: nat) | Write(offset: nat, bytes: seq<byte>) | Chunk(size: nat) | Stop | Go

  function At(m: State, t: Tid, pc: PC): State {
    m.(pc := m.pc[t := pc])
  }

  function Overlaid(content: seq<byte>, offset: nat, bytes: seq<byte>): (r: seq<byte>)
    requires bytes != [] ==> offset + |bytes| <= |content|
    ensures |r| == |content|
  {
    if bytes == [] then content else content[..offset] + bytes + content[offset + |bytes|..]
  }

  predicate Enabled(m: State, t: Tid, c: Choice) {
    t in m.pc &&
    match m.pc[t]
    case Outside => c.Read? || c.Write?
    case ReadLocking(_) => c.Go? && m.holder.None?
    case GroupDown(_) => c.Go? && m.sema > 0
    case Reading(offset, copied) => c.Stop? || (c.Chunk? && c.size > 0 && offset + |copied| + c.size <= |m.content|)
    case LeaveLocking => c.Go? && m.holder.None?
    case WriteDown(_, _) => c.Go? && m.sema > 0
    case Writing(offset, bytes, done, _) =>
      c.Stop? || (c.Chunk? && c.size > 0 && done + c.size <= |bytes| && offset + done + c.size <= |m.content|)
    case _ => c.Go?
  }

  function Next(m: State, t: Tid, c: Choice): State
    requires Enabled(m, t, c)
  {
    match m.pc[t]
    case Outside => if c.Read? then At(m, t, ReadLocking(c.offset)) else At(m, t, WriteDown(c.offset, c.bytes))
    case ReadLocking(offset) => At(m, t, Counting(offset)).(holder := Some(t))
    case Counting(offset) => At(m, t, Incrementing(offset, m.readers))
    case Incrementing(offset, seen) => At(m, t, FirstTest(offset)).(readers := seen + 1)
    case FirstTest(offset) => At(m, t, if m.readers == 1 then GroupDown(offset) else ReadUnlocking(offset))
    case GroupDown(offset) => At(m, t, ReadUnlocking(offset)).(sema := m.sema - 1)
    case ReadUnlocking(offset) => At(m, t, Reading(offset, [])).(holder := None)
    case Reading(offset, copied) =>
      if c.Stop? then At(m, t, LeaveLocking)
      else At(m, t, Reading(offset, copied + m.content[offset + |copied|..offset + |copied| + c.size]))
    case LeaveLocking => At(m, t, Uncounting).(holder := Some(t))
    case Uncounting => At(m, t, Decrementing(m.readers))
    case Decrementing(seen) => At(m, t, LastTest).(readers := seen - 1)
    case LastTest => At(m, t, if m.readers == 0 then GroupUp else LeaveUnlocking)
    case GroupUp => At(m, t, LeaveUnlocking).(sema := m.sema + 1)
    case LeaveUnlocking => At(m, t, Outside).(holder := None)
    case WriteDown(offset, bytes) => At(m, t, Writing(offset, bytes, 0, m.content)).(sema := m.sema - 1)
    case Writing(offset, bytes, done, found) =>
      if c.Stop? then At(m, t, WriteUp)
      else At(m, t, Writing(offset, bytes, done + c.size, found)).(
        content := Overlaid(m.content, offset + done, bytes[done..done + c.size]))
    case WriteUp => At(m, t, Outside).(sema := m.sema + 1)
  }

  // ---------- The invariant ----------

  predicate HoldsLock(pc: PC) {
    pc.Counting? || pc.Incrementing? || pc.FirstTest? || pc.GroupDown? || pc.ReadUnlocking?
    || pc.Uncounting? || pc.Decrementing? || pc.LastTest? || pc.GroupUp? || pc.LeaveUnlocking?
  }

  /** Counted in `how_many_readers`: past the increment and not past the decrement. */
  predicate IsCounted(pc: PC) {
    pc.FirstTest? || pc.GroupDown? || pc.ReadUnlocking? || pc.Reading? || pc.LeaveLocking? || pc.Uncounting?
    || pc.Decrementing?
  }

  predicate IsWriter(pc: PC) { pc.Writing? || pc.WriteUp? }

  ghost function Counted(m: State): set<Tid> { set t | t in m.pc && IsCounted(m.pc[t]) }

  ghost function Writers(m: State): set<Tid> { set t | t in m.pc && IsWriter(m.pc[t]) }

  /** The readers, as a group, have the semaphore: from the first one's down to the last one's up. */
  predicate GroupHolds(m: State) {
    if m.holder.Some? && m.holder.value in m.pc then
      match m.pc[m.holder.value]
      case FirstTest(_) => m.readers > 1
      case GroupDown(_) => false
      case LastTest => true
      case GroupUp => true
      case _ => m.readers > 0
    else m.readers > 0
  }

  function Share(m: State): nat { if GroupHolds(m) then 1 else 0 }

  ghost predicate LockInv(m: State) {
    && (forall t :: t in m.pc ==> (HoldsLock(m.pc[t]) <==> m.holder == Some(t)))
    && (m.holder.Some? ==> m.holder.value in m.pc)
  }

  /** What the holder of the lock has fetched or tested of the count is still so. */
  predicate CountOk(m: State, pc: PC) {
    match pc
    case Incrementing(_, seen) => seen == m.readers
    case Decrementing(seen) => seen == m.readers
    case GroupDown(_) => m.readers == 1
    case GroupUp => m.readers == 0
    case _ => true
  }

  ghost predicate CountInv(m: State) {
    m.readers == |Counted(m)| && forall t {:trigger CountOk(m, m.pc[t])} :: t in m.pc ==> CountOk(m, m.pc[t])
  }

  /** The semaphore's one unit is free, with the group, or with a writer. */
  ghost predicate SemaInv(m: State) {
    m.sema + Share(m) + |Writers(m)| == 1
  }

  /** What a reader has copied so far is one stretch of the content as it stands, and the content is
      what the writer found with its own bytes laid over. */
  ghost predicate CopyInv(m: State, pc: PC) {
    match pc
    case Reading(offset, copied) =>
      copied != [] ==> offset + |copied| <= |m.content| && copied == m.content[offset..offset + |copied|]
    case Writing(offset, bytes, done, found) =>
      && done <= |bytes| && (done > 0 ==> offset + done <= |found|)
      && m.content == Overlaid(found, offset, bytes[..done])
    case _ => true
  }

  ghost predicate ContentInv(m: State) {
    forall t :: t in m.pc ==> CopyInv(m, m.pc[t])
  }

  ghost predicate Inv(m: State) {
    LockInv(m) && CountInv(m) && SemaInv(m) && ContentInv(m)
  }

  // ---------- Consequences ----------

  /** At most one writer is in its copy loop, and never together with a reader. */
  lemma Exclusion(m: State, w: Tid, t: Tid)
    requires Inv(m) && w in m.pc && IsWriter(m.pc[w]) && t in m.pc && t != w
    ensures !IsWriter(m.pc[t]) && !m.pc[t].Reading?
  {
    assert w in Writers(m);
    assert {w} <= Writers(m);
    SubsetSize({w}, Writers(m));
    if IsWriter(m.pc[t]) { TwoWriters(m, w, t); }
    if m.pc[t].Reading? { ReaderHoldsGroup(m, t); }
  }

  lemma TwoWriters(m: State, w: Tid, t: Tid)
    requires w in m.pc && IsWriter(m.pc[w]) && t in m.pc && IsWriter(m.pc[t]) && t != w
    ensures |Writers(m)| >= 2
  {
    SubsetSize({w, t}, Writers(m));
  }

  /** While a reader copies, its group has the semaphore. */
  lemma ReaderHoldsGroup(m: State, t: Tid)
    requires LockInv(m) && CountInv(m) && t in m.pc && m.pc[t].Reading?
    ensures GroupHolds(m)
  {
    assert t in Counted(m);
    SubsetSize({t}, Counted(m));
    if m.holder.Some? {
      var h := m.holder.value;
      assert CountOk(m, m.pc[h]);
      if IsCounted(m.pc[h]) {
        assert {t, h} <= Counted(m);
        SubsetSize({t, h}, Counted(m));
      }
    }
  }

  /** Once everyone has left, the semaphore is back at one and no reader is counted, however the
      copy loops ended. */
  lemma QuietAgain(m: State)
    requires Inv(m) && forall t :: t in m.pc ==> m.pc[t].Outside?
    ensures m.sema == 1 && m.readers == 0 && m.holder == None
  {
    assert Counted(m) == {} && Writers(m) == {};
  }

  // ---------- Every step keeps the invariant ----------

  lemma {:induction false} StepKeepsLock(m: State, t: Tid, c: Choice)
    requires LockInv(m) && Enabled(m, t, c)
    ensures LockInv(Next(m, t, c))
  {
  }

  lemma StepCounts(m: State, t: Tid, c: Choice)
    requires Enabled(m, t, c)
    ensures var m' := Next(m, t, c);
            && Counted(m') == (if IsCounted(m'.pc[t]) then Counted(m) + {t} else Counted(m) - {t})
            && Writers(m') == (if IsWriter(m'.pc[t]) then Writers(m) + {t} else Writers(m) - {t})
  {
  }

  lemma StepKeepsCounted(m: State, t: Tid, c: Choice)
    requires m.readers == |Counted(m)| && Enabled(m, t, c) && CountOk(m, m.pc[t])
    ensures Next(m, t, c).readers == |Counted(Next(m, t, c))|
  {
    StepCounts(m, t, c);
    assert t in Counted(m) <==> IsCounted(m.pc[t]);
  }

  lemma StepKeepsOwnCount(m: State, t: Tid, c: Choice)
    requires Enabled(m, t, c) && CountOk(m, m.pc[t])
    ensures CountOk(Next(m, t, c), Next(m, t, c).pc[t])
  {
  }

  /** The count is changed only by the holder of the lock. */
  lemma StepKeepsOtherCount(m: State, t: Tid, c: Choice, u: Tid)
    requires LockInv(m) && Enabled(m, t, c) && u in m.pc && u != t && CountOk(m, m.pc[u])
    ensures CountOk(Next(m, t, c), Next(m, t, c).pc[u])
  {
    if HoldsLock(m.pc[u]) { assert !HoldsLock(m.pc[t]); }
  }

  lemma StepKeepsCount(m: State, t: Tid, c: Choice)
    requires LockInv(m) && CountInv(m) && Enabled(m, t, c)
    ensures CountInv(Next(m, t, c))
  {
    assert CountOk(m, m.pc[t]);
    StepKeepsCounted(m, t, c);
    StepKeepsOwnCount(m, t, c);
    forall u | u in m.pc && u != t ensures CountOk(Next(m, t, c), Next(m, t, c).pc[u]) {
      assert CountOk(m, m.pc[u]);
      StepKeepsOtherCount(m, t, c, u);
    }
  }

  /** The group's share of the semaphore changes only with the first reader's down and the last
      reader's up. */
  lemma StepShare(m: State, t: Tid, c: Choice)
    requires LockInv(m) && CountInv(m) && Enabled(m, t, c)
    ensures Share(Next(m, t, c))
         == Share(m) + (if m.pc[t].GroupDown? then 1 else 0) - (if m.pc[t].GroupUp? then 1 else 0)
  {
    assert CountOk(m, m.pc[t]);
    if IsCounted(m.pc[t]) {
      assert t in Counted(m);
      SubsetSize({t}, Counted(m));
    }
  }

  lemma StepWriters(m: State, t: Tid, c: Choice)
    requires Enabled(m, t, c)
    ensures |Writers(Next(m, t, c))|
         == |Writers(m)| + (if m.pc[t].WriteDown? then 1 else 0) - (if m.pc[t].WriteUp? then 1 else 0)
  {
    StepCounts(m, t, c);
    assert t in Writers(m) <==> IsWriter(m.pc[t]);
  }

  lemma StepSema(m: State, t: Tid, c: Choice)
    requires Enabled(m, t, c)
    ensures Next(m, t, c).sema == m.sema + (if m.pc[t].GroupUp? || m.pc[t].WriteUp? then 1 else 0)
                                         - (if m.pc[t].GroupDown? || m.pc[t].WriteDown? then 1 else 0)
  {
  }

  lemma StepKeepsSema(m: State, t: Tid, c: Choice)
    requires LockInv(m) && CountInv(m) && SemaInv(m) && Enabled(m, t, c)
    ensures SemaInv(Next(m, t, c))
  {
    StepShare(m, t, c);
    StepWriters(m, t, c);
    StepSema(m, t, c);
  }

  lemma ChunkOverlaid(content: seq<byte>, found: seq<byte>, offset: nat, bytes: seq<byte>, done: nat, size: nat)
    requires 0 < size && done + size <= |bytes| && offset + done + size <= |content|
    requires (done > 0 ==> offset + done <= |found|) && content == Overlaid(found, offset, bytes[..done])
    ensures Overlaid(content, offset + done, bytes[done..done + size]) == Overlaid(found, offset, bytes[..done + size])
  {
    assert bytes[..done + size] == bytes[..done] + bytes[done..done + size];
  }

  lemma ReaderKeepsOwnCopy(m: State, t: Tid, c: Choice)
    requires Enabled(m, t, c) && m.pc[t].Reading? && CopyInv(m, m.pc[t])
    ensures CopyInv(Next(m, t, c), Next(m, t, c).pc[t])
  {
    if c.Chunk? {
      var offset, copied := m.pc[t].offset, m.pc[t].copied;
      var end := offset + |copied|;
      assert m.content[offset..end + c.size] == m.content[offset..end] + m.content[end..end + c.size];
    }
  }

  lemma WriterKeepsOwnCopy(m: State, t: Tid, c: Choice)
    requires Enabled(m, t, c) && m.pc[t].Writing? && CopyInv(m, m.pc[t])
    ensures CopyInv(Next(m, t, c), Next(m, t, c).pc[t])
  {
    if c.Chunk? {
      ChunkOverlaid(m.content, m.pc[t].found, m.pc[t].offset, m.pc[t].bytes, m.pc[t].done, c.size);
    }
  }

  lemma StepKeepsOwnCopy(m: State, t: Tid, c: Choice)
    requires Enabled(m, t, c) && CopyInv(m, m.pc[t])
    ensures CopyInv(Next(m, t, c), Next(m, t, c).pc[t])
  {
    if m.pc[t].Reading? { ReaderKeepsOwnCopy(m, t, c); }
    else if m.pc[t].Writing? { WriterKeepsOwnCopy(m, t, c); }
  }

  lemma StepKeepsContent(m: State, t: Tid, c: Choice)
    requires Inv(m) && Enabled(m, t, c)
    ensures ContentInv(Next(m, t, c))
  {
    var m' := Next(m, t, c);
    StepKeepsOwnCopy(m, t, c);
    forall u | u in m'.pc && u != t ensures CopyInv(m', m'.pc[u]) {
      StepKeepsOtherCopy(m, t, c, u);
    }
  }

  lemma StepKeepsOtherCopy(m: State, t: Tid, c: Choice, u: Tid)
    requires Inv(m) && Enabled(m, t, c) && u in m.pc && u != t
    ensures CopyInv(Next(m, t, c), Next(m, t, c).pc[u])
  {
    assert CopyInv(m, m.pc[u]);
    if m.pc[t].Writing? { Exclusion(m, t, u); }
  }

  lemma StepKeepsInv(m: State, t: Tid, c: Choice)
    requires Inv(m) && Enabled(m, t, c)
    ensures Inv(Next(m, t, c))
  {
    StepKeepsLock(m, t, c);
    StepKeepsCount(m, t, c);
    StepKeepsSema(m, t, c);
    StepKeepsContent(m, t, c);
  }

  function Initial(threads: set<Tid>, content: seq<byte>): State {
    State(None, 0, 1, content, map t | t in threads :: Outside)
  }

  ghost predicate IsRun(run: seq<State>) {
    && run != []
    && (exists threads, content :: run[0] == Initial(threads, content))
    && forall i :: 0 <= i < |run| - 1 ==> exists t, c :: Enabled(run[i], t, c) && run[i + 1] == Next(run[i], t, c)
  }

  /** In every run, every state is sound. */
  lemma {:induction false} RunKeepsInv(run: seq<State>, i: nat)
    requires IsRun(run) && i < |run|
    ensures Inv(run[i])
  {
    if i == 0 {
      var threads, content :| run[0] == Initial(threads, content);
      assert Counted(run[0]) == {} && Writers(run[0]) == {};
    } else {
      RunKeepsInv(run, i - 1);
      var t, c :| Enabled(run[i - 1], t, c) && run[i - 1 + 1] == Next(run[i - 1], t, c);
      StepKeepsInv(run[i - 1], t, c);
    }
  }

  /** Some thread can always go on: a thread waits for the lock only while another can release it, and
      for the semaphore only while its owner can return it. */
  lemma NeverStuck(m: State)
    requires Inv(m) && exists t :: t in m.pc && !m.pc[t].Outside?
    ensures exists t, c :: Enabled(m, t, c) && !m.pc[t].Outside?
  {
    if m.holder.Some? {
      HolderGoesOn(m, m.holder.value);
    } else {
      var t :| t in m.pc && !m.pc[t].Outside?;
      if m.pc[t].WriteDown? && m.sema == 0 {
        OwnerGoesOn(m);
      } else {
        assert Enabled(m, t, if m.pc[t].Reading? || m.pc[t].Writing? then Stop else Go);
      }
    }
  }

  lemma HolderGoesOn(m: State, h: Tid)
    requires Inv(m) && m.holder == Some(h)
    ensures exists t, c :: Enabled(m, t, c) && !m.pc[t].Outside?
  {
    if m.pc[h].GroupDown? && m.sema == 0 {
      WriterGoesOn(m);
    } else {
      assert Enabled(m, h, Go);
    }
  }

  lemma WriterGoesOn(m: State)
    requires Writers(m) != {}
    ensures exists t, c :: Enabled(m, t, c) && !m.pc[t].Outside?
  {
    var w :| w in Writers(m);
    assert Enabled(m, w, if m.pc[w].Writing? then Stop else Go);
  }

  lemma OwnerGoesOn(m: State)
    requires Inv(m) && m.holder == None && m.sema == 0
    ensures exists t, c :: Enabled(m, t, c) && !m.pc[t].Outside?
  {
    if Writers(m) != {} {
      WriterGoesOn(m);
    } else {
      assert Counted(m) != {};
      var r :| r in Counted(m);
      assert Enabled(m, r, if m.pc[r].Reading? then Stop else Go);
    }
  }
}
