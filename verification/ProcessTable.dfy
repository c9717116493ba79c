/** The process table (pintos/src/userprog/plist.c): a fixed array of slots, updated in place by
    loops that search it from the front. */
module ProcessTable {
  import opened Options

  const PLIST_SIZE: nat := 512

  /** `struct plist_info` without the name; `sema` is the value of its semaphore. */
  datatype Slot = Slot(id: int, exitStatus: int, free: bool, alive: bool, parentId: int, parentAlive: bool, sema: nat)

  type Table = seq<Slot>

  /** `plist_get_process`: the first slot with the id, free or not. */
  function FindId(t: Table, id: int): (r: nat)
    ensures r <= |t| && (r < |t| ==> t[r].id == id) && forall i :: 0 <= i < r ==> t[i].id != id
  {
    if t == [] || t[0].id == id then 0 else 1 + FindId(t[1..], id)
  }

  function FirstFree(t: Table): (r: nat)
    ensures r <= |t| && (r < |t| ==> t[r].free) && forall i :: 0 <= i < r ==> !t[i].free
  {
    if t == [] || t[0].free then 0 else 1 + FirstFree(t[1..])
  }

  lemma FindIdIs(t: Table, id: int, r: nat)
    requires r <= |t| && (r < |t| ==> t[r].id == id) && forall i :: 0 <= i < r ==> t[i].id != id
    ensures FindId(t, id) == r
  {
  }

  lemma FirstFreeIs(t: Table, r: nat)
    requires r <= |t| && (r < |t| ==> t[r].free) && forall i :: 0 <= i < r ==> !t[i].free
    ensures FirstFree(t) == r
  {
  }

  predicate IsAlive(t: Table, id: int) {
    FindId(t, id) < |t| && t[FindId(t, id)].alive
  }

  /** A slot after its parent has died. */
  function Orphaned(s: Slot): Slot {
    s.(parentAlive := false, free := s.free || !s.alive)
  }

  function ChildrenKilled(t: Table, parent: int): (r: Table)
    ensures |r| == |t|
    ensures forall i :: 0 <= i < |t| ==> r[i] == if t[i].parentId == parent then Orphaned(t[i]) else t[i]
  {
    seq(|t|, i requires 0 <= i < |t| => if t[i].parentId == parent then Orphaned(t[i]) else t[i])
  }

  /** The table after `plist_insert` has taken slot k. */
  function InsertedAt(t: Table, id: int, parent: int, k: nat): (r: Table)
    requires k < |t|
    ensures |r| == |t|
  {
    var entered := t[k].(free := false, alive := true, id := id, parentId := parent);
    t[k := Slot(id, -1, false, true, parent, IsAlive(t[k := entered], parent), 0)]
  }

  /** The table after `plist_insert`, if there is a free slot. */
  function Inserted(t: Table, id: int, parent: int): (r: Table)
    ensures |r| == |t|
  {
    if FirstFree(t) == |t| then t else InsertedAt(t, id, parent, FirstFree(t))
  }

  function StatusStored(t: Table, id: int, status: int): (r: Table)
    ensures |r| == |t|
  {
    var k := FindId(t, id);
    if k < |t| then t[k := t[k].(exitStatus := status)] else t
  }

  /** The table after `plist_remove`. */
  function Removed(t: Table, id: int): (r: Table)
    ensures |r| == |t|
  {
    var k := FindId(t, id);
    if k == |t| then t
    else
      var t1 := t[k := t[k].(alive := false)];
      var t2 := if IsAlive(t1, t[k].parentId) then t1 else t1[k := t1[k].(free := true)];
      var t3 := ChildrenKilled(t2, id);
      t3[k := t3[k].(sema := t3[k].sema + 1)]
  }

  class PList {
    const list: array<Slot>

    constructor ()
      ensures fresh(list) && list.Length == PLIST_SIZE
      ensures forall i :: 0 <= i < PLIST_SIZE ==> list[i] == Slot(0, 0, true, false, 0, false, 0)
    {
      list := new Slot[PLIST_SIZE](i => Slot(0, 0, false, false, 0, false, 0));
      new;
      Init();
    }

    /** `plist_init` on a table that is all zeros, as a C global is. */
    method Init()
      requires list.Length == PLIST_SIZE
      modifies list
      ensures forall i :: 0 <= i < PLIST_SIZE ==> list[i] == old(list[i]).(free := true)
    {
      var position := 0;
      while position < PLIST_SIZE
        invariant 0 <= position <= PLIST_SIZE
        invariant forall i :: 0 <= i < PLIST_SIZE ==>
                    list[i] == if i < position then old(list[i]).(free := true) else old(list[i])
      {
        list[position] := list[position].(free := true);
        position := position + 1;
      }
    }

    method GetProcess(id: int) returns (r: Option<nat>)
      ensures r == if FindId(list[..], id) < list.Length then Some(FindId(list[..], id)) else None
    {
      var position := 0;
      while position < list.Length
        invariant 0 <= position <= list.Length
        invariant forall i :: 0 <= i < position ==> list[i].id != id
      {
        if list[position].id == id {
          FindIdIs(list[..], id, position);
          return Some(position);
        }
        position := position + 1;
      }
      FindIdIs(list[..], id, position);
      r := None;
    }

    method CheckIfParentAlive(parent: int) returns (alive: bool)
      ensures alive == IsAlive(list[..], parent)
    {
      alive := false;
      var current := GetProcess(parent);
      if current.Some? { alive := list[current.value].alive; }
    }

    method KillChildren(parent: int)
      modifies list
      ensures list[..] == ChildrenKilled(old(list[..]), parent)
    {
      var position := 0;
      while position < list.Length
        invariant 0 <= position <= list.Length
        invariant forall i :: 0 <= i < list.Length ==>
                    list[i] == if i < position then ChildrenKilled(old(list[..]), parent)[i] else old(list[i])
      {
        if list[position].parentId == parent {
          list[position] := list[position].(parentAlive := false);
          if !list[position].alive { list[position] := list[position].(free := true); }
        }
        position := position + 1;
      }
    }

    /** The index of the slot taken, or -1 when the table is full. */
    method Insert(id: int, parent: int) returns (index: int)
      modifies list
      ensures list[..] == Inserted(old(list[..]), id, parent)
      ensures index == if FirstFree(old(list[..])) < list.Length then FirstFree(old(list[..])) else -1
    {
      var position := 0;
      index := -1;
      while position < list.Length && !list[position].free
        invariant 0 <= position <= list.Length
        invariant forall i :: 0 <= i < position ==> !list[i].free
      {
        position := position + 1;
      }
      FirstFreeIs(list[..], position);
      if position < list.Length {
        list[position] := list[position].(free := false, alive := true, id := id, parentId := parent);
        var parentAlive := CheckIfParentAlive(parent);
        list[position] := list[position].(parentAlive := parentAlive, exitStatus := -1, sema := 0);
        index := position;
      }
    }

    method ChangeExitStatus(id: int, status: int)
      modifies list
      ensures list[..] == StatusStored(old(list[..]), id, status)
    {
      var current := GetProcess(id);
      if current.Some? { list[current.value] := list[current.value].(exitStatus := status); }
    }

    method Remove(id: int)
      modifies list
      ensures list[..] == Removed(old(list[..]), id)
    {
      var current := GetProcess(id);
      if current.Some? {
        var k := current.value;
        list[k] := list[k].(alive := false);
        var parentAlive := CheckIfParentAlive(list[k].parentId);
        if !parentAlive { list[k] := list[k].(free := true); }
        KillChildren(list[k].id);
        list[k] := list[k].(sema := list[k].sema + 1);
      }
    }
  }
}
