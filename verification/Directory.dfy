/** A directory as a table of slots (pintos/src/filesys/directory.c) and the map from names to inode
    sectors that it stands for. */
module Directory {
  import opened Options
  import opened Sequences

  const NAME_MAX: nat := 14

  datatype Entry = Entry(sector: nat, name: string, inUse: bool)

  predicate ValidName(name: string) { 0 < |name| <= NAME_MAX }

  ghost predicate InUse(slots: seq<Entry>, name: string) {
    exists i :: 0 <= i < |slots| && slots[i].inUse && slots[i].name == name
  }

  /** No two used slots share a name. */
  ghost predicate NamesDistinct(slots: seq<Entry>) {
    forall i, j :: 0 <= i < j < |slots| && slots[i].inUse && slots[j].inUse ==> slots[i].name != slots[j].name
  }

  /** The directory as a map. */
  function Files(slots: seq<Entry>): map<string, nat> {
    if slots == [] then map[]
    else
      var rest, e := Files(slots[..|slots| - 1]), slots[|slots| - 1];
      if e.inUse then rest[e.name := e.sector] else rest
  }

  lemma {:induction false} FilesHasNames(slots: seq<Entry>, name: string)
    ensures name in Files(slots) <==> InUse(slots, name)
  {
    if slots != [] {
      var rest := slots[..|slots| - 1];
      FilesHasNames(rest, name);
      if InUse(rest, name) {
        var i :| 0 <= i < |rest| && rest[i].inUse && rest[i].name == name;
        assert slots[i] == rest[i];
      }
      if InUse(slots, name) {
        var i :| 0 <= i < |slots| && slots[i].inUse && slots[i].name == name;
        if i < |rest| { assert rest[i] == slots[i]; }
      }
    }
  }

  lemma {:induction false} FilesAt(slots: seq<Entry>, i: nat)
    requires i < |slots| && slots[i].inUse && NamesDistinct(slots)
    ensures slots[i].name in Files(slots) && Files(slots)[slots[i].name] == slots[i].sector
  {
    if i < |slots| - 1 { FilesAt(slots[..|slots| - 1], i); }
  }

  /** Two tables whose used slots say the same of every name stand for the same map. */
  lemma FilesEqual(slots: seq<Entry>, files: map<string, nat>)
    requires NamesDistinct(slots)
    requires forall i :: 0 <= i < |slots| && slots[i].inUse ==>
               slots[i].name in files && files[slots[i].name] == slots[i].sector
    requires forall name :: name in files ==> InUse(slots, name)
    ensures Files(slots) == files
  {
    forall name ensures name in Files(slots) <==> name in files {
      FilesHasNames(slots, name);
    }
    forall name | name in files ensures Files(slots)[name] == files[name] {
      var i :| 0 <= i < |slots| && slots[i].inUse && slots[i].name == name;
      FilesAt(slots, i);
    }
  }

  /** The names a full pass lists, in slot order. */
  function Listing(slots: seq<Entry>): (names: seq<string>) {
    if slots == [] then []
    else Listing(slots[..|slots| - 1]) + (if slots[|slots| - 1].inUse then [slots[|slots| - 1].name] else [])
  }

  /** A full pass lists each name of the map once. */
  lemma {:induction false} ListingIsFiles(slots: seq<Entry>)
    requires NamesDistinct(slots)
    ensures NoDuplicates(Listing(slots))
    ensures forall name :: name in Listing(slots) <==> name in Files(slots)
  {
    if slots != [] {
      var rest := slots[..|slots| - 1];
      ListingIsFiles(rest);
      FilesHasNames(rest, slots[|slots| - 1].name);
    }
  }

  /** The first n entries of a scan that was cut short after `limit` of them. */
  function Scanned(slots: seq<Entry>, limit: nat): seq<Entry> {
    if limit < |slots| then slots[..limit] else slots
  }

  /** The directory held open by a `struct dir`, with its read position (in slots). An entry read
      comes out short at the end of the directory, but also when no memory can be had for the
      bounce buffer: `limit` says after how many entries a scan is cut short. */
  class Dir {
    var slots: seq<Entry>
    var pos: nat

    constructor (count: nat)
      ensures slots == seq(count, i => Entry(0, [], false)) && pos == 0
    {
      slots := seq(count, i => Entry(0, [], false));
      pos := 0;
    }

    /** `lookup`: the first used slot of that name among those scanned. */
    method Lookup(name: string, limit: nat) returns (r: Option<nat>)
      ensures match r
              case Some(i) => i < |slots| && i < limit && slots[i].inUse && slots[i].name == name
                              && forall j :: 0 <= j < i ==> !(slots[j].inUse && slots[j].name == name)
              case None => !InUse(Scanned(slots, limit), name)
      ensures NamesDistinct(slots) && |slots| <= limit ==>
                && (r.Some? <==> name in Files(slots))
                && (r.Some? ==> slots[r.value].sector == Files(slots)[name])
    {
      FilesHasNames(slots, name);
      var ofs := 0;
      while ofs < |slots| && ofs < limit
        invariant ofs <= |slots| && ofs <= limit
        invariant forall j :: 0 <= j < ofs ==> !(slots[j].inUse && slots[j].name == name)
      {
        if slots[ofs].inUse && slots[ofs].name == name {
          if NamesDistinct(slots) { FilesAt(slots, ofs); }
          return Some(ofs);
        }
        ofs := ofs + 1;
      }
      r := None;
    }

    /** `dir_add` for a valid name: takes the first free slot, unless the name is found first. */
    method Add(name: string, sector: nat, lookupLimit: nat, slotLimit: nat, writeOk: bool) returns (success: bool)
      requires ValidName(name)
      modifies this`slots
      ensures success <==> !InUse(Scanned(old(slots), lookupLimit), name)
                           && FreeSlot(old(slots), slotLimit) < |old(slots)| && writeOk
      ensures slots == if success then old(slots)[FreeSlot(old(slots), slotLimit) := Entry(sector, name, true)]
                       else old(slots)
      ensures NamesDistinct(old(slots)) && |slots| <= lookupLimit && |slots| <= slotLimit ==>
                && NamesDistinct(slots)
                && Files(slots) == (if success then Files(old(slots))[name := sector] else Files(old(slots)))
                && (success <==> name !in Files(old(slots)) && writeOk
                                 && exists i :: 0 <= i < |slots| && !old(slots)[i].inUse)
    {
      var found := Lookup(name, lookupLimit);
      if found.Some? {
        assert Scanned(slots, lookupLimit)[found.value] == slots[found.value];
        FilesHasNames(slots, name);
        return false;
      }
      var ofs := 0;
      while ofs < |slots| && ofs < slotLimit && slots[ofs].inUse
        invariant ofs <= |slots| && ofs <= slotLimit
        invariant forall i :: 0 <= i < ofs ==> slots[i].inUse
      {
        ofs := ofs + 1;
      }
      FreeSlotIs(slots, slotLimit, ofs);
      success := ofs < |slots| && writeOk;
      if |slots| <= slotLimit { AddSucceedsIff(slots, name, |slots|); }
      if success {
        if NamesDistinct(slots) && |slots| <= lookupLimit && |slots| <= slotLimit {
          AddRefinesMap(slots, ofs, name, sector);
        }
        slots := slots[ofs := Entry(sector, name, true)];
      }
    }

    /** The entry written back as free by `dir_remove`. */
    method Erase(k: nat, writeOk: bool)
      requires k < |slots| && slots[k].inUse
      modifies this`slots
      ensures slots == if writeOk then old(slots)[k := old(slots)[k].(inUse := false)] else old(slots)
      ensures writeOk && NamesDistinct(old(slots)) ==>
                NamesDistinct(slots) && Files(slots) == Files(old(slots)) - {old(slots)[k].name}
    {
      if writeOk {
        if NamesDistinct(slots) { EraseRefinesMap(slots, k); }
        slots := slots[k := slots[k].(inUse := false)];
      }
    }

    /** `dir_readdir`; reads fail from entry `limit` on. */
    method ReadDir(limit: nat) returns (r: Option<string>)
      requires pos <= |slots|
      modifies this`pos
      ensures old(pos) <= pos <= |slots| && (old(pos) <= limit ==> pos <= limit)
      ensures Listing(slots[..pos]) == Listing(slots[..old(pos)]) + (if r.Some? then [r.value] else [])
      ensures r.None? ==> pos == |slots| || limit <= pos
      ensures r.Some? ==> old(pos) < pos
    {
      while pos < |slots| && pos < limit
        invariant old(pos) <= pos <= |slots| && (old(pos) <= limit ==> pos <= limit)
        invariant Listing(slots[..pos]) == Listing(slots[..old(pos)])
      {
        var e := slots[pos];
        pos := pos + 1;
        assert slots[..pos][..pos - 1] == slots[..pos - 1];
        if e.inUse { return Some(e.name); }
      }
      r := None;
    }

    /** Reading a directory from the start to the end, as `fsutil_ls` does. */
    method List(limit: nat) returns (names: seq<string>)
      modifies this`pos
      ensures names == Listing(Scanned(slots, limit))
      ensures |slots| <= limit ==> names == Listing(slots)
    {
      pos := 0;
      names := [];
      var name := ReadDir(limit);
      while name.Some?
        invariant pos <= |slots| && pos <= limit
        invariant names + (if name.Some? then [name.value] else []) == Listing(slots[..pos])
        invariant name.None? ==> pos == |slots| || limit <= pos
        decreases |slots| - pos, name.Some?
      {
        names := names + [name.value];
        name := ReadDir(limit);
      }
      assert slots[..pos] == Scanned(slots, limit);
    }
  }

  /** The first slot not in use among those scanned; the end of the scan if there is none. */
  function FreeSlot(slots: seq<Entry>, limit: nat): (r: nat)
    ensures r <= |slots| && r <= limit
    ensures forall i :: 0 <= i < r ==> slots[i].inUse
    ensures r < |slots| && r < limit ==> !slots[r].inUse
  {
    if slots == [] || limit == 0 || !slots[0].inUse then 0 else 1 + FreeSlot(slots[1..], limit - 1)
  }

  lemma FreeSlotIs(slots: seq<Entry>, limit: nat, r: nat)
    requires r <= |slots| && r <= limit && forall i :: 0 <= i < r ==> slots[i].inUse
    requires r < |slots| && r < limit ==> !slots[r].inUse
    ensures FreeSlot(slots, limit) == r
  {
  }

  // ---------- The table refines a map ----------

  /** Filling a slot that was free, with a name that was not in use, adds exactly that file. */
  lemma AddRefinesMap(slots: seq<Entry>, k: nat, name: string, sector: nat)
    requires k < |slots| && NamesDistinct(slots) && !InUse(slots, name) && !slots[k].inUse
    ensures var slots' := slots[k := Entry(sector, name, true)];
            NamesDistinct(slots') && Files(slots') == Files(slots)[name := sector]
  {
    var slots' := slots[k := Entry(sector, name, true)];
    forall i | 0 <= i < |slots| && slots[i].inUse
      ensures slots[i].name != name && slots'[i] == slots[i] && slots[i].name in Files(slots)
              && Files(slots)[slots[i].name] == slots[i].sector
    {
      FilesAt(slots, i);
    }
    assert NamesDistinct(slots');
    forall n | n in Files(slots)[name := sector] ensures InUse(slots', n) {
      FilesHasNames(slots, n);
      if n == name { assert slots'[k].name == name; } else { InUseStays(slots, slots', k, n); }
    }
    FilesEqual(slots', Files(slots)[name := sector]);
  }

  lemma InUseStays(slots: seq<Entry>, slots': seq<Entry>, k: nat, name: string)
    requires k < |slots| == |slots'| && slots' == slots[k := slots'[k]] && InUse(slots, name)
    requires slots[k].inUse ==> slots[k].name != name
    ensures InUse(slots', name)
  {
    var i :| 0 <= i < |slots| && slots[i].inUse && slots[i].name == name;
    assert slots'[i] == slots[i];
  }

  /** Clearing a used slot removes exactly that file. */
  lemma EraseRefinesMap(slots: seq<Entry>, k: nat)
    requires k < |slots| && NamesDistinct(slots) && slots[k].inUse
    ensures var slots' := slots[k := slots[k].(inUse := false)];
            NamesDistinct(slots') && Files(slots') == Files(slots) - {slots[k].name}
  {
    var slots' := slots[k := slots[k].(inUse := false)];
    forall i | 0 <= i < |slots'| && slots'[i].inUse
      ensures slots'[i].name in Files(slots) - {slots[k].name} && Files(slots)[slots'[i].name] == slots'[i].sector
    {
      FilesAt(slots, i);
    }
    forall n | n in Files(slots) - {slots[k].name} ensures InUse(slots', n) {
      FilesHasNames(slots, n);
      InUseStays(slots, slots', k, n);
    }
    FilesEqual(slots', Files(slots) - {slots[k].name});
  }

  /** With no scan cut short, `dir_add` succeeds exactly when the name is new, a slot is free and the
      write goes through. */
  lemma AddSucceedsIff(slots: seq<Entry>, name: string, limit: nat)
    requires |slots| <= limit
    ensures (!InUse(Scanned(slots, limit), name) && FreeSlot(slots, limit) < |slots|)
            <==> name !in Files(slots) && exists i :: 0 <= i < |slots| && !slots[i].inUse
  {
    FilesHasNames(slots, name);
  }

  /** A scan cut short can make `dir_add` go wrong: an added name refines the map exactly when the
      part not scanned did not hold it and the slot written was really free. */
  lemma AddRefinesMapIff(slots: seq<Entry>, name: string, sector: nat, limit: nat)
    requires NamesDistinct(slots) && FreeSlot(slots, limit) < |slots|
    ensures var k := FreeSlot(slots, limit);
            var slots' := slots[k := Entry(sector, name, true)];
            (NamesDistinct(slots') && name !in Files(slots) && Files(slots') == Files(slots)[name := sector])
            <==> !InUse(slots, name) && !slots[k].inUse
  {
    var k := FreeSlot(slots, limit);
    FilesHasNames(slots, name);
    if !InUse(slots, name) {
      if slots[k].inUse { OverwriteLosesFile(slots, k, name, sector); } else { AddRefinesMap(slots, k, name, sector); }
    }
  }

  /** With one used slot and a scan cut short before it, adding "b" loses "a". */
  lemma CutScanLosesFile(sector: nat)
    ensures var slots := [Entry(4, "a", true)];
            var k := FreeSlot(slots, 0);
            k < |slots| && "a" in Files(slots) && "a" !in Files(slots[k := Entry(sector, "b", true)])
  {
    var slots := [Entry(4, "a", true)];
    assert "b" != "a";
    forall i | 0 <= i < |slots| && slots[i].inUse ensures slots[i].name != "b" {}
    OverwriteLosesFile(slots, 0, "b", sector);
  }

  /** Overwriting a used slot loses the file it named. */
  lemma OverwriteLosesFile(slots: seq<Entry>, k: nat, name: string, sector: nat)
    requires k < |slots| && NamesDistinct(slots) && slots[k].inUse && !InUse(slots, name)
    ensures slots[k].name in Files(slots) && slots[k].name !in Files(slots[k := Entry(sector, name, true)])
  {
    FilesAt(slots, k);
    var slots' := slots[k := Entry(sector, name, true)];
    FilesHasNames(slots', slots[k].name);
    assert name != slots[k].name;
    forall i | 0 <= i < |slots'| && slots'[i].inUse ensures slots'[i].name != slots[k].name {
      assert i != k ==> slots'[i] == slots[i];
    }
  }
}
