/** The file-system calls (pintos/src/filesys/filesys.c) updating the free map, the inodes, the open
    list and the root directory in place. What keeps them consistent is in module FileSystem. */
module Filesys {
  import opened Options
  import opened Bitmap
  import opened Directory
  import opened InodeIO
  import opened FileSystem

  /** Where a call can run out of memory, or have a write or scan come up short. */
  datatype Faults = Faults(rootInodeOk: bool, rootDirOk: bool, mapWriteOk: bool, bufferOk: bool, extentWriteOk: bool,
                           inodeOk: bool, fileOk: bool, lookupLimit: nat, slotLimit: nat, entryWriteOk: bool)

  predicate NoFaults(fs: FS, f: Faults) {
    && f.rootInodeOk && f.rootDirOk && f.mapWriteOk && f.bufferOk && f.extentWriteOk && f.inodeOk && f.fileOk
    && f.entryWriteOk && |fs.slots| <= f.lookupLimit && |fs.slots| <= f.slotLimit
  }

  /** `dir_open_root` succeeds. */
  ghost predicate RootOpens(fs: FS, f: Faults) {
    (IsOpen(fs, ROOT_DIR_SECTOR) || f.rootInodeOk) && f.rootDirOk
  }

  ghost predicate HasRoom(fs: FS, size: nat) {
    exists a: nat, start: nat :: Placed(fs.used, BytesToSectors(size), a, start)
  }

  ghost predicate CanPlace(fs: FS, size: nat, f: Faults) {
    f.mapWriteOk && f.bufferOk && f.extentWriteOk && HasRoom(fs, size)
  }

  /** `filesys_create` gets as far as `dir_add`. */
  ghost predicate ReachesAdd(fs: FS, size: nat, f: Faults) {
    RootOpens(fs, f) && CanPlace(fs, size, f)
  }

  /** `dir_add` fails: the name is found, there is no slot for it, or the slot cannot be written. */
  ghost predicate AddFails(slots: seq<Entry>, name: string, f: Faults) {
    InUse(Scanned(slots, f.lookupLimit), name) || FreeSlot(slots, f.slotLimit) == |slots| || !f.entryWriteOk
  }

  /** Creating a file under a name that is taken always leaves sectors marked that no file owns, even
      when nothing goes wrong. */
  lemma CreateExistingLeaks(fs: FS, name: string, size: nat, f: Faults, a: nat, start: nat)
    requires Inv(fs) && NoFaults(fs, f) && name in Files(fs.slots) && size > 0
    requires Placed(fs.used, BytesToSectors(size), a, start)
    ensures ReachesAdd(fs, size, f) && AddFails(fs.slots, name, f)
    ensures BytesToSectors(size) > 0
    ensures var fs' := Leaked(fs, a, Extent(start, size));
            forall s: nat, x: nat :: start <= x < start + BytesToSectors(size) && Reachable(fs', s) ==>
              !fs.used[x] && fs'.used[x] && !Owns(fs', s, x)
  {
    FilesHasNames(fs.slots, name);
    forall s: nat, x: nat | start <= x < start + BytesToSectors(size)
      && Reachable(Leaked(fs, a, Extent(start, size)), s)
      ensures !fs.used[x] && Leaked(fs, a, Extent(start, size)).used[x]
              && !Owns(Leaked(fs, a, Extent(start, size)), s, x)
    {
      LeakedUnowned(fs, a, Extent(start, size), s, x);
    }
  }

  lemma FirstClearBit(bits: seq<bool>, i: nat)
    requires i < |bits| && !bits[i] && forall j :: 0 <= j < i ==> bits[j]
    ensures FirstFit(bits, 1, Some(i))
  {
    forall j | 0 <= j < i ensures !RunOf(bits, j, 1, false) { assert bits[j]; }
  }

  /** A disk of seven sectors, formatted. */
  function SmallDisk(): FS { Formatted(7) }

  /** And with an empty file created on it. */
  function WithFile(): FS { Created(SmallDisk(), 4, Extent(0, 0), 0, "a") }

  lemma SmallDiskIs()
    ensures SmallDisk().used == [true, true, true, true, false, false, false]
    ensures Inv(SmallDisk()) && Placed(SmallDisk().used, 0, 4, 0)
  {
    FormattedInv(7);
    assert SystemSectors(7) == 4;
    FirstClearBit(SmallDisk().used, 4);
  }

  lemma WithFileIs()
    ensures WithFile().used == [true, true, true, true, true, false, false]
    ensures Inv(WithFile()) && Placed(WithFile().used, 1, 5, 6) && "a" in Files(WithFile().slots)
  {
    SmallDiskIs();
    var fs, e := SmallDisk(), Extent(0, 0);
    CreatedIsPending(fs, 4, e);
    EnteredKeepsInv(InodeWritten(Allocated(Allocated(fs, 4, 1), 0, 0), 4, e), 0, "a", 4);
    var used := WithFile().used;
    assert used == [true, true, true, true, true, false, false];
    FirstClearBit(used, 5);
    FirstClearBit(SetRun(used, 5, 1, true), 6);
    assert WithFile().slots[0] == Entry(4, "a", true);
    FilesHasNames(WithFile().slots, "a");
  }

  lemma NoNamesYet(f: Faults)
    requires NoFaults(SmallDisk(), f)
    ensures !AddFails(SmallDisk().slots, "a", f) && FreeSlot(SmallDisk().slots, f.slotLimit) == 0
  {
    assert !SmallDisk().slots[0].inUse;
  }

  /** On a disk of seven sectors just formatted, creating an empty file works; creating it again, with
      512 bytes, takes the last sector from the disk for good. */
  lemma CreateLeakExample(f: Faults)
    requires NoFaults(SmallDisk(), f)
    ensures Inv(SmallDisk()) && ReachesAdd(SmallDisk(), 0, f) && !AddFails(SmallDisk().slots, "a", f)
    ensures Placed(SmallDisk().used, 0, 4, 0) && FreeSlot(SmallDisk().slots, f.slotLimit) == 0
    ensures Inv(WithFile()) && ReachesAdd(WithFile(), 512, f) && AddFails(WithFile().slots, "a", f)
    ensures Placed(WithFile().used, 1, 5, 6)
    ensures Leaked(WithFile(), 5, Extent(6, 512)).used == [true, true, true, true, true, false, true]
  {
    SmallDiskIs();
    WithFileIs();
    NoNamesYet(f);
    assert Placed(SmallDisk().used, BytesToSectors(0), 4, 0);
    CreateExistingLeaks(WithFile(), "a", 512, f, 5, 6);
  }

  ghost predicate IsRemoval(fs: FS, fs': FS, k: int, name: string) {
    && 0 <= k < |fs.slots| && fs.slots[k].inUse && fs.slots[k].name == name
    && Sound(fs, fs.slots[k].sector) && fs.slots[k].sector < |fs.used|
    && fs' == FileRemoved(fs, k)
  }

  class FileSys {
    const freeMap: BitMap
    const root: Dir
    var inodes: map<nat, Extent>
    var open: seq<Opened>
    ghost var handles: multiset<nat>

    ghost function State(): FS
      reads this, freeMap, root
    {
      FS(freeMap.bits, inodes, root.slots, open, handles)
    }

    ghost predicate Valid()
      reads this, freeMap, root
    {
      Inv(State())
    }

    constructor (sectors: nat)
      requires SystemSectors(sectors) <= sectors
      ensures Valid() && State() == Formatted(sectors) && fresh(freeMap) && fresh(root)
    {
      freeMap := new BitMap(sectors);
      root := new Dir(ROOT_ENTRIES);
      inodes := map[FREE_MAP_SECTOR := MapExtent(sectors), ROOT_DIR_SECTOR := RootExtent(sectors)];
      open := [Opened(FREE_MAP_SECTOR, 1, false, MapExtent(sectors))];
      handles := multiset{FREE_MAP_SECTOR};
      new;
      freeMap.SetMultiple(0, SystemSectors(sectors), true);
      FormattedInv(sectors);
    }

    method FreeMapAllocate(cnt: nat, writeOk: bool) returns (r: Option<nat>)
      modifies freeMap
      ensures match r
              case Some(start) => writeOk && RunOf(old(freeMap.bits), start, cnt, false)
                                  && freeMap.bits == SetRun(old(freeMap.bits), start, cnt, true)
              case None => freeMap.bits == old(freeMap.bits)
      ensures writeOk || r.Some? ==> FirstFit(old(freeMap.bits), cnt, r)
    {
      r := freeMap.ScanAndFlip(cnt);
      if r.Some? && !writeOk {
        freeMap.SetMultiple(r.value, cnt, false);
        assert freeMap.bits == old(freeMap.bits);
        r := None;
      }
    }

    /** The precondition is the source's assertion. */
    method FreeMapRelease(start: nat, cnt: nat)
      requires RunOf(freeMap.bits, start, cnt, true)
      modifies freeMap
      ensures freeMap.bits == SetRun(old(freeMap.bits), start, cnt, false)
    {
      var all := freeMap.All(start, cnt, true);
      assert all;
      freeMap.SetMultiple(start, cnt, false);
    }

    method FindInode(s: nat) returns (i: nat)
      ensures i == FindOpen(open, s)
    {
      i := 0;
      while i < |open| && open[i].sector != s
        invariant i <= |open|
        invariant forall j :: 0 <= j < i ==> open[j].sector != s
      {
        i := i + 1;
      }
      FindOpenIs(open, s, i);
    }

    method InodeOpen(s: nat, memoryOk: bool) returns (ok: bool)
      requires Valid() && Reachable(State(), s)
      modifies this
      ensures Valid() && (ok <==> IsOpen(old(State()), s) || memoryOk)
      ensures s in old(inodes) && State() == if ok then InodeOpened(old(State()), s) else old(State())
    {
      OpenedKeepsInv(State(), s);
      ListedFound(open, s);
      var i := FindInode(s);
      if i < |open| {
        open := open[i := open[i].(openCnt := open[i].openCnt + 1)];
      } else {
        if !memoryOk { return false; }
        open := [Opened(s, 1, false, inodes[s])] + open;
      }
      handles := handles + multiset{s};
      ok := true;
    }

    method InodeClose(s: nat)
      requires Valid() && IsOpen(State(), s)
      modifies this, freeMap
      ensures Valid() && FindOpen(old(open), s) < |old(open)|
      ensures CanRelease(old(State()), old(open)[FindOpen(old(open), s)])
      ensures State() == InodeClosed(old(State()), s)
    {
      ClosedKeepsInv(State(), s);
      assert OpenedInv(State(), open[FindOpen(open, s)]);
      DropHandle(s);
    }

    method DropHandle(s: nat)
      requires FindOpen(open, s) < |open| && CanRelease(State(), open[FindOpen(open, s)])
      requires open[FindOpen(open, s)].openCnt > 0
      modifies this, freeMap
      ensures State() == InodeClosed(old(State()), s)
    {
      var i := FindInode(s);
      var inode := open[i];
      handles := handles - multiset{s};
      if inode.openCnt - 1 == 0 {
        open := open[..i] + open[i + 1..];
        if inode.removed { ReleaseInode(inode); }
      } else {
        open := open[i := inode.(openCnt := inode.openCnt - 1)];
      }
    }

    method ReleaseInode(inode: Opened)
      requires CanRelease(State(), inode)
      modifies freeMap
      ensures inode.sector < |old(freeMap.bits)|
              && inode.extent.start + BytesToSectors(inode.extent.length) <= |old(freeMap.bits)|
      ensures State()
           == Released(Released(old(State()), inode.sector, 1), inode.extent.start, BytesToSectors(inode.extent.length))
    {
      ReleaseInTurn(State(), inode);
      FreeMapRelease(inode.sector, 1);
      FreeMapRelease(inode.extent.start, BytesToSectors(inode.extent.length));
    }

    method InodeRemove(s: nat)
      requires Valid() && IsOpen(State(), s) && !IsSystem(s) && !InDirectory(State(), s)
      modifies this`open
      ensures Valid() && State() == Marked(old(State()), s)
    {
      MarkedKeepsInv(State(), s);
      ListedFound(open, s);
      var i := FindInode(s);
      open := open[i := open[i].(removed := true)];
    }

    /** `dir_open_root`; if it fails the inode is closed again. */
    method DirOpenRoot(f: Faults) returns (ok: bool)
      requires Valid()
      modifies this, freeMap
      ensures Valid() && ROOT_DIR_SECTOR in old(inodes)
      ensures State() == if ok then InodeOpened(old(State()), ROOT_DIR_SECTOR) else old(State())
      ensures ok <==> RootOpens(old(State()), f)
    {
      ghost var fs0 := State();
      ok := InodeOpen(ROOT_DIR_SECTOR, f.rootInodeOk);
      if ok && !f.rootDirOk {
        RootClosedAgain(fs0, State(), inodes[ROOT_DIR_SECTOR]);
        DirCloseRoot();
        ok := false;
      }
    }

    method DirCloseRoot()
      requires Valid() && FindOpen(open, ROOT_DIR_SECTOR) < |open|
      modifies this, freeMap
      ensures Valid() && CanRelease(old(State()), old(open)[FindOpen(old(open), ROOT_DIR_SECTOR)])
      ensures State() == InodeClosed(old(State()), ROOT_DIR_SECTOR)
    {
      ListedFound(open, ROOT_DIR_SECTOR);
      InodeClose(ROOT_DIR_SECTOR);
    }

    /** `inode_create` in a sector just allocated. */
    method InodeCreate(a: nat, length: nat, f: Faults) returns (e: Option<Extent>)
      modifies this`inodes, freeMap
      ensures match e
              case Some(ext) =>
                && f.bufferOk && f.extentWriteOk
                && ext.length == length && FirstFit(old(freeMap.bits), BytesToSectors(length), Some(ext.start))
                && freeMap.bits == SetRun(old(freeMap.bits), ext.start, BytesToSectors(length), true)
                && inodes == old(inodes)[a := ext]
              case None =>
                && freeMap.bits == old(freeMap.bits) && inodes == old(inodes)
                && (f.bufferOk && f.extentWriteOk ==> FirstFit(freeMap.bits, BytesToSectors(length), None))
    {
      if !f.bufferOk { return None; }
      var start := FreeMapAllocate(BytesToSectors(length), f.extentWriteOk);
      if start.None? { return None; }
      inodes := inodes[a := Extent(start.value, length)];
      e := Some(Extent(start.value, length));
    }

    /** `filesys_create` succeeds exactly when it gets to `dir_add` and that succeeds. If `dir_add` is
        what fails, the data sectors stay marked; any earlier failure leaves all as it was. */
    method Create(name: string, initialSize: nat, f: Faults) returns (success: bool, ghost a: nat, ghost e: Extent)
      requires Valid() && ValidName(name)
      modifies this, freeMap, root
      ensures Valid()
      ensures success <==> ReachesAdd(old(State()), initialSize, f) && !AddFails(old(root.slots), name, f)
      ensures ReachesAdd(old(State()), initialSize, f) ==>
                e.length == initialSize && Placed(old(freeMap.bits), BytesToSectors(initialSize), a, e.start)
      ensures State() == if success then Created(old(State()), a, e, FreeSlot(old(root.slots), f.slotLimit), name)
                         else if ReachesAdd(old(State()), initialSize, f) then Leaked(old(State()), a, e)
                         else old(State())
      ensures !success ==>
                (freeMap.bits != old(freeMap.bits) <==>
                 ReachesAdd(old(State()), initialSize, f) && BytesToSectors(initialSize) > 0)
    {
      ghost var fs0 := State();
      a, e := 0, Extent(0, 0);
      var rootOk := DirOpenRoot(f);
      if !rootOk { return false, a, e; }
      ghost var fs1 := State();
      success, a, e := CreateUnderRoot(name, initialSize, f);
      RootClosedAgain(fs0, State(), fs0.inodes[ROOT_DIR_SECTOR]);
      DirCloseRoot();
      if ReachesAdd(fs0, initialSize, f) {
        CreatedRoot(fs0, fs1, a, e, FreeSlot(fs0.slots, f.slotLimit), name);
        LeakChangesMap(fs0, a, e);
      }
    }

    /** What `filesys_create` does while it has the root directory open. */
    method CreateUnderRoot(name: string, initialSize: nat, f: Faults)
      returns (success: bool, ghost a: nat, ghost e: Extent)
      requires Valid() && ValidName(name)
      modifies this`inodes, freeMap, root`slots
      ensures Valid()
      ensures success <==> CanPlace(old(State()), initialSize, f) && !AddFails(old(root.slots), name, f)
      ensures CanPlace(old(State()), initialSize, f) ==>
                e.length == initialSize && Placed(old(freeMap.bits), BytesToSectors(initialSize), a, e.start)
      ensures State() == if success then Created(old(State()), a, e, FreeSlot(old(root.slots), f.slotLimit), name)
                         else if CanPlace(old(State()), initialSize, f) then Leaked(old(State()), a, e)
                         else old(State())
    {
      ghost var fs1 := State();
      a, e := 0, Extent(0, 0);
      success := false;
      var sector := FreeMapAllocate(1, f.mapWriteOk);
      if sector.Some? {
        a := sector.value;
        success, e := CreateIn(name, sector.value, initialSize, f, fs1);
      }
    }

    /** The rest of `filesys_create` once a sector for the inode has been marked. */
    method CreateIn(name: string, a: nat, initialSize: nat, f: Faults, ghost fs1: FS)
      returns (success: bool, ghost e: Extent)
      requires Inv(fs1) && ValidName(name) && FirstFit(fs1.used, 1, Some(a)) && State() == Allocated(fs1, a, 1)
      modifies this`inodes, freeMap, root`slots
      ensures Valid()
      ensures success <==> f.bufferOk && f.extentWriteOk && HasRoom(fs1, initialSize) && !AddFails(fs1.slots, name, f)
      ensures f.bufferOk && f.extentWriteOk && HasRoom(fs1, initialSize) ==>
                e.length == initialSize && Placed(fs1.used, BytesToSectors(initialSize), a, e.start)
      ensures State() == if success then Created(fs1, a, e, FreeSlot(fs1.slots, f.slotLimit), name)
                         else if f.bufferOk && f.extentWriteOk && HasRoom(fs1, initialSize) then Leaked(fs1, a, e)
                         else fs1
    {
      e := Extent(0, 0);
      success := false;
      AllocatedKeepsInv(fs1, a, 1);
      var ext := InodeCreate(a, initialSize, f);
      if ext.Some? {
        e := ext.value;
        assert Placed(fs1.used, BytesToSectors(initialSize), a, e.start);
        CreatedIsPending(fs1, a, e);
        ghost var fs3 := State();
        success := root.Add(name, a, f.lookupLimit, f.slotLimit, f.entryWriteOk);
        if success {
          EnteredKeepsInv(fs3, FreeSlot(fs1.slots, f.slotLimit), name, a);
          return;
        }
        DroppedIsLeak(fs1, a, e);
      } else {
        NoRoomAt(fs1.used, BytesToSectors(initialSize), a);
        DroppedIsNothing(fs1, a);
      }
      if a != 0 { FreeMapRelease(a, 1); }
    }

    /** `filesys_open`: a handle on the inode the directory names, or no change at all. */
    method Open(name: string, f: Faults) returns (r: Option<nat>)
      requires Valid()
      modifies this, freeMap
      ensures Valid()
      ensures match r
              case Some(s) => s in old(inodes) && State() == InodeOpened(old(State()), s)
                              && exists i :: 0 <= i < |root.slots| && root.slots[i] == Entry(s, name, true)
              case None => State() == old(State())
      ensures NamesDistinct(root.slots) && |root.slots| <= f.lookupLimit ==>
                match r
                case Some(s) => name in Files(root.slots) && s == Files(root.slots)[name]
                case None => name !in Files(root.slots) || !f.rootInodeOk || !f.rootDirOk || !f.inodeOk || !f.fileOk
    {
      ghost var fs0 := State();
      var rootOk := DirOpenRoot(f);
      if !rootOk { return None; }
      r := None;
      var slot := root.Lookup(name, f.lookupLimit);
      if slot.Some? {
        var s := root.slots[slot.value].sector;
        assert InDirectory(State(), s) && InDirectory(fs0, s) && root.slots[slot.value] == Entry(s, name, true);
        var ok := InodeOpen(s, f.inodeOk);
        if ok {
          r := OpenFound(s, f, fs0);
          return;
        }
      }
      RootClosedAgain(fs0, State(), fs0.inodes[ROOT_DIR_SECTOR]);
      DirCloseRoot();
    }

    /** The end of `filesys_open`, with the root directory and the inode found open: `file_open` closes
        the inode again if it gets no memory. */
    method OpenFound(s: nat, f: Faults, ghost fs0: FS) returns (r: Option<nat>)
      requires Inv(fs0) && ROOT_DIR_SECTOR in fs0.inodes && s in fs0.inodes && !IsSystem(s) && InDirectory(fs0, s)
      requires Valid() && State() == InodeOpened(InodeOpened(fs0, ROOT_DIR_SECTOR), s)
      modifies this, freeMap
      ensures Valid() && r == (if f.fileOk then Some(s) else None)
      ensures State() == if f.fileOk then InodeOpened(fs0, s) else fs0
    {
      OpenedAroundRoot(fs0, State(), s);
      DirCloseRoot();
      if f.fileOk { return Some(s); }
      OpenedKeepsInv(fs0, s);
      InodeClosedAgain(fs0, s);
      InodeClose(s);
      r := None;
    }

    /** `filesys_remove`: takes the name out of the directory and frees the file's sectors, at once or,
        if it is open, with its last close; or no change at all. */
    method Remove(name: string, f: Faults) returns (success: bool)
      requires Valid()
      modifies this, freeMap, root`slots
      ensures Valid()
      ensures !success ==> State() == old(State())
      ensures success ==> exists k :: IsRemoval(old(State()), State(), k, name)
      ensures NamesDistinct(old(root.slots)) ==>
                && NamesDistinct(root.slots)
                && Files(root.slots) == (if success then Files(old(root.slots)) - {name} else Files(old(root.slots)))
      ensures |root.slots| <= f.lookupLimit && NamesDistinct(old(root.slots)) ==>
                f.rootInodeOk && f.rootDirOk && f.inodeOk && f.entryWriteOk ==>
                  (success <==> name in Files(old(root.slots)))
    {
      ghost var fs0 := State();
      success := false;
      var rootOk := DirOpenRoot(f);
      if !rootOk { return; }
      var slot := root.Lookup(name, f.lookupLimit);
      if slot.Some? {
        success := RemoveSlot(slot.value, f, fs0);
        if success {
          assert IsRemoval(fs0, State(), slot.value, name);
          return;
        }
      }
      RootClosedAgain(fs0, State(), fs0.inodes[ROOT_DIR_SECTOR]);
      DirCloseRoot();
    }

    /** The rest of `filesys_remove` once the slot is found; on success the root directory is closed. */
    method RemoveSlot(k: nat, f: Faults, ghost fs0: FS) returns (success: bool)
      requires Valid() && Inv(fs0) && ROOT_DIR_SECTOR in fs0.inodes && State() == InodeOpened(fs0, ROOT_DIR_SECTOR)
      requires k < |root.slots| && root.slots[k].inUse
      modifies this, freeMap, root`slots
      ensures Valid()
      ensures !success ==> State() == old(State())
      ensures success ==> IsRemoval(fs0, State(), k, fs0.slots[k].name)
      ensures NamesDistinct(fs0.slots) && success ==>
                NamesDistinct(root.slots) && Files(root.slots) == Files(fs0.slots) - {fs0.slots[k].name}
      ensures f.inodeOk && f.entryWriteOk ==> success
    {
      ghost var fs1 := State();
      var v := root.slots[k].sector;
      assert InDirectory(fs0, v) && Reachable(fs0, v) && Sound(fs0, v) && Owns(fs0, v, v);
      assert InDirectory(fs1, v);
      var ok := InodeOpen(v, f.inodeOk);
      if !ok { return false; }
      root.Erase(k, f.entryWriteOk);
      if !f.entryWriteOk {
        InodeClosedAgain(fs1, v);
        InodeClose(v);
        return false;
      }
      ErasedKeepsInv(InodeOpened(fs1, v), k);
      RemoveVictim(k, v, fs0, fs1);
      success := true;
    }

    /** The end of `filesys_remove`, with the slot erased and the root directory and the file open. */
    method RemoveVictim(k: nat, v: nat, ghost fs0: FS, ghost fs1: FS)
      requires Inv(fs0) && ROOT_DIR_SECTOR in fs0.inodes && fs1 == InodeOpened(fs0, ROOT_DIR_SECTOR) && OpenInv(fs1)
      requires k < |fs0.slots| && fs0.slots[k].inUse && fs0.slots[k].sector == v && Sound(fs0, v) && v < |fs0.used|
      requires Valid() && State() == Erased(InodeOpened(fs1, v), k)
      requires IsOpen(State(), v) && !IsSystem(v) && !InDirectory(State(), v)
      modifies this, freeMap
      ensures Valid() && State() == FileRemoved(fs0, k)
    {
      InodeRemove(v);
      VictimClosed(fs1, State(), v, inodes[v]);
      InodeClose(v);
      RemovedRoot(fs0, State(), k);
      DirCloseRoot();
    }
  }
}
