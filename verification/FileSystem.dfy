/** Files, the free map and open inodes (pintos/src/filesys/filesys.c, free-map.c, inode.c): who owns
    which disk sector, over creating, opening, closing and removing files. Each whole call is one
    step; memory and disk-space failures can strike wherever the source tests for them. */
module FileSystem {
  import opened Options
  import opened Bitmap
  import opened Bytes
  import opened Directory
  import opened InodeIO

  const FREE_MAP_SECTOR: nat := 0
  const ROOT_DIR_SECTOR: nat := 1

  /** An in-memory inode: `struct inode` without its locks. */
  datatype Opened = Opened(sector: nat, openCnt: int, removed: bool, extent: Extent)

  /** The free map, the on-disk inodes, the root directory, the open inodes, and how many handles on
      each sector's inode have been given out and not closed. */
  datatype FS = FS(
    used: seq<bool>,
    inodes: map<nat, Extent>,
    slots: seq<Entry>,
    open: seq<Opened>,
    handles: multiset<nat>)

  // ---------- Ownership ----------

  ghost predicate InDirectory(fs: FS, s: nat) {
    exists i :: 0 <= i < |fs.slots| && fs.slots[i].inUse && fs.slots[i].sector == s
  }

  ghost predicate Listed(open: seq<Opened>, s: nat) {
    exists o :: o in open && o.sector == s
  }

  ghost predicate IsOpen(fs: FS, s: nat) { Listed(fs.open, s) }

  predicate IsSystem(s: nat) { s == FREE_MAP_SECTOR || s == ROOT_DIR_SECTOR }

  /** An inode sector that can still be reached. */
  ghost predicate Reachable(fs: FS, s: nat) {
    IsSystem(s) || InDirectory(fs, s) || IsOpen(fs, s)
  }

  predicate InExtent(e: Extent, x: nat) {
    e.start <= x < e.start + BytesToSectors(e.length)
  }

  /** The inode in sector s owns sector x: its own or one of its data. */
  predicate Owns(fs: FS, s: nat, x: nat) {
    x == s || (s in fs.inodes && InExtent(fs.inodes[s], x))
  }

  /** An inode with everything it owns marked used, and no data in its own sector. */
  ghost predicate Sound(fs: FS, s: nat) {
    && s in fs.inodes && !InExtent(fs.inodes[s], s)
    && fs.inodes[s].start + BytesToSectors(fs.inodes[s].length) <= |fs.used|
    && forall x: nat :: Owns(fs, s, x) ==> x < |fs.used| && fs.used[x]
  }

  ghost predicate OwnershipInv(fs: FS) {
    && (forall s: nat :: Reachable(fs, s) ==> Sound(fs, s))
    && (forall s: nat, t: nat, x: nat :: Reachable(fs, s) && Reachable(fs, t) && Owns(fs, s, x) && Owns(fs, t, x) ==>
         s == t)
  }

  ghost predicate OnePerSector(open: seq<Opened>) {
    forall i, j :: 0 <= i < j < |open| ==> open[i].sector != open[j].sector
  }

  /** One in-memory inode per sector, counting its handles; a removed one is in no directory. */
  ghost predicate OpenInv(fs: FS) {
    && OnePerSector(fs.open)
    && (forall o :: o in fs.open ==> OpenedInv(fs, o))
    && (forall s :: s in fs.handles ==> IsOpen(fs, s))
  }

  ghost predicate OpenedInv(fs: FS, o: Opened) {
    && o.openCnt == fs.handles[o.sector] > 0
    && o.sector in fs.inodes && o.extent == fs.inodes[o.sector]
    && (o.removed ==> !IsSystem(o.sector) && !InDirectory(fs, o.sector))
  }

  ghost predicate DirectoryInv(fs: FS) {
    && (forall i :: 0 <= i < |fs.slots| && fs.slots[i].inUse ==> !IsSystem(fs.slots[i].sector))
    && (forall i, j :: 0 <= i < j < |fs.slots| && fs.slots[i].inUse && fs.slots[j].inUse ==>
          fs.slots[i].sector != fs.slots[j].sector)
  }

  ghost predicate Inv(fs: FS) {
    OwnershipInv(fs) && OpenInv(fs) && DirectoryInv(fs)
  }

  // ---------- The steps a call is made of ----------

  function FindOpen(open: seq<Opened>, s: nat): (r: nat)
    ensures r <= |open|
    ensures r < |open| ==> open[r].sector == s
    ensures forall i :: 0 <= i < r ==> open[i].sector != s
  {
    if open == [] || open[0].sector == s then 0 else 1 + FindOpen(open[1..], s)
  }

  /** The open list after `inode_open`: one more handle on an inode, read in if it is not in memory
      yet. */
  function OpenList(open: seq<Opened>, s: nat, e: Extent): seq<Opened> {
    var i := FindOpen(open, s);
    if i < |open| then open[i := open[i].(openCnt := open[i].openCnt + 1)] else [Opened(s, 1, false, e)] + open
  }

  function InodeOpened(fs: FS, s: nat): FS
    requires s in fs.inodes
  {
    fs.(open := OpenList(fs.open, s, fs.inodes[s]), handles := fs.handles + multiset{s})
  }

  /** The open list after `inode_close`: one handle less, and off the list with the last one. */
  function CloseList(open: seq<Opened>, s: nat): seq<Opened>
    requires FindOpen(open, s) < |open|
  {
    var i := FindOpen(open, s);
    if open[i].openCnt > 1 then open[i := open[i].(openCnt := open[i].openCnt - 1)]
    else open[..i] + open[i + 1..]
  }

  function Released(fs: FS, start: nat, cnt: nat): FS
    requires start + cnt <= |fs.used|
  {
    fs.(used := SetRun(fs.used, start, cnt, false))
  }

  /** The sectors a removed inode gives back. */
  ghost predicate CanRelease(fs: FS, o: Opened) {
    && RunOf(fs.used, o.sector, 1, true)
    && RunOf(fs.used, o.extent.start, BytesToSectors(o.extent.length), true)
    && !InExtent(o.extent, o.sector)
  }

  /** The last close of a removed file gives its sectors back. */
  ghost function InodeClosed(fs: FS, s: nat): FS
    requires FindOpen(fs.open, s) < |fs.open| && CanRelease(fs, fs.open[FindOpen(fs.open, s)])
  {
    var o := fs.open[FindOpen(fs.open, s)];
    var fs1 := fs.(open := CloseList(fs.open, s), handles := fs.handles - multiset{s});
    if o.openCnt > 1 || !o.removed then fs1
    else Released(Released(fs1, o.sector, 1), o.extent.start, BytesToSectors(o.extent.length))
  }

  // ---------- Each step keeps the invariant ----------

  /** Fewer reachable inodes over the same or a fuller free map. */
  lemma OwnershipShrinks(fs: FS, fs': FS)
    requires OwnershipInv(fs) && fs'.inodes == fs.inodes && |fs'.used| == |fs.used|
    requires forall s: nat :: Reachable(fs', s) ==> Reachable(fs, s)
    requires forall s: nat, x: nat :: Reachable(fs', s) && Owns(fs, s, x) && x < |fs.used| && fs.used[x] ==> fs'.used[x]
    ensures OwnershipInv(fs')
  {
    forall s: nat | Reachable(fs', s) ensures Sound(fs', s) {
      assert Sound(fs, s);
      forall x: nat | Owns(fs', s, x) ensures x < |fs'.used| && fs'.used[x] { assert Owns(fs, s, x); }
    }
    forall s: nat, t: nat, x: nat | Reachable(fs', s) && Reachable(fs', t) && Owns(fs', s, x) && Owns(fs', t, x)
      ensures s == t
    {
      assert Owns(fs, s, x) && Owns(fs, t, x);
    }
  }

  lemma OpenListMembers(open: seq<Opened>, s: nat, e: Extent)
    requires OnePerSector(open)
    ensures OnePerSector(OpenList(open, s, e))
    ensures forall o: Opened :: o.sector != s ==> (o in OpenList(open, s, e) <==> o in open)
  {
    var i := FindOpen(open, s);
    var open' := OpenList(open, s, e);
    forall o: Opened | o.sector != s && o in open ensures o in open' {
      var j :| 0 <= j < |open| && open[j] == o;
      assert open'[if i < |open| then j else j + 1] == o;
    }
  }

  lemma OpenListEntry(open: seq<Opened>, s: nat, e: Extent)
    requires OnePerSector(open)
    ensures Listed(OpenList(open, s, e), s)
    ensures forall o :: o in OpenList(open, s, e) && o.sector == s ==>
              if Listed(open, s) then exists p :: p in open && p.sector == s && o == p.(openCnt := p.openCnt + 1)
              else o == Opened(s, 1, false, e)
  {
    var i := FindOpen(open, s);
    var open' := OpenList(open, s, e);
    var o := open'[if i < |open| then i else 0];
    assert o in open' && o.sector == s;
    assert i < |open| ==> open[i] in open;
  }

  lemma OpenedReach(fs: FS, s: nat)
    requires OpenInv(fs) && s in fs.inodes
    ensures forall t: nat :: IsOpen(InodeOpened(fs, s), t) <==> IsOpen(fs, t) || t == s
  {
    OpenListMembers(fs.open, s, fs.inodes[s]);
    OpenListEntry(fs.open, s, fs.inodes[s]);
  }

  lemma OpenedKeepsOpen(fs: FS, s: nat)
    requires OpenInv(fs) && s in fs.inodes
    ensures OpenInv(InodeOpened(fs, s))
  {
    var fs' := InodeOpened(fs, s);
    OpenListMembers(fs.open, s, fs.inodes[s]);
    forall o | o in fs'.open ensures OpenedInv(fs', o) {
      if o.sector == s { OpenedEntry(fs, s, o); } else { assert OpenedInv(fs, o); }
    }
    OpenedReach(fs, s);
  }

  lemma OpenedEntry(fs: FS, s: nat, o: Opened)
    requires OpenInv(fs) && s in fs.inodes && o in InodeOpened(fs, s).open && o.sector == s
    ensures OpenedInv(InodeOpened(fs, s), o)
  {
    OpenListEntry(fs.open, s, fs.inodes[s]);
    assert Listed(fs.open, s) ==> exists p :: p in fs.open && OpenedInv(fs, p) && o == p.(openCnt := p.openCnt + 1);
  }

  /** Opening an inode that can be reached is sound. */
  lemma OpenedKeepsInv(fs: FS, s: nat)
    requires Inv(fs) && Reachable(fs, s)
    ensures s in fs.inodes && Inv(InodeOpened(fs, s))
  {
    assert Sound(fs, s);
    var fs' := InodeOpened(fs, s);
    OpenedReach(fs, s);
    OpenedKeepsOpen(fs, s);
    OwnershipShrinks(fs, fs');
  }

  /** The assertion of `free_map_release` holds at the last close of a removed file. */
  lemma OpenCanRelease(fs: FS, s: nat)
    requires OwnershipInv(fs) && OpenInv(fs) && IsOpen(fs, s)
    ensures FindOpen(fs.open, s) < |fs.open|
    ensures CanRelease(fs, fs.open[FindOpen(fs.open, s)])
  {
    ListedFound(fs.open, s);
    var o := fs.open[FindOpen(fs.open, s)];
    assert OpenedInv(fs, o);
    assert Sound(fs, s);
    assert Owns(fs, s, s);
    forall x: nat | InExtent(o.extent, x) ensures x < |fs.used| && fs.used[x] { assert Owns(fs, s, x); }
  }

  lemma ListedFound(open: seq<Opened>, s: nat)
    ensures Listed(open, s) <==> FindOpen(open, s) < |open|
  {
    if FindOpen(open, s) < |open| { assert open[FindOpen(open, s)] in open; }
  }

  lemma DropMembers(open: seq<Opened>, i: nat)
    requires OnePerSector(open) && i < |open|
    ensures OnePerSector(open[..i] + open[i + 1..])
    ensures forall o: Opened :: o in open[..i] + open[i + 1..] <==> o in open && o.sector != open[i].sector
  {
    var open' := open[..i] + open[i + 1..];
    assert forall j :: 0 <= j < |open'| ==> open'[j] == open[if j < i then j else j + 1];
    forall o: Opened | o in open && o.sector != open[i].sector ensures o in open' {
      var j :| 0 <= j < |open| && open[j] == o;
      assert open'[if j < i then j else j - 1] == o;
    }
  }

  lemma UpdateMembers(open: seq<Opened>, i: nat, p: Opened)
    requires OnePerSector(open) && i < |open| && p.sector == open[i].sector
    ensures OnePerSector(open[i := p])
    ensures forall o: Opened :: o.sector != p.sector ==> (o in open[i := p] <==> o in open)
  {
    var open' := open[i := p];
    forall o: Opened | o in open && o.sector != p.sector ensures o in open' {
      var j :| 0 <= j < |open| && open[j] == o;
      assert open'[j] == o;
    }
  }

  lemma CloseListMembers(open: seq<Opened>, s: nat)
    requires OnePerSector(open) && FindOpen(open, s) < |open|
    ensures OnePerSector(CloseList(open, s))
    ensures forall o: Opened :: o.sector != s ==> (o in CloseList(open, s) <==> o in open)
  {
    var i := FindOpen(open, s);
    if open[i].openCnt > 1 { UpdateMembers(open, i, open[i].(openCnt := open[i].openCnt - 1)); }
    else { DropMembers(open, i); }
  }

  lemma CloseListEntry(open: seq<Opened>, s: nat)
    requires OnePerSector(open) && FindOpen(open, s) < |open|
    ensures var p := open[FindOpen(open, s)];
            && (Listed(CloseList(open, s), s) <==> p.openCnt > 1)
            && forall o :: o in CloseList(open, s) && o.sector == s ==> o == p.(openCnt := p.openCnt - 1)
  {
    var i := FindOpen(open, s);
    if open[i].openCnt > 1 { assert CloseList(open, s)[i].sector == s; }
  }

  /** Freeing the inode's sector leaves its data sectors marked, to be freed next. */
  lemma ReleaseInTurn(fs: FS, o: Opened)
    requires CanRelease(fs, o)
    ensures RunOf(SetRun(fs.used, o.sector, 1, false), o.extent.start, BytesToSectors(o.extent.length), true)
  {
  }

  lemma ClosedReach(fs: FS, s: nat)
    requires OpenInv(fs) && FindOpen(fs.open, s) < |fs.open| && CanRelease(fs, fs.open[FindOpen(fs.open, s)])
    ensures forall t: nat :: IsOpen(InodeClosed(fs, s), t) <==> IsOpen(fs, t) && (t == s ==> fs.handles[s] > 1)
  {
    CloseListMembers(fs.open, s);
    CloseListEntry(fs.open, s);
    ListedFound(fs.open, s);
    assert OpenedInv(fs, fs.open[FindOpen(fs.open, s)]);
  }

  lemma ClosedKeepsOpen(fs: FS, s: nat)
    requires OpenInv(fs) && FindOpen(fs.open, s) < |fs.open| && CanRelease(fs, fs.open[FindOpen(fs.open, s)])
    ensures OpenInv(InodeClosed(fs, s))
  {
    var fs' := InodeClosed(fs, s);
    var p := fs.open[FindOpen(fs.open, s)];
    assert OpenedInv(fs, p);
    CloseListMembers(fs.open, s);
    CloseListEntry(fs.open, s);
    ClosedReach(fs, s);
    forall o | o in fs'.open ensures OpenedInv(fs', o) {
      if o.sector != s { assert OpenedInv(fs, o); }
    }
  }

  /** Closing is sound; what the last close of a removed file gives back belongs to nobody else. */
  lemma ClosedKeepsInv(fs: FS, s: nat)
    requires Inv(fs) && IsOpen(fs, s)
    ensures FindOpen(fs.open, s) < |fs.open| && CanRelease(fs, fs.open[FindOpen(fs.open, s)])
    ensures Inv(InodeClosed(fs, s))
  {
    OpenCanRelease(fs, s);
    var o := fs.open[FindOpen(fs.open, s)];
    assert OpenedInv(fs, o);
    ClosedKeepsOpen(fs, s);
    ClosedReach(fs, s);
    var fs' := InodeClosed(fs, s);
    forall t: nat, x: nat | Reachable(fs', t) && Owns(fs, t, x) && x < |fs.used| && fs.used[x] ensures fs'.used[x] {
      if o.openCnt <= 1 && o.removed { assert t != s; assert !Owns(fs, s, x); }
    }
    OwnershipShrinks(fs, fs');
  }

  /** `free_map_allocate`, which finds a run of free sectors. */
  function Allocated(fs: FS, start: nat, cnt: nat): FS
    requires start + cnt <= |fs.used|
  {
    fs.(used := SetRun(fs.used, start, cnt, true))
  }

  lemma AllocatedKeepsInv(fs: FS, start: nat, cnt: nat)
    requires Inv(fs) && RunOf(fs.used, start, cnt, false)
    ensures Inv(Allocated(fs, start, cnt))
  {
    OwnershipShrinks(fs, Allocated(fs, start, cnt));
    forall o | o in fs.open ensures OpenedInv(Allocated(fs, start, cnt), o) { assert OpenedInv(fs, o); }
  }

  /** Nobody reachable owns a free sector. */
  lemma FreeIsUnowned(fs: FS, x: nat, s: nat)
    requires OwnershipInv(fs) && x < |fs.used| && !fs.used[x] && Reachable(fs, s)
    ensures !Owns(fs, s, x)
  {
    assert Sound(fs, s);
  }

  /** So `filesys_create` can take sector 0 to mean that it has none yet. */
  lemma FreeIsNotZero(fs: FS, a: nat)
    requires OwnershipInv(fs) && a < |fs.used| && !fs.used[a]
    ensures a != FREE_MAP_SECTOR
  {
    assert Reachable(fs, FREE_MAP_SECTOR);
    FreeIsUnowned(fs, a, FREE_MAP_SECTOR);
  }

  /** `inode_create` writes an inode to a sector that nobody owns. */
  function InodeWritten(fs: FS, s: nat, e: Extent): FS {
    fs.(inodes := fs.inodes[s := e])
  }

  lemma InodeWrittenKeepsInv(fs: FS, s: nat, e: Extent)
    requires Inv(fs) && !Reachable(fs, s)
    ensures Inv(InodeWritten(fs, s, e))
  {
    var fs' := InodeWritten(fs, s, e);
    forall t: nat | Reachable(fs', t) ensures Sound(fs', t) {
      assert Reachable(fs, t) && Sound(fs, t);
      forall x: nat | Owns(fs', t, x) ensures x < |fs'.used| && fs'.used[x] { assert Owns(fs, t, x); }
    }
    forall t: nat, u: nat, x: nat | Reachable(fs', t) && Reachable(fs', u) && Owns(fs', t, x) && Owns(fs', u, x)
      ensures t == u
    {
      assert Reachable(fs, t) && Reachable(fs, u) && Owns(fs, t, x) && Owns(fs, u, x);
    }
    forall o | o in fs.open ensures OpenedInv(fs', o) { assert OpenedInv(fs, o) && IsOpen(fs, o.sector); }
  }

  /** An inode that is complete but not reachable yet: its sectors are marked and its own. */
  ghost predicate Pending(fs: FS, a: nat) {
    && !Reachable(fs, a) && Sound(fs, a)
    && forall s: nat, x: nat :: Reachable(fs, s) && Owns(fs, s, x) ==> !Owns(fs, a, x)
  }

  function Entered(fs: FS, k: nat, name: string, a: nat): FS
    requires k < |fs.slots|
  {
    fs.(slots := fs.slots[k := Entry(a, name, true)])
  }

  lemma EnteredReach(fs: FS, k: nat, name: string, a: nat)
    requires k < |fs.slots|
    ensures forall s: nat :: Reachable(Entered(fs, k, name, a), s) ==> Reachable(fs, s) || s == a
  {
    var fs' := Entered(fs, k, name, a);
    forall s: nat | InDirectory(fs', s) && s != a ensures InDirectory(fs, s) {
      var i :| 0 <= i < |fs'.slots| && fs'.slots[i].inUse && fs'.slots[i].sector == s;
      assert fs.slots[i].sector == s;
    }
  }

  /** Entering a pending inode in the directory is sound, even in a slot that was in use. */
  lemma EnteredKeepsInv(fs: FS, k: nat, name: string, a: nat)
    requires Inv(fs) && Pending(fs, a) && k < |fs.slots|
    ensures Inv(Entered(fs, k, name, a))
  {
    var fs' := Entered(fs, k, name, a);
    EnteredReach(fs, k, name, a);
    EnteredKeepsOwnership(fs, fs', a);
    forall o | o in fs.open ensures OpenedInv(fs', o) {
      assert OpenedInv(fs, o) && IsOpen(fs, o.sector);
      if o.removed { EnteredElsewhere(fs, k, name, a, o.sector); }
    }
    forall i | 0 <= i < |fs.slots| && fs.slots[i].inUse ensures fs.slots[i].sector != a {
      assert InDirectory(fs, fs.slots[i].sector);
    }
  }

  lemma EnteredElsewhere(fs: FS, k: nat, name: string, a: nat, s: nat)
    requires k < |fs.slots| && s != a && !InDirectory(fs, s)
    ensures !InDirectory(Entered(fs, k, name, a), s)
  {
    var fs' := Entered(fs, k, name, a);
    forall i | 0 <= i < |fs'.slots| && fs'.slots[i].inUse ensures fs'.slots[i].sector != s {
      if i != k { assert fs'.slots[i] == fs.slots[i]; }
    }
  }

  lemma EnteredKeepsOwnership(fs: FS, fs': FS, a: nat)
    requires OwnershipInv(fs) && Pending(fs, a) && fs'.inodes == fs.inodes && fs'.used == fs.used
    requires forall s: nat :: Reachable(fs', s) ==> Reachable(fs, s) || s == a
    ensures OwnershipInv(fs')
  {
    forall s: nat | Reachable(fs', s) ensures Sound(fs', s) {
      assert Sound(fs, s);
      forall x: nat | Owns(fs', s, x) ensures x < |fs'.used| && fs'.used[x] { assert Owns(fs, s, x); }
    }
    forall s: nat, t: nat, x: nat | Reachable(fs', s) && Reachable(fs', t) && Owns(fs', s, x) && Owns(fs', t, x)
      ensures s == t
    {
      assert Owns(fs, s, x) && Owns(fs, t, x);
    }
  }

  /** A sector marked and an extent found for it make a pending inode. */
  lemma CreatedIsPending(fs: FS, a: nat, e: Extent)
    requires Inv(fs) && RunOf(fs.used, a, 1, false)
    requires var fs1 := Allocated(fs, a, 1); RunOf(fs1.used, e.start, BytesToSectors(e.length), false)
    ensures var fs2 := Allocated(Allocated(fs, a, 1), e.start, BytesToSectors(e.length));
            Inv(fs2) && !Reachable(fs2, a) && Inv(InodeWritten(fs2, a, e)) && Pending(InodeWritten(fs2, a, e), a)
  {
    var fs1 := Allocated(fs, a, 1);
    var fs2 := Allocated(fs1, e.start, BytesToSectors(e.length));
    AllocatedKeepsInv(fs, a, 1);
    AllocatedKeepsInv(fs1, e.start, BytesToSectors(e.length));
    if Reachable(fs, a) { FreeIsUnowned(fs, a, a); }
    assert !Reachable(fs2, a);
    InodeWrittenKeepsInv(fs2, a, e);
    var fs3 := InodeWritten(fs2, a, e);
    assert fs1.used[a] && fs2.used[a];
    forall s: nat, x: nat | Reachable(fs3, s) && Owns(fs3, s, x) ensures !Owns(fs3, a, x) {
      assert Reachable(fs, s) && Owns(fs, s, x);
      if Owns(fs3, a, x) { FreeIsUnowned(fs, x, s); }
    }
  }

  function Erased(fs: FS, k: nat): FS
    requires k < |fs.slots|
  {
    fs.(slots := fs.slots[k := fs.slots[k].(inUse := false)])
  }

  lemma ErasedDirectory(fs: FS, k: nat)
    requires DirectoryInv(fs) && k < |fs.slots| && fs.slots[k].inUse
    ensures forall s: nat :: InDirectory(Erased(fs, k), s) <==> InDirectory(fs, s) && s != fs.slots[k].sector
  {
    var fs' := Erased(fs, k);
    forall s: nat | InDirectory(fs, s) && s != fs.slots[k].sector ensures InDirectory(fs', s) {
      var i :| 0 <= i < |fs.slots| && fs.slots[i].inUse && fs.slots[i].sector == s;
      assert fs'.slots[i] == fs.slots[i];
    }
    forall s: nat | InDirectory(fs', s) ensures InDirectory(fs, s) {
      var i :| 0 <= i < |fs'.slots| && fs'.slots[i].inUse && fs'.slots[i].sector == s;
      assert fs'.slots[i] == fs.slots[i];
    }
  }

  lemma ErasedKeepsInv(fs: FS, k: nat)
    requires Inv(fs) && k < |fs.slots| && fs.slots[k].inUse
    ensures Inv(Erased(fs, k))
    ensures !IsSystem(fs.slots[k].sector) && !InDirectory(Erased(fs, k), fs.slots[k].sector)
  {
    var fs' := Erased(fs, k);
    ErasedDirectory(fs, k);
    OwnershipShrinks(fs, fs');
    forall o | o in fs.open ensures OpenedInv(fs', o) { assert OpenedInv(fs, o); }
  }

  /** `inode_remove`. */
  function MarkList(open: seq<Opened>, s: nat): seq<Opened> {
    var i := FindOpen(open, s);
    if i < |open| then open[i := open[i].(removed := true)] else open
  }

  function Marked(fs: FS, s: nat): FS {
    fs.(open := MarkList(fs.open, s))
  }

  lemma MarkListMembers(open: seq<Opened>, s: nat)
    requires OnePerSector(open)
    ensures OnePerSector(MarkList(open, s))
    ensures forall o: Opened :: o.sector != s ==> (o in MarkList(open, s) <==> o in open)
    ensures forall o :: o in MarkList(open, s) && o.sector == s ==>
              exists p :: p in open && p.sector == s && o == p.(removed := true)
    ensures Listed(MarkList(open, s), s) <==> Listed(open, s)
  {
    var i := FindOpen(open, s);
    var open' := MarkList(open, s);
    ListedFound(open, s);
    forall o: Opened | o.sector != s && o in open ensures o in open' {
      var j :| 0 <= j < |open| && open[j] == o;
      assert open'[j] == o;
    }
    if i < |open| { assert open'[i] in open' && open[i] in open; }
  }

  lemma MarkedKeepsInv(fs: FS, s: nat)
    requires Inv(fs) && !IsSystem(s) && !InDirectory(fs, s)
    ensures Inv(Marked(fs, s))
  {
    var fs' := Marked(fs, s);
    MarkListMembers(fs.open, s);
    forall t: nat ensures IsOpen(fs', t) <==> IsOpen(fs, t) { }
    OwnershipShrinks(fs, fs');
    forall o | o in fs'.open ensures OpenedInv(fs', o) {
      if o.sector != s { assert OpenedInv(fs, o); }
      else { assert exists p :: p in fs.open && OpenedInv(fs, p) && o == p.(removed := true); }
    }
  }

  // ---------- What a call undoes ----------

  lemma FindOpenIs(open: seq<Opened>, s: nat, i: nat)
    requires i <= |open| && (i < |open| ==> open[i].sector == s) && forall j :: 0 <= j < i ==> open[j].sector != s
    ensures FindOpen(open, s) == i
  {
  }

  ghost predicate Counted(open: seq<Opened>) {
    OnePerSector(open) && forall o :: o in open ==> o.openCnt > 0
  }

  /** Closing undoes opening. */
  lemma CloseAfterOpen(open: seq<Opened>, s: nat, e: Extent)
    requires Counted(open)
    ensures var open1 := OpenList(open, s, e);
            FindOpen(open1, s) < |open1| && CloseList(open1, s) == open
  {
    var i := FindOpen(open, s);
    var open1 := OpenList(open, s, e);
    FindOpenIs(open1, s, if i < |open| then i else 0);
    if i < |open| { assert open[i] in open; }
    assert CloseList(open1, s) == open;
  }

  lemma FindAfterOpen(open: seq<Opened>, r: nat, s: nat, e: Extent)
    requires r != s
    ensures FindOpen(OpenList(open, s, e), r) == FindOpen(open, r) + |OpenList(open, s, e)| - |open|
  {
    FindOpenIs(OpenList(open, s, e), r, FindOpen(open, r) + |OpenList(open, s, e)| - |open|);
  }

  lemma CloseListAt(open: seq<Opened>, r: nat, i: nat)
    requires i < |open| && FindOpen(open, r) == i && open[i].openCnt > 1
    ensures CloseList(open, r) == open[i := open[i].(openCnt := open[i].openCnt - 1)]
  {
  }

  /** Two handles on the one in place i, and a change at place j or a new one in front, undone at i. */
  lemma UndoneAt(open: seq<Opened>, i: nat, o: Opened, p: Opened, j: nat)
    requires i < |open| && o == open[i].(openCnt := open[i].openCnt + 1)
    ensures o.(openCnt := o.openCnt - 1) == open[i]
    ensures j < |open| && i != j ==> open[i := o][j := p][i := open[i]] == open[j := p]
    ensures ([p] + open[i := o])[i + 1 := open[i]] == [p] + open
  {
  }

  lemma CloseAroundListed(open: seq<Opened>, r: nat, d: Extent, s: nat, e: Extent)
    requires Counted(open) && r != s && FindOpen(open, r) < |open|
    ensures var open2 := OpenList(OpenList(open, r, d), s, e);
            FindOpen(open2, r) < |open2| && CloseList(open2, r) == OpenList(open, s, e)
  {
    var i, j := FindOpen(open, r), FindOpen(open, s);
    var o := open[i].(openCnt := open[i].openCnt + 1);
    assert open[i] in open;
    FindOpenIs(OpenList(open, r, d), r, i);
    FindAfterOpen(open, s, r, d);
    FindAfterOpen(OpenList(open, r, d), r, s, e);
    if j < |open| {
      UndoneAt(open, i, o, open[j].(openCnt := open[j].openCnt + 1), j);
      CloseListAt(OpenList(OpenList(open, r, d), s, e), r, i);
    } else {
      UndoneAt(open, i, o, Opened(s, 1, false, e), j);
      CloseListAt(OpenList(OpenList(open, r, d), s, e), r, i + 1);
    }
  }

  lemma CloseAroundNew(open: seq<Opened>, r: nat, d: Extent, s: nat, e: Extent)
    requires r != s && FindOpen(open, r) == |open|
    ensures var open2 := OpenList(OpenList(open, r, d), s, e);
            FindOpen(open2, r) < |open2| && CloseList(open2, r) == OpenList(open, s, e)
  {
    var open1 := OpenList(open, r, d);
    FindOpenIs(open1, r, 0);
    FindAfterOpen(open, s, r, d);
    FindAfterOpen(open1, r, s, e);
    assert CloseList(OpenList(open1, s, e), r) == OpenList(open, s, e);
  }

  /** Also around the opening of another inode. */
  lemma CloseAroundOpen(open: seq<Opened>, r: nat, d: Extent, s: nat, e: Extent)
    requires Counted(open) && r != s
    ensures var open2 := OpenList(OpenList(open, r, d), s, e);
            FindOpen(open2, r) < |open2| && CloseList(open2, r) == OpenList(open, s, e)
  {
    if FindOpen(open, r) < |open| { CloseAroundListed(open, r, d, s, e); } else { CloseAroundNew(open, r, d, s, e); }
  }

  lemma CloseAfterMark(open: seq<Opened>, s: nat, e: Extent)
    requires Counted(open)
    ensures var open2 := MarkList(OpenList(open, s, e), s);
            FindOpen(open2, s) < |open2| && CloseList(open2, s) == MarkList(open, s)
  {
    var i := FindOpen(open, s);
    var open1 := OpenList(open, s, e);
    FindOpenIs(open1, s, if i < |open| then i else 0);
    var open2 := MarkList(open1, s);
    FindOpenIs(open2, s, if i < |open| then i else 0);
    if i < |open| { assert open[i] in open; }
    assert CloseList(open2, s) == MarkList(open, s);
  }

  lemma FindAfterMark(open: seq<Opened>, r: nat, s: nat)
    ensures FindOpen(MarkList(open, s), r) == FindOpen(open, r)
  {
    FindOpenIs(MarkList(open, s), r, FindOpen(open, r));
  }

  lemma MarkUnderOpen(open: seq<Opened>, r: nat, d: Extent, s: nat)
    requires r != s
    ensures MarkList(OpenList(open, r, d), s) == OpenList(MarkList(open, s), r, d)
  {
    FindAfterOpen(open, s, r, d);
    FindAfterMark(open, r, s);
    if FindOpen(open, r) < |open| {
      assert MarkList(OpenList(open, r, d), s) == OpenList(MarkList(open, s), r, d);
    } else {
      assert MarkList(OpenList(open, r, d), s) == [Opened(r, 1, false, d)] + MarkList(open, s);
    }
  }

  lemma OpenIsCounted(fs: FS)
    requires OpenInv(fs)
    ensures Counted(fs.open)
  {
    forall o | o in fs.open ensures o.openCnt > 0 { assert OpenedInv(fs, o); }
  }

  /** A close that gives no sectors back. */
  lemma PlainClosed(fs: FS, s: nat, open: seq<Opened>, handles: multiset<nat>)
    requires FindOpen(fs.open, s) < |fs.open| && CanRelease(fs, fs.open[FindOpen(fs.open, s)])
    requires CloseList(fs.open, s) == open && fs.handles == handles + multiset{s}
    requires var o := fs.open[FindOpen(fs.open, s)]; o.openCnt > 1 || !o.removed
    ensures InodeClosed(fs, s) == fs.(open := open, handles := handles)
  {
    assert fs.handles - multiset{s} == handles;
  }

  /** The root directory, when open, is not marked removed and can be closed. */
  lemma RootIsOpen(fs: FS)
    requires Inv(fs) && FindOpen(fs.open, ROOT_DIR_SECTOR) < |fs.open|
    ensures var o := fs.open[FindOpen(fs.open, ROOT_DIR_SECTOR)]; CanRelease(fs, o) && !o.removed
  {
    ListedFound(fs.open, ROOT_DIR_SECTOR);
    OpenCanRelease(fs, ROOT_DIR_SECTOR);
    assert OpenedInv(fs, fs.open[FindOpen(fs.open, ROOT_DIR_SECTOR)]);
  }

  /** Whatever else happened while the root directory was open, closing it undoes just its opening. */
  lemma RootClosedAgain(fs0: FS, fs: FS, e: Extent)
    requires OpenInv(fs0) && Inv(fs) && fs.open == OpenList(fs0.open, ROOT_DIR_SECTOR, e)
    requires fs.handles == fs0.handles + multiset{ROOT_DIR_SECTOR}
    ensures FindOpen(fs.open, ROOT_DIR_SECTOR) < |fs.open|
    ensures CanRelease(fs, fs.open[FindOpen(fs.open, ROOT_DIR_SECTOR)])
    ensures InodeClosed(fs, ROOT_DIR_SECTOR) == fs.(open := fs0.open, handles := fs0.handles)
  {
    OpenIsCounted(fs0);
    CloseAfterOpen(fs0.open, ROOT_DIR_SECTOR, e);
    RootIsOpen(fs);
    PlainClosed(fs, ROOT_DIR_SECTOR, fs0.open, fs0.handles);
  }

  /** Closing a handle just opened changes nothing else. */
  lemma InodeClosedAgain(fs: FS, s: nat)
    requires Inv(fs) && s in fs.inodes && Inv(InodeOpened(fs, s))
    ensures var fs1 := InodeOpened(fs, s);
            IsOpen(fs1, s) && FindOpen(fs1.open, s) < |fs1.open| && CanRelease(fs1, fs1.open[FindOpen(fs1.open, s)])
            && (!WasRemoved(fs, s) ==> InodeClosed(fs1, s) == fs)
  {
    var fs1 := InodeOpened(fs, s);
    OpenIsCounted(fs);
    CloseAfterOpen(fs.open, s, fs.inodes[s]);
    ListedFound(fs1.open, s);
    OpenCanRelease(fs1, s);
    if !WasRemoved(fs, s) {
      OpenedNotRemoved(fs, s);
      PlainClosed(fs1, s, fs.open, fs.handles);
    }
  }

  lemma OpenedNotRemoved(fs: FS, s: nat)
    requires OpenInv(fs) && s in fs.inodes && !WasRemoved(fs, s)
    ensures var open1 := OpenList(fs.open, s, fs.inodes[s]);
            FindOpen(open1, s) < |open1| ==> !open1[FindOpen(open1, s)].removed
  {
    OpenListEntry(fs.open, s, fs.inodes[s]);
  }

  ghost predicate WasRemoved(fs: FS, s: nat) {
    exists o :: o in fs.open && o.sector == s && o.removed
  }

  /** Closing the root directory leaves another inode opened meanwhile open. */
  lemma OpenedAroundRoot(fs0: FS, fs: FS, s: nat)
    requires Inv(fs0) && ROOT_DIR_SECTOR in fs0.inodes && s in fs0.inodes && !IsSystem(s) && Inv(fs)
    requires fs == InodeOpened(InodeOpened(fs0, ROOT_DIR_SECTOR), s)
    ensures FindOpen(fs.open, ROOT_DIR_SECTOR) < |fs.open|
    ensures CanRelease(fs, fs.open[FindOpen(fs.open, ROOT_DIR_SECTOR)])
    ensures InodeClosed(fs, ROOT_DIR_SECTOR) == InodeOpened(fs0, s)
  {
    OpenIsCounted(fs0);
    CloseAroundOpen(fs0.open, ROOT_DIR_SECTOR, fs0.inodes[ROOT_DIR_SECTOR], s, fs0.inodes[s]);
    RootIsOpen(fs);
    PlainClosed(fs, ROOT_DIR_SECTOR, OpenList(fs0.open, s, fs0.inodes[s]), fs0.handles + multiset{s});
  }

  lemma VictimFound(fs1: FS, fs4: FS, v: nat, e: Extent)
    requires OpenInv(fs1) && Inv(fs4) && fs4.open == MarkList(OpenList(fs1.open, v, e), v)
    requires v in fs4.inodes && e == fs4.inodes[v]
    ensures IsOpen(fs4, v) && FindOpen(fs4.open, v) < |fs4.open| && CanRelease(fs4, fs4.open[FindOpen(fs4.open, v)])
    ensures v < |fs4.used| && e.start + BytesToSectors(e.length) <= |fs4.used|
    ensures fs4.open[FindOpen(fs4.open, v)].extent == e
    ensures CloseList(fs4.open, v) == MarkList(fs1.open, v)
  {
    OpenIsCounted(fs1);
    CloseAfterMark(fs1.open, v, e);
    ListedFound(fs4.open, v);
    OpenCanRelease(fs4, v);
    assert OpenedInv(fs4, fs4.open[FindOpen(fs4.open, v)]);
  }

  /** Closing a removed inode that was opened only to be removed: it stays marked if others have it
      open, and else its sectors are free. */
  lemma VictimClosed(fs1: FS, fs4: FS, v: nat, e: Extent)
    requires OpenInv(fs1) && Inv(fs4) && fs4.open == MarkList(OpenList(fs1.open, v, e), v)
    requires fs4.handles == fs1.handles + multiset{v} && v in fs4.inodes && e == fs4.inodes[v]
    ensures IsOpen(fs4, v) && FindOpen(fs4.open, v) < |fs4.open| && CanRelease(fs4, fs4.open[FindOpen(fs4.open, v)])
    ensures v < |fs4.used| && e.start + BytesToSectors(e.length) <= |fs4.used|
    ensures var fs5 := fs4.(open := MarkList(fs1.open, v), handles := fs1.handles);
            InodeClosed(fs4, v) == if IsOpen(fs1, v) then fs5
                                   else Released(Released(fs5, v, 1), e.start, BytesToSectors(e.length))
  {
    VictimFound(fs1, fs4, v, e);
    OpenIsCounted(fs1);
    VictimEntry(fs1.open, v, e);
    RemovedClosed(fs4, v, MarkList(fs1.open, v), fs1.handles);
  }

  lemma RemovedClosed(fs: FS, v: nat, open: seq<Opened>, handles: multiset<nat>)
    requires FindOpen(fs.open, v) < |fs.open| && CanRelease(fs, fs.open[FindOpen(fs.open, v)])
    requires CloseList(fs.open, v) == open && fs.handles == handles + multiset{v}
    requires fs.open[FindOpen(fs.open, v)].removed
    ensures var o := fs.open[FindOpen(fs.open, v)];
            var fs' := fs.(open := open, handles := handles);
            && v < |fs.used| && o.extent.start + BytesToSectors(o.extent.length) <= |fs.used|
            && InodeClosed(fs, v) == if o.openCnt > 1 then fs'
                                     else Released(Released(fs', v, 1), o.extent.start, BytesToSectors(o.extent.length))
  {
    assert fs.handles - multiset{v} == handles;
  }

  lemma VictimEntry(open: seq<Opened>, v: nat, e: Extent)
    requires Counted(open)
    ensures var open2 := MarkList(OpenList(open, v, e), v);
            && FindOpen(open2, v) < |open2| && open2[FindOpen(open2, v)].removed
            && (open2[FindOpen(open2, v)].openCnt > 1 <==> Listed(open, v))
  {
    ListedFound(open, v);
    var i := FindOpen(open, v);
    var open1 := OpenList(open, v, e);
    FindOpenIs(open1, v, if i < |open| then i else 0);
    FindOpenIs(MarkList(open1, v), v, if i < |open| then i else 0);
    if i < |open| { assert open[i] in open; }
  }

  /** The state after the file in slot k is removed. */
  ghost function FileRemoved(fs: FS, k: nat): FS
    requires k < |fs.slots| && Sound(fs, fs.slots[k].sector) && fs.slots[k].sector < |fs.used|
  {
    var v := fs.slots[k].sector;
    var fs1 := Erased(fs, k);
    if IsOpen(fs, v) then Marked(fs1, v)
    else Released(Released(fs1, v, 1), fs.inodes[v].start, BytesToSectors(fs.inodes[v].length))
  }

  lemma RootListed(open: seq<Opened>, r: nat, d: Extent, v: nat)
    requires Counted(open) && r != v
    ensures Listed(OpenList(open, r, d), v) <==> Listed(open, v)
    ensures !Listed(open, v) ==> MarkList(open, v) == open
    ensures Counted(MarkList(open, v))
  {
    FindAfterOpen(open, v, r, d);
    ListedFound(open, v);
    ListedFound(OpenList(open, r, d), v);
    MarkListMembers(open, v);
  }

  /** Closing the root directory after the victim's close completes the removal. */
  lemma RemovedRoot(fs0: FS, fs: FS, k: nat)
    requires Inv(fs0) && Inv(fs) && ROOT_DIR_SECTOR in fs0.inodes && k < |fs0.slots| && fs0.slots[k].inUse
    requires Sound(fs0, fs0.slots[k].sector) && fs0.slots[k].sector < |fs0.used|
    requires var v := fs0.slots[k].sector;
             var fs1 := InodeOpened(fs0, ROOT_DIR_SECTOR);
             var fs5 := Erased(fs1, k).(open := MarkList(fs1.open, v));
             fs == if IsOpen(fs1, v) then fs5
                   else Released(Released(fs5, v, 1), fs0.inodes[v].start, BytesToSectors(fs0.inodes[v].length))
    ensures FindOpen(fs.open, ROOT_DIR_SECTOR) < |fs.open|
    ensures CanRelease(fs, fs.open[FindOpen(fs.open, ROOT_DIR_SECTOR)])
    ensures InodeClosed(fs, ROOT_DIR_SECTOR) == FileRemoved(fs0, k)
  {
    var v, e := fs0.slots[k].sector, fs0.inodes[ROOT_DIR_SECTOR];
    OpenIsCounted(fs0);
    RootListed(fs0.open, ROOT_DIR_SECTOR, e, v);
    MarkUnderOpen(fs0.open, ROOT_DIR_SECTOR, e, v);
    CloseAfterOpen(MarkList(fs0.open, v), ROOT_DIR_SECTOR, e);
    RootIsOpen(fs);
    PlainClosed(fs, ROOT_DIR_SECTOR, MarkList(fs0.open, v), fs0.handles);
  }

  /** The state after a file is created in slot k with its inode in sector a. */
  function Created(fs: FS, a: nat, e: Extent, k: nat, name: string): FS
    requires k < |fs.slots| && a < |fs.used| && e.start + BytesToSectors(e.length) <= |fs.used|
  {
    Entered(InodeWritten(Allocated(Allocated(fs, a, 1), e.start, BytesToSectors(e.length)), a, e), k, name, a)
  }

  /** The sectors `filesys_create` takes: the first free one, then the first run of cnt that is left. */
  ghost predicate Placed(used: seq<bool>, cnt: nat, a: nat, start: nat) {
    FirstFit(used, 1, Some(a)) && FirstFit(SetRun(used, a, 1, true), cnt, Some(start))
  }

  /** The state after `dir_add` fails: the inode's sector is given back and the data sectors are not. */
  function Leaked(fs: FS, a: nat, e: Extent): FS
    requires e.start + BytesToSectors(e.length) <= |fs.used|
  {
    InodeWritten(Allocated(fs, e.start, BytesToSectors(e.length)), a, e)
  }

  /** Giving back the inode's sector after `dir_add` has failed. */
  lemma DroppedIsLeak(fs: FS, a: nat, e: Extent)
    requires Inv(fs) && Placed(fs.used, BytesToSectors(e.length), a, e.start)
    ensures var fs3 := InodeWritten(Allocated(Allocated(fs, a, 1), e.start, BytesToSectors(e.length)), a, e);
            a != 0 && RunOf(fs3.used, a, 1, true) && Released(fs3, a, 1) == Leaked(fs, a, e)
    ensures Inv(Leaked(fs, a, e))
  {
    MarkedTwiceFreedOnce(fs.used, a, e.start, BytesToSectors(e.length));
    FreeIsNotZero(fs, a);
    var fs1 := Allocated(fs, e.start, BytesToSectors(e.length));
    assert RunOf(fs.used, e.start, BytesToSectors(e.length), false);
    AllocatedKeepsInv(fs, e.start, BytesToSectors(e.length));
    if Reachable(fs, a) { FreeIsUnowned(fs, a, a); }
    assert !Reachable(fs1, a);
    InodeWrittenKeepsInv(fs1, a, e);
  }

  /** Giving it back after `inode_create` has failed. */
  lemma DroppedIsNothing(fs: FS, a: nat)
    requires Inv(fs) && RunOf(fs.used, a, 1, false)
    ensures var fs1 := Allocated(fs, a, 1); a != 0 && RunOf(fs1.used, a, 1, true) && Released(fs1, a, 1) == fs
  {
    MarkedTwiceFreedOnce(fs.used, a, 0, 0);
    FreeIsNotZero(fs, a);
  }

  lemma NoRoomAt(used: seq<bool>, cnt: nat, a: nat)
    requires FirstFit(used, 1, Some(a))
    ensures (exists b: nat, start: nat :: Placed(used, cnt, b, start)) <==>
            exists start: nat :: FirstFit(SetRun(used, a, 1, true), cnt, Some(start))
  {
    forall b: nat | FirstFit(used, 1, Some(b)) ensures b == a {}
    if start: nat :| FirstFit(SetRun(used, a, 1, true), cnt, Some(start)) { assert Placed(used, cnt, a, start); }
  }

  /** What is created while the root directory is open is the same after it is closed. */
  lemma CreatedRoot(fs0: FS, fs1: FS, a: nat, e: Extent, k: nat, name: string)
    requires fs1.used == fs0.used && fs1.inodes == fs0.inodes && fs1.slots == fs0.slots
    requires a < |fs0.used| && e.start + BytesToSectors(e.length) <= |fs0.used|
    ensures Leaked(fs1, a, e).(open := fs0.open, handles := fs0.handles) == Leaked(fs0, a, e)
    ensures k < |fs0.slots| ==>
              var open, handles := fs0.open, fs0.handles;
              Created(fs1, a, e, k, name).(open := open, handles := handles) == Created(fs0, a, e, k, name)
  {
  }

  /** The data sectors then marked belong to no file. */
  lemma LeakedUnowned(fs: FS, a: nat, e: Extent, s: nat, x: nat)
    requires Inv(fs) && Placed(fs.used, BytesToSectors(e.length), a, e.start) && InExtent(e, x)
    requires Reachable(Leaked(fs, a, e), s)
    ensures !fs.used[x] && Leaked(fs, a, e).used[x] && !Owns(Leaked(fs, a, e), s, x)
  {
    assert Reachable(fs, s);
    FreeIsUnowned(fs, a, s);
    FreeIsUnowned(fs, x, s);
  }

  lemma LeakChangesMap(fs: FS, a: nat, e: Extent)
    requires Placed(fs.used, BytesToSectors(e.length), a, e.start)
    ensures Leaked(fs, a, e).used != fs.used <==> BytesToSectors(e.length) > 0
  {
    if BytesToSectors(e.length) > 0 {
      assert !fs.used[e.start] && Leaked(fs, a, e).used[e.start];
    } else {
      assert Leaked(fs, a, e).used == fs.used;
    }
  }

  /** Marking a sector and an extent and then freeing the sector leaves the extent marked. */
  lemma MarkedTwiceFreedOnce(used: seq<bool>, a: nat, start: nat, cnt: nat)
    requires RunOf(used, a, 1, false) && RunOf(SetRun(used, a, 1, true), start, cnt, false)
    ensures SetRun(SetRun(SetRun(used, a, 1, true), start, cnt, true), a, 1, false) == SetRun(used, start, cnt, true)
    ensures SetRun(SetRun(used, a, 1, true), a, 1, false) == used
  {
    assert !used[a] && SetRun(used, a, 1, true)[a];
  }

  // ---------- Consequences ----------

  lemma ExtentsApart(fs: FS, s: nat, t: nat)
    requires Inv(fs) && Reachable(fs, s) && Reachable(fs, t) && s != t
    ensures s in fs.inodes && t in fs.inodes
    ensures var e, f := fs.inodes[s], fs.inodes[t];
            BytesToSectors(e.length) == 0 || BytesToSectors(f.length) == 0
            || e.start + BytesToSectors(e.length) <= f.start || f.start + BytesToSectors(f.length) <= e.start
  {
    assert Sound(fs, s) && Sound(fs, t);
    var e, f := fs.inodes[s], fs.inodes[t];
    if e.start <= f.start { assert Owns(fs, t, f.start) || BytesToSectors(f.length) == 0; }
    else { assert Owns(fs, s, e.start) || BytesToSectors(e.length) == 0; }
  }

  /** Writing one file changes the content of no other, and no inode. */
  lemma WriteKeepsOtherFiles(fs: FS, s: nat, t: nat, sectors: seq<Sector>, sectors': seq<Sector>, offset: nat,
                             bytes: seq<byte>)
    requires Inv(fs) && Reachable(fs, s) && Reachable(fs, t) && |sectors| == |fs.used|
    requires s in fs.inodes && offset + |bytes| <= fs.inodes[s].length
    requires Overwritten(sectors, sectors', SECTOR_SIZE * fs.inodes[s].start + offset, bytes)
    ensures t in fs.inodes && OnDisk(fs.inodes[t], sectors) && OnDisk(fs.inodes[t], sectors')
    ensures t < |sectors| && sectors'[t] == sectors[t]
    ensures s != t ==> Content(sectors', fs.inodes[t]) == Content(sectors, fs.inodes[t])
  {
    assert Sound(fs, s) && Sound(fs, t) && Owns(fs, t, t);
    assert !InExtent(fs.inodes[s], t);
    if s != t {
      ExtentsApart(fs, s, t);
      var e, f := fs.inodes[s], fs.inodes[t];
      if BytesToSectors(e.length) > 0 && BytesToSectors(f.length) > 0 {
        OtherExtentUntouched(e, f, sectors, sectors', offset, bytes);
      }
    }
  }

  /** What is allocated next belongs to no file that can be reached: in particular a removed file's
      sectors are not reused while it is open. */
  lemma AllocationAvoidsFiles(fs: FS, start: nat, cnt: nat, s: nat, x: nat)
    requires Inv(fs) && RunOf(fs.used, start, cnt, false) && start <= x < start + cnt && Reachable(fs, s)
    ensures !Owns(fs, s, x)
  {
    FreeIsUnowned(fs, x, s);
  }

  // ---------- Formatting ----------

  const ROOT_ENTRIES: nat := 16
  const ENTRY_SIZE: nat := 20

  /** `bitmap_file_size`: whole 32-bit words. */
  function MapBytes(sectors: nat): nat { (sectors + 31) / 32 * 4 }

  function MapExtent(sectors: nat): Extent { Extent(2, MapBytes(sectors)) }

  function RootExtent(sectors: nat): Extent {
    Extent(2 + BytesToSectors(MapBytes(sectors)), ROOT_ENTRIES * ENTRY_SIZE)
  }

  /** The sectors taken by the free map, the root directory and their inodes. */
  function SystemSectors(sectors: nat): nat {
    RootExtent(sectors).start + BytesToSectors(RootExtent(sectors).length)
  }

  /** A disk just formatted, with the free map file open. */
  function Formatted(sectors: nat): FS
    requires SystemSectors(sectors) <= sectors
  {
    FS(SetRun(seq(sectors, i => false), 0, SystemSectors(sectors), true),
       map[FREE_MAP_SECTOR := MapExtent(sectors), ROOT_DIR_SECTOR := RootExtent(sectors)],
       seq(ROOT_ENTRIES, i => Entry(0, [], false)),
       [Opened(FREE_MAP_SECTOR, 1, false, MapExtent(sectors))],
       multiset{FREE_MAP_SECTOR})
  }

  lemma FormattedInv(sectors: nat)
    requires SystemSectors(sectors) <= sectors
    ensures Inv(Formatted(sectors))
  {
    var fs := Formatted(sectors);
    forall s: nat | Reachable(fs, s) ensures IsSystem(s) { }
    assert OnePerSector(fs.open);
    forall s | s in fs.handles ensures IsOpen(fs, s) { assert fs.open[0].sector == s; }
  }

  // ---------- No sector is lost ----------

  ghost predicate Named(fs: FS, s: nat) { IsSystem(s) || InDirectory(fs, s) }

  /** Sector x is owned by an inode that can be reached. */
  ghost predicate Owned(fs: FS, x: nat) {
    exists s: nat :: Reachable(fs, s) && Owns(fs, s, x)
  }

  /** Every sector marked used is owned, and every inode open and not removed has a name. */
  ghost predicate NothingLost(fs: FS) {
    && (forall x: nat :: x < |fs.used| && fs.used[x] ==> Owned(fs, x))
    && (forall o :: o in fs.open ==> o.removed || Named(fs, o.sector))
  }

  /** So the sectors marked are exactly those owned. */
  lemma UsedIsOwned(fs: FS, x: nat)
    requires Inv(fs) && NothingLost(fs) && x < |fs.used|
    ensures fs.used[x] <==> Owned(fs, x)
  {
    if Owned(fs, x) {
      var s: nat :| Reachable(fs, s) && Owns(fs, s, x);
      assert Sound(fs, s);
    }
  }

  lemma StillOwned(fs: FS, fs': FS, x: nat)
    requires Owned(fs, x) && fs'.inodes == fs.inodes && forall s: nat :: Reachable(fs, s) ==> Reachable(fs', s)
    ensures Owned(fs', x)
  {
    var s: nat :| Reachable(fs, s) && Owns(fs, s, x);
    assert Reachable(fs', s) && Owns(fs', s, x);
  }

  lemma FormattedLosesNothing(sectors: nat)
    requires SystemSectors(sectors) <= sectors
    ensures NothingLost(Formatted(sectors))
  {
    var fs := Formatted(sectors);
    forall x: nat | x < |fs.used| && fs.used[x] ensures Owned(fs, x) {
      var s: nat := if x == 0 || InExtent(fs.inodes[0], x) then 0 else 1;
      assert Reachable(fs, s) && Owns(fs, s, x);
    }
  }

  /** Opening a file that has a name. */
  lemma OpenedLosesNothing(fs: FS, s: nat)
    requires Inv(fs) && NothingLost(fs) && Named(fs, s)
    ensures s in fs.inodes && NothingLost(InodeOpened(fs, s))
  {
    assert Reachable(fs, s) && Sound(fs, s);
    var fs' := InodeOpened(fs, s);
    OpenedReach(fs, s);
    forall x: nat | x < |fs'.used| && fs'.used[x] ensures Owned(fs', x) { StillOwned(fs, fs', x); }
    OpenListMembers(fs.open, s, fs.inodes[s]);
  }

  lemma ClosedNamed(fs: FS, s: nat)
    requires Inv(fs) && NothingLost(fs) && FindOpen(fs.open, s) < |fs.open|
    ensures forall o :: o in CloseList(fs.open, s) ==> o.removed || Named(fs, o.sector)
  {
    var i := FindOpen(fs.open, s);
    assert fs.open[i] in fs.open;
    CloseListMembers(fs.open, s);
    CloseListEntry(fs.open, s);
  }

  lemma ClosedStillOwned(fs: FS, s: nat, x: nat)
    requires Inv(fs) && NothingLost(fs) && IsOpen(fs, s)
    requires FindOpen(fs.open, s) < |fs.open| && CanRelease(fs, fs.open[FindOpen(fs.open, s)])
    requires x < |fs.used| && InodeClosed(fs, s).used[x]
    ensures Owned(InodeClosed(fs, s), x)
  {
    var fs', o := InodeClosed(fs, s), fs.open[FindOpen(fs.open, s)];
    assert o in fs.open && OpenedInv(fs, o);
    ClosedReach(fs, s);
    assert fs.used[x];
    var t: nat :| Reachable(fs, t) && Owns(fs, t, x);
    if t == s && fs.handles[s] == 1 {
      assert Named(fs, s);
    }
    assert Reachable(fs', t) && Owns(fs', t, x);
  }

  /** Closing a file: with the last handle on a removed one go its sectors. */
  lemma ClosedLosesNothing(fs: FS, s: nat)
    requires Inv(fs) && NothingLost(fs) && IsOpen(fs, s)
    ensures FindOpen(fs.open, s) < |fs.open| && CanRelease(fs, fs.open[FindOpen(fs.open, s)])
    ensures NothingLost(InodeClosed(fs, s))
  {
    OpenCanRelease(fs, s);
    var fs' := InodeClosed(fs, s);
    forall x: nat | x < |fs'.used| && fs'.used[x] ensures Owned(fs', x) { ClosedStillOwned(fs, s, x); }
    ClosedNamed(fs, s);
  }

  lemma FreeIsUnreachable(fs: FS, a: nat)
    requires Inv(fs) && RunOf(fs.used, a, 1, false)
    ensures !Reachable(fs, a)
  {
    if Reachable(fs, a) { FreeIsUnowned(fs, a, a); }
  }

  lemma CreatedReach(fs: FS, a: nat, e: Extent, k: nat, name: string, s: nat)
    requires a < |fs.used| && e.start + BytesToSectors(e.length) <= |fs.used|
    requires k < |fs.slots| && !fs.slots[k].inUse
    ensures Reachable(Created(fs, a, e, k, name), a)
    ensures Reachable(fs, s) ==> Reachable(Created(fs, a, e, k, name), s)
  {
    var fs' := Created(fs, a, e, k, name);
    assert fs'.slots[k] == Entry(a, name, true);
    if InDirectory(fs, s) {
      var i :| 0 <= i < |fs.slots| && fs.slots[i].inUse && fs.slots[i].sector == s;
      assert fs'.slots[i] == fs.slots[i];
    }
  }

  /** Creating a file: the new sectors are its own. */
  lemma CreatedLosesNothing(fs: FS, a: nat, e: Extent, k: nat, name: string)
    requires Inv(fs) && NothingLost(fs) && Placed(fs.used, BytesToSectors(e.length), a, e.start)
    requires k < |fs.slots| && !fs.slots[k].inUse
    ensures a < |fs.used| && NothingLost(Created(fs, a, e, k, name))
  {
    var fs' := Created(fs, a, e, k, name);
    FreeIsUnreachable(fs, a);
    forall x: nat | x < |fs'.used| && fs'.used[x] ensures Owned(fs', x) {
      if fs.used[x] {
        var s: nat :| Reachable(fs, s) && Owns(fs, s, x);
        CreatedReach(fs, a, e, k, name, s);
        assert Reachable(fs', s) && Owns(fs', s, x);
      } else {
        CreatedReach(fs, a, e, k, name, a);
        assert Owns(fs', a, x);
      }
    }
    forall o | o in fs'.open ensures o.removed || Named(fs', o.sector) {
      assert o.removed || Named(fs, o.sector);
      if InDirectory(fs, o.sector) {
        var i :| 0 <= i < |fs.slots| && fs.slots[i].inUse && fs.slots[i].sector == o.sector;
        assert fs'.slots[i] == fs.slots[i];
      }
    }
  }

  /** A failed `dir_add` loses sectors exactly when the file was to have data. */
  lemma LeakedLosesIff(fs: FS, a: nat, e: Extent)
    requires Inv(fs) && NothingLost(fs) && Placed(fs.used, BytesToSectors(e.length), a, e.start)
    ensures e.start + BytesToSectors(e.length) <= |fs.used|
    ensures NothingLost(Leaked(fs, a, e)) <==> BytesToSectors(e.length) == 0
  {
    var fs' := Leaked(fs, a, e);
    FreeIsUnreachable(fs, a);
    forall s: nat ensures Reachable(fs', s) <==> Reachable(fs, s) { }
    forall o | o in fs'.open ensures o.removed || Named(fs', o.sector) { assert o.removed || Named(fs, o.sector); }
    if BytesToSectors(e.length) == 0 {
      forall x: nat | x < |fs'.used| && fs'.used[x] ensures Owned(fs', x) {
        var s: nat :| Reachable(fs, s) && Owns(fs, s, x);
        assert Reachable(fs', s) && Owns(fs', s, x);
      }
    } else {
      assert fs'.used[e.start];
      if Owned(fs', e.start) {
        var s: nat :| Reachable(fs', s) && Owns(fs', s, e.start);
        LeakedUnowned(fs, a, e, s, e.start);
      }
    }
  }

  /** Just the file's inode and sectors are new; its name stands for it if that was new and the slot free. */
  lemma CreatedIs(fs: FS, a: nat, e: Extent, k: nat, name: string)
    requires Placed(fs.used, BytesToSectors(e.length), a, e.start) && k < |fs.slots|
    ensures a < |fs.used|
    ensures var fs' := Created(fs, a, e, k, name);
            && fs'.inodes == fs.inodes[a := e] && fs'.open == fs.open && fs'.handles == fs.handles
            && |fs'.used| == |fs.used|
            && (forall x: nat :: x < |fs.used| ==> (fs'.used[x] <==> fs.used[x] || x == a || InExtent(e, x)))
    ensures var fs' := Created(fs, a, e, k, name);
            NamesDistinct(fs.slots) && !InUse(fs.slots, name) && !fs.slots[k].inUse ==>
              NamesDistinct(fs'.slots) && Files(fs'.slots) == Files(fs.slots)[name := a]
  {
    if NamesDistinct(fs.slots) && !InUse(fs.slots, name) && !fs.slots[k].inUse {
      AddRefinesMap(fs.slots, k, name, a);
    }
  }

  lemma RemovedReach(fs: FS, k: nat, s: nat)
    requires Inv(fs) && k < |fs.slots| && fs.slots[k].inUse && Sound(fs, fs.slots[k].sector)
    requires fs.slots[k].sector < |fs.used| && Reachable(fs, s) && s != fs.slots[k].sector
    ensures Reachable(FileRemoved(fs, k), s) && (Named(fs, s) ==> Named(FileRemoved(fs, k), s))
  {
    var fs', v := FileRemoved(fs, k), fs.slots[k].sector;
    if InDirectory(fs, s) {
      var i :| 0 <= i < |fs.slots| && fs.slots[i].inUse && fs.slots[i].sector == s;
      assert fs'.slots[i] == fs.slots[i];
    }
    MarkListMembers(fs.open, v);
    if IsOpen(fs, s) {
      var o :| o in fs.open && o.sector == s;
      assert o in fs'.open;
    }
  }

  lemma RemovedOpen(fs: FS, k: nat)
    requires Inv(fs) && NothingLost(fs) && k < |fs.slots| && fs.slots[k].inUse && Sound(fs, fs.slots[k].sector)
    requires fs.slots[k].sector < |fs.used|
    ensures forall o :: o in FileRemoved(fs, k).open ==> o.removed || Named(FileRemoved(fs, k), o.sector)
  {
    var fs', v := FileRemoved(fs, k), fs.slots[k].sector;
    MarkListMembers(fs.open, v);
    forall o | o in fs'.open ensures o.removed || Named(fs', o.sector) {
      if o.sector != v {
        assert o in fs.open && IsOpen(fs, o.sector);
        RemovedReach(fs, k, o.sector);
      }
    }
  }

  /** Removing a file: its sectors go at once, or it stays open without a name. */
  lemma RemovedLosesNothing(fs: FS, k: nat)
    requires Inv(fs) && NothingLost(fs) && k < |fs.slots| && fs.slots[k].inUse && Sound(fs, fs.slots[k].sector)
    requires fs.slots[k].sector < |fs.used|
    ensures NothingLost(FileRemoved(fs, k))
  {
    var fs', v := FileRemoved(fs, k), fs.slots[k].sector;
    RemovedOpen(fs, k);
    forall x: nat | x < |fs'.used| && fs'.used[x] ensures Owned(fs', x) {
      assert fs.used[x];
      var s: nat :| Reachable(fs, s) && Owns(fs, s, x);
      if s != v {
        RemovedReach(fs, k, s);
      } else {
        MarkListMembers(fs.open, v);
        assert IsOpen(fs, v) && IsOpen(fs', v);
      }
      assert Reachable(fs', s) && Owns(fs', s, x);
    }
  }

  /** Entering a file in a slot that was in use loses the one named there. */
  lemma OverwrittenIsLost(fs: FS, a: nat, e: Extent, k: nat, name: string)
    requires Inv(fs) && Placed(fs.used, BytesToSectors(e.length), a, e.start)
    requires k < |fs.slots| && fs.slots[k].inUse
    ensures a < |fs.used| && !NothingLost(Created(fs, a, e, k, name))
  {
    var fs', v := Created(fs, a, e, k, name), fs.slots[k].sector;
    FreeIsUnreachable(fs, a);
    assert InDirectory(fs, v) && Reachable(fs, v) && Sound(fs, v) && Owns(fs, v, v);
    forall i | 0 <= i < |fs'.slots| && fs'.slots[i].inUse ensures fs'.slots[i].sector != v { }
    if IsOpen(fs, v) {
      var o :| o in fs.open && o.sector == v;
      assert OpenedInv(fs, o) && o in fs'.open && !o.removed && !Named(fs', o.sector);
    } else {
      assert fs'.used[v] && !Reachable(fs', v);
      if Owned(fs', v) {
        var s: nat :| Reachable(fs', s) && Owns(fs', s, v);
        NewOwner(fs, a, e, k, name, s, v);
      }
    }
  }

  /** Who owns a sector after a file is created owned it before, but for the new file and its sectors. */
  lemma NewOwner(fs: FS, a: nat, e: Extent, k: nat, name: string, s: nat, v: nat)
    requires Inv(fs) && Placed(fs.used, BytesToSectors(e.length), a, e.start) && k < |fs.slots|
    requires a < |fs.used| && v < |fs.used| && fs.used[v]
    requires Reachable(Created(fs, a, e, k, name), s) && Owns(Created(fs, a, e, k, name), s, v)
    ensures Reachable(fs, s) && Owns(fs, s, v) && s != a
  {
    FreeIsUnreachable(fs, a);
    EnteredReach(InodeWritten(Allocated(Allocated(fs, a, 1), e.start, BytesToSectors(e.length)), a, e), k, name, a);
  }

  // ---------- Runs of calls ----------

  /** What the calls do, with where they place things; a create can fail after it has taken sectors. */
  datatype Call =
    | Open(s: nat)
    | Close(s: nat)
    | Create(a: nat, e: Extent, k: nat, name: string)
    | CreateFails(a: nat, e: Extent)
    | Remove(k: nat)

  ghost predicate CanCall(fs: FS, c: Call) {
    match c
    case Open(s) => Named(fs, s)
    case Close(s) => IsOpen(fs, s)
    case Create(a, e, k, _) => Placed(fs.used, BytesToSectors(e.length), a, e.start) && k < |fs.slots|
    case CreateFails(a, e) => Placed(fs.used, BytesToSectors(e.length), a, e.start)
    case Remove(k) => k < |fs.slots| && fs.slots[k].inUse
  }

  /** What a call relies on is there: inodes on disk, sectors to be released that are marked. */
  ghost predicate Relied(fs: FS, c: Call)
    requires CanCall(fs, c)
  {
    match c
    case Open(s) => s in fs.inodes
    case Close(s) => FindOpen(fs.open, s) < |fs.open| && CanRelease(fs, fs.open[FindOpen(fs.open, s)])
    case Create(a, e, _, _) => a < |fs.used| && e.start + BytesToSectors(e.length) <= |fs.used|
    case CreateFails(_, e) => e.start + BytesToSectors(e.length) <= |fs.used|
    case Remove(k) => Sound(fs, fs.slots[k].sector) && fs.slots[k].sector < |fs.used|
  }

  lemma CallIsDefined(fs: FS, c: Call)
    requires Inv(fs) && CanCall(fs, c)
    ensures Relied(fs, c)
  {
    match c
    case Open(s) => assert Reachable(fs, s) && Sound(fs, s);
    case Close(s) => OpenCanRelease(fs, s);
    case Create(a, e, _, _) =>
    case CreateFails(a, e) =>
    case Remove(k) =>
      var v := fs.slots[k].sector;
      assert InDirectory(fs, v) && Reachable(fs, v) && Sound(fs, v) && Owns(fs, v, v);
  }

  ghost function AfterCall(fs: FS, c: Call): FS
    requires CanCall(fs, c) && Relied(fs, c)
  {
    match c
    case Open(s) => InodeOpened(fs, s)
    case Close(s) => InodeClosed(fs, s)
    case Create(a, e, k, name) => Created(fs, a, e, k, name)
    case CreateFails(a, e) => Leaked(fs, a, e)
    case Remove(k) => FileRemoved(fs, k)
  }

  lemma FileRemovedKeepsInv(fs: FS, k: nat)
    requires Inv(fs) && k < |fs.slots| && fs.slots[k].inUse && Sound(fs, fs.slots[k].sector)
    requires fs.slots[k].sector < |fs.used|
    ensures Inv(FileRemoved(fs, k))
  {
    var v, fs1, fs' := fs.slots[k].sector, Erased(fs, k), FileRemoved(fs, k);
    ErasedKeepsInv(fs, k);
    if IsOpen(fs, v) {
      MarkedKeepsInv(fs1, v);
    } else {
      assert InDirectory(fs, v) && Reachable(fs, v) && !Reachable(fs1, v);
      forall t: nat, x: nat | Reachable(fs', t) && Owns(fs1, t, x) && x < |fs1.used| && fs1.used[x]
        ensures fs'.used[x]
      {
        assert Reachable(fs1, t);
        ErasedReach(fs, k, t);
        assert t != v && Owns(fs, t, x) && !Owns(fs, v, x);
      }
      OwnershipShrinks(fs1, fs');
      forall o | o in fs'.open ensures OpenedInv(fs', o) { assert OpenedInv(fs1, o); }
      assert forall s :: s in fs'.handles ==> IsOpen(fs1, s) && IsOpen(fs', s);
    }
  }

  lemma ErasedReach(fs: FS, k: nat, s: nat)
    requires Inv(fs) && k < |fs.slots| && fs.slots[k].inUse && Reachable(Erased(fs, k), s)
    ensures Reachable(fs, s)
  {
    ErasedDirectory(fs, k);
  }

  lemma CallKeepsInv(fs: FS, c: Call)
    requires Inv(fs) && CanCall(fs, c)
    ensures Relied(fs, c) && Inv(AfterCall(fs, c))
  {
    CallIsDefined(fs, c);
    match c
    case Open(s) => OpenedKeepsInv(fs, s);
    case Close(s) => ClosedKeepsInv(fs, s);
    case Create(a, e, k, name) =>
      CreatedIsPending(fs, a, e);
      var fs1 := Allocated(Allocated(fs, a, 1), e.start, BytesToSectors(e.length));
      EnteredKeepsInv(InodeWritten(fs1, a, e), k, name, a);
    case CreateFails(a, e) => DroppedIsLeak(fs, a, e);
    case Remove(k) => FileRemovedKeepsInv(fs, k);
  }

  /** A call that loses sectors: a create that fails for a file with data, or that takes a slot in use. */
  predicate Loses(fs: FS, c: Call) {
    || (c.CreateFails? && BytesToSectors(c.e.length) > 0)
    || (c.Create? && c.k < |fs.slots| && fs.slots[c.k].inUse)
  }

  lemma CallLosesIff(fs: FS, c: Call)
    requires Inv(fs) && NothingLost(fs) && CanCall(fs, c)
    ensures Relied(fs, c) && (NothingLost(AfterCall(fs, c)) <==> !Loses(fs, c))
  {
    CallIsDefined(fs, c);
    match c
    case Open(s) => OpenedLosesNothing(fs, s);
    case Close(s) => ClosedLosesNothing(fs, s);
    case Create(a, e, k, name) =>
      if fs.slots[k].inUse { OverwrittenIsLost(fs, a, e, k, name); } else { CreatedLosesNothing(fs, a, e, k, name); }
    case CreateFails(a, e) => LeakedLosesIff(fs, a, e);
    case Remove(k) => RemovedLosesNothing(fs, k);
  }

  /** One call; if what it relies on were missing, anything could follow. */
  ghost predicate IsCall(fs: FS, fs': FS, mayLose: bool) {
    exists c :: CanCall(fs, c) && (Relied(fs, c) ==> fs' == AfterCall(fs, c)) && (mayLose || !Loses(fs, c))
  }

  ghost predicate IsCallRun(run: seq<FS>, sectors: nat, mayLose: bool) {
    && run != [] && SystemSectors(sectors) <= sectors && run[0] == Formatted(sectors)
    && forall i :: 0 <= i < |run| - 1 ==> IsCall(run[i], run[i + 1], mayLose)
  }

  /** From a disk just formatted every run of calls keeps the file system sound; and as long as no call
      loses sectors, the sectors marked are exactly those of the files and the system. */
  lemma {:induction false} CallRunSound(run: seq<FS>, sectors: nat, mayLose: bool, i: nat)
    requires IsCallRun(run, sectors, mayLose) && i < |run|
    ensures Inv(run[i]) && (!mayLose ==> NothingLost(run[i]))
  {
    hide Inv, NothingLost, IsCall, Formatted;
    if i == 0 {
      FormattedInv(sectors);
      FormattedLosesNothing(sectors);
    } else {
      CallRunSound(run, sectors, mayLose, i - 1);
      assert IsCall(run[i - 1], run[i - 1 + 1], mayLose);
      CallSound(run[i - 1], run[i], mayLose);
    }
  }

  lemma CallSound(fs: FS, fs': FS, mayLose: bool)
    requires Inv(fs) && IsCall(fs, fs', mayLose) && (!mayLose ==> NothingLost(fs))
    ensures Inv(fs') && (!mayLose ==> NothingLost(fs'))
  {
    var c :| CanCall(fs, c) && (Relied(fs, c) ==> fs' == AfterCall(fs, c)) && (mayLose || !Loses(fs, c));
    CallIsDefined(fs, c);
    CallKeepsInv(fs, c);
    if !mayLose { CallLosesIff(fs, c); }
  }
}
