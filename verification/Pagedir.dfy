/** Setting, reading, clearing and destroying user mappings (pintos/src/userprog/pagedir.c). */
module Pagedir {
  import opened Options
  import opened PageTables
  import opened Sequences

  /** A pointer to kernel memory; mostly to the start of a page. */
  datatype Page = Page(address: Address)

  /** The pages that hold directories and page tables. */
  type Tables = map<Page, seq<bv32>>

  datatype Mapping = Mapping(frame: Page, writable: bool)

  predicate IsDirectory(t: Tables, pd: Page) { pd in t && |t[pd]| == ENTRIES }

  /** The page a present entry points to. */
  function Target(e: bv32): Page
    requires e & PTE_ADDR < PHYS_BASE
  {
    Page(PteGetPage(e))
  }

  predicate PointsToTable(t: Tables, pd: Page, e: bv32) {
    Present(e) && e & PTE_ADDR < PHYS_BASE && Target(e) != pd && Target(e) in t && |t[Target(e)]| == ENTRIES
  }

  predicate HasTable(t: Tables, pd: Page, i: nat)
    requires IsDirectory(t, pd) && i < ENTRIES
  {
    PointsToTable(t, pd, t[pd][i])
  }

  function TableAt(t: Tables, pd: Page, i: nat): (pt: Page)
    requires IsDirectory(t, pd) && i < ENTRIES && HasTable(t, pd, i)
    ensures pt in t && |t[pt]| == ENTRIES && pt != pd
  {
    Target(t[pd][i])
  }

  /** The entry for a page; zero if there is no table for it. */
  function EntryAt(t: Tables, pd: Page, i: nat, j: nat): bv32
    requires IsDirectory(t, pd) && i < USER_ENTRIES && j < ENTRIES
  {
    if HasTable(t, pd, i) then t[TableAt(t, pd, i)][j] else 0
  }

  predicate InMemory(e: bv32) { Present(e) ==> e & PTE_ADDR < PHYS_BASE }

  /** A present entry has the user bit. */
  predicate ForUser(e: bv32) { Present(e) ==> e & 4 != 0 }

  /** The user part of a directory is sound: an entry is zero or has a table of its own, open to users,
      whose present entries are for users and hold addresses of memory. */
  ghost predicate Inv(t: Tables, pd: Page) {
    && IsDirectory(t, pd)
    && (forall i: nat :: i < USER_ENTRIES ==> t[pd][i] == 0 || (HasTable(t, pd, i) && LetsUsers(t[pd][i])))
    && (forall i: nat, k: nat :: i < k < USER_ENTRIES && HasTable(t, pd, i) && HasTable(t, pd, k) ==>
          TableAt(t, pd, i) != TableAt(t, pd, k))
    && (forall i: nat, j: nat :: i < USER_ENTRIES && j < ENTRIES ==>
          InMemory(EntryAt(t, pd, i, j)) && ForUser(EntryAt(t, pd, i, j)))
  }

  function MappingOf(e: bv32): Option<Mapping> {
    if Present(e) && e & PTE_ADDR < PHYS_BASE then Some(Mapping(Target(e), Writable(e))) else None
  }

  function PdIndex(va: Address): (i: nat)
    ensures i < ENTRIES && (IsUser(va) ==> i < USER_ENTRIES)
  {
    UserIndex(va);
    PdNo(va) as nat
  }

  function PtIndex(va: Address): (j: nat)
    ensures j < ENTRIES
  {
    PtNo(va) as nat
  }

  predicate SamePage(va: Address, vb: Address) { va & PTE_ADDR == vb & PTE_ADDR }

  lemma IndicesTellPages(va: Address, vb: Address)
    ensures PdIndex(va) == PdIndex(vb) && PtIndex(va) == PtIndex(vb) <==> SamePage(va, vb)
  {
    IndicesArePage(va, vb);
    IndexIsNumber(PdNo(va), PdNo(vb));
    IndexIsNumber(PtNo(va), PtNo(vb));
  }

  /** What a user address is mapped to. */
  function Mapped(t: Tables, pd: Page, va: Address): Option<Mapping>
    requires IsDirectory(t, pd) && IsUser(va)
  {
    MappingOf(EntryAt(t, pd, PdIndex(va), PtIndex(va)))
  }

  ghost predicate KernelPartSame(t: Tables, t': Tables, pd: Page)
    requires IsDirectory(t, pd) && IsDirectory(t', pd)
  {
    forall i :: USER_ENTRIES <= i < ENTRIES ==> t'[pd][i] == t[pd][i]
  }

  // ---------- What one write does ----------

  /** A directory entry whose own table keeps its size keeps its table. */
  lemma TableKept(t: Tables, t': Tables, pd: Page, i: nat)
    requires IsDirectory(t, pd) && IsDirectory(t', pd) && i < ENTRIES && t'[pd][i] == t[pd][i] && HasTable(t, pd, i)
    requires TableAt(t, pd, i) in t' && |t'[TableAt(t, pd, i)]| == ENTRIES
    ensures HasTable(t', pd, i) && TableAt(t', pd, i) == TableAt(t, pd, i)
  {
  }

  lemma EmptyHasNoTable(t: Tables, pd: Page, i: nat)
    requires IsDirectory(t, pd) && i < ENTRIES && t[pd][i] == 0
    ensures !HasTable(t, pd, i)
  {
  }

  lemma TablesSame(t: Tables, t': Tables, pd: Page, k: nat)
    requires Inv(t, pd) && k < USER_ENTRIES && IsDirectory(t', pd) && t'[pd][k] == t[pd][k]
    requires forall p :: p in t && p != pd ==> p in t' && |t'[p]| == |t[p]|
    ensures HasTable(t', pd, k) <==> HasTable(t, pd, k)
    ensures HasTable(t, pd, k) ==> TableAt(t', pd, k) == TableAt(t, pd, k)
  {
    if t[pd][k] == 0 {
      EmptyHasNoTable(t, pd, k);
      EmptyHasNoTable(t', pd, k);
    } else {
      TableKept(t, t', pd, k);
    }
  }

  /** Writing one page table entry changes exactly that page's entry. */
  lemma EntryWritten(t: Tables, pd: Page, i: nat, j: nat, e: bv32)
    requires Inv(t, pd) && i < USER_ENTRIES && j < ENTRIES && HasTable(t, pd, i) && InMemory(e) && ForUser(e)
    ensures var pt := TableAt(t, pd, i);
            var t' := t[pt := t[pt][j := e]];
            && Inv(t', pd) && KernelPartSame(t, t', pd)
            && forall k: nat, l: nat :: k < USER_ENTRIES && l < ENTRIES ==>
                 EntryAt(t', pd, k, l) == if k == i && l == j then e else EntryAt(t, pd, k, l)
  {
    var pt := TableAt(t, pd, i);
    var t' := t[pt := t[pt][j := e]];
    assert t'[pd] == t[pd];
    forall k: nat | k < USER_ENTRIES
      ensures HasTable(t', pd, k) <==> HasTable(t, pd, k)
      ensures HasTable(t, pd, k) ==> TableAt(t', pd, k) == TableAt(t, pd, k)
    {
      TablesSame(t, t', pd, k);
    }
    forall k: nat, l: nat | k < USER_ENTRIES && l < ENTRIES
      ensures EntryAt(t', pd, k, l) == if k == i && l == j then e else EntryAt(t, pd, k, l)
    {
      if k != i && HasTable(t, pd, k) { assert TableAt(t, pd, k) != pt; }
    }
  }

  /** Writing an entry of its table leaves all directory entries and tables where they are. */
  lemma EntryWrittenTables(t: Tables, pd: Page, i: nat, j: nat, e: bv32)
    requires Inv(t, pd) && i < USER_ENTRIES && j < ENTRIES && HasTable(t, pd, i) && InMemory(e) && ForUser(e)
    ensures var pt := TableAt(t, pd, i);
            var t' := t[pt := t[pt][j := e]];
            IsDirectory(t', pd) && OthersSame(t, t', pd) && SpareAtMost(t, t', pd, None)
  {
    var pt := TableAt(t, pd, i);
    var t' := t[pt := t[pt][j := e]];
    assert IsTable(t, pd, pt);
    forall k: nat | k < USER_ENTRIES && HasTable(t', pd, k)
      ensures HasTable(t, pd, k) && TableAt(t', pd, k) == TableAt(t, pd, k)
    {
      TablesSame(t, t', pd, k);
    }
  }

  function WithTable(t: Tables, pd: Page, i: nat, pt: Page): Tables
    requires IsDirectory(t, pd) && i < ENTRIES && IsKernelPage(pt.address)
  {
    t[pt := seq(ENTRIES, k => 0)][pd := t[pd][i := PdeCreate(pt.address)]]
  }

  lemma NewTable(t: Tables, pd: Page, i: nat, pt: Page)
    requires Inv(t, pd) && i < USER_ENTRIES && t[pd][i] == 0 && IsKernelPage(pt.address) && pt !in t
    ensures var t' := WithTable(t, pd, i, pt);
            && IsDirectory(t', pd) && HasTable(t', pd, i) && LetsUsers(t'[pd][i])
            && TableAt(t', pd, i) == pt && t'[pt] == seq(ENTRIES, k => 0)
  {
    PdeRoundTrip(pt.address);
    assert Target(PdeCreate(pt.address)) == pt;
  }

  lemma NothingIsPresent()
    ensures !Present(0)
  {
  }

  /** A spare zeroed table in an empty directory entry changes no mapping. */
  lemma TableAdded(t: Tables, pd: Page, i: nat, pt: Page)
    requires Inv(t, pd) && i < USER_ENTRIES && t[pd][i] == 0 && IsKernelPage(pt.address) && pt !in t
    ensures var t' := WithTable(t, pd, i, pt);
            && Inv(t', pd) && KernelPartSame(t, t', pd)
            && forall k: nat, j: nat :: k < USER_ENTRIES && j < ENTRIES ==>
                 EntryAt(t', pd, k, j) == EntryAt(t, pd, k, j)
  {
    var t' := WithTable(t, pd, i, pt);
    NewTable(t, pd, i, pt);
    EmptyHasNoTable(t, pd, i);
    NothingIsPresent();
    forall k: nat | k < USER_ENTRIES && k != i
      ensures HasTable(t', pd, k) <==> HasTable(t, pd, k)
      ensures HasTable(t, pd, k) ==> TableAt(t', pd, k) == TableAt(t, pd, k) != pt
    {
      TablesSame(t, t', pd, k);
    }
    forall k: nat, j: nat | k < USER_ENTRIES && j < ENTRIES
      ensures EntryAt(t', pd, k, j) == EntryAt(t, pd, k, j)
      ensures InMemory(EntryAt(t', pd, k, j)) && ForUser(EntryAt(t', pd, k, j))
    {
      assert InMemory(EntryAt(t, pd, k, j)) && ForUser(EntryAt(t, pd, k, j));
    }
    forall k: nat, l: nat | k < l < USER_ENTRIES && HasTable(t', pd, k) && HasTable(t', pd, l)
      ensures TableAt(t', pd, k) != TableAt(t', pd, l)
    {
      if k != i && l != i { assert TableAt(t, pd, k) != TableAt(t, pd, l); }
    }
  }

  lemma OneTableMore(t: Tables, pd: Page, i: nat, pt: Page)
    requires Inv(t, pd) && i < USER_ENTRIES && t[pd][i] == 0 && IsKernelPage(pt.address) && pt !in t
    ensures var t' := WithTable(t, pd, i, pt);
            IsDirectory(t', pd) && OthersSame(t, t', pd) && SpareAtMost(t, t', pd, Some(pt))
  {
    var t' := WithTable(t, pd, i, pt);
    NewTable(t, pd, i, pt);
    forall k: nat | k < USER_ENTRIES && k != i && HasTable(t', pd, k)
      ensures HasTable(t, pd, k) && TableAt(t', pd, k) == TableAt(t, pd, k)
    {
      TablesSame(t, t', pd, k);
    }
  }

  /** The address that a mapping gives for a user address. */
  function Translation(m: Option<Mapping>, va: Address): Option<Page> {
    match m
    case Some(mapping) => Some(AtOffset(mapping.frame, va))
    case None => None
  }

  function AtOffset(frame: Page, va: Address): Page {
    Page(frame.address + PgOfs(va))
  }

  /** The kernel's address of what a user may reach at va. */
  function Reached(g: Option<Grant>, va: Address): Option<Page> {
    match g
    case Some(grant) => Some(Page(KernelAddress(grant.physical) + (va & 0xfff)))
    case None => None
  }

  lemma EntryTranslates(e: bv32, va: Address)
    requires InMemory(e)
    ensures Translation(MappingOf(e), va) == if Present(e) then Some(AtOffset(Target(e), va)) else None
  {
  }

  method TranslateEntry(e: bv32, va: Address) returns (r: Option<Page>)
    requires InMemory(e)
    ensures r == Translation(MappingOf(e), va)
  {
    EntryTranslates(e, va);
    if Present(e) { r := Some(AtOffset(Target(e), va)); } else { r := None; }
  }

  lemma NoEntry(t: Tables, pd: Page, i: nat, j: nat)
    requires Inv(t, pd) && i < USER_ENTRIES && j < ENTRIES && t[pd][i] == 0
    ensures EntryAt(t, pd, i, j) == 0
  {
    EmptyHasNoTable(t, pd, i);
  }

  lemma EntriesInMemory(t: Tables, pd: Page, i: nat, j: nat)
    requires Inv(t, pd) && i < USER_ENTRIES && j < ENTRIES
    ensures InMemory(EntryAt(t, pd, i, j))
  {
  }

  lemma FoundEntry(t: Tables, pd: Page, i: nat, j: nat)
    requires IsDirectory(t, pd) && i < USER_ENTRIES && j < ENTRIES && HasTable(t, pd, i)
    ensures t[TableAt(t, pd, i)][j] == EntryAt(t, pd, i, j)
  {
  }

  // ---------- Frames and tables ----------

  predicate Installed(t: Tables, pd: Page, i: nat, j: nat, frame: Page)
    requires IsDirectory(t, pd)
  {
    i < USER_ENTRIES && j < ENTRIES && MappingOf(EntryAt(t, pd, i, j)).Some? && Target(EntryAt(t, pd, i, j)) == frame
  }

  /** The frames installed are all different, and none of them holds a table of this directory. */
  ghost predicate FramesDistinct(t: Tables, pd: Page)
    requires IsDirectory(t, pd)
  {
    && (forall i: nat, j: nat, k: nat, l: nat, f: Page ::
          Installed(t, pd, i, j, f) && Installed(t, pd, k, l, f) ==> i == k && j == l)
    && (forall i: nat, j: nat, f: Page :: Installed(t, pd, i, j, f) ==> f != pd && !IsTable(t, pd, f))
  }

  ghost predicate IsTable(t: Tables, pd: Page, p: Page)
    requires IsDirectory(t, pd)
  {
    exists i: nat :: i < USER_ENTRIES && HasTable(t, pd, i) && TableAt(t, pd, i) == p
  }

  ghost predicate IsFrame(t: Tables, pd: Page, p: Page)
    requires IsDirectory(t, pd)
  {
    exists i: nat, j: nat :: Installed(t, pd, i, j, p)
  }

  /** The page is neither pd nor one of the page tables of its user part. */
  ghost predicate Apart(t: Tables, pd: Page, p: Page)
    requires IsDirectory(t, pd)
  {
    p != pd && !IsTable(t, pd, p)
  }

  /** Nothing has changed but pd and its own user tables: not the kernel's tables, nor any other
      directory or its tables. */
  ghost predicate OthersSame(t: Tables, t': Tables, pd: Page)
    requires IsDirectory(t, pd)
  {
    forall p :: p in t && Apart(t, pd, p) ==> p in t' && t'[p] == t[p]
  }

  /** The user tables are those there were and at most one more. */
  ghost predicate SpareAtMost(t: Tables, t': Tables, pd: Page, spare: Option<Page>)
    requires IsDirectory(t, pd) && IsDirectory(t', pd)
  {
    forall p :: IsTable(t', pd, p) ==> IsTable(t, pd, p) || spare == Some(p)
  }

  ghost predicate EntriesSame(t: Tables, t': Tables, pd: Page)
    requires IsDirectory(t, pd) && IsDirectory(t', pd)
  {
    forall k: nat, l: nat :: k < USER_ENTRIES && l < ENTRIES ==> EntryAt(t', pd, k, l) == EntryAt(t, pd, k, l)
  }

  ghost predicate EntrySet(t: Tables, t': Tables, pd: Page, i: nat, j: nat, e: bv32)
    requires IsDirectory(t, pd) && IsDirectory(t', pd)
  {
    forall k: nat, l: nat :: k < USER_ENTRIES && l < ENTRIES ==>
      EntryAt(t', pd, k, l) == if k == i && l == j then e else EntryAt(t, pd, k, l)
  }

  /** A page that the directory has no use for yet. */
  ghost predicate Unused(t: Tables, pd: Page, p: Page)
    requires IsDirectory(t, pd)
  {
    Apart(t, pd, p) && !IsFrame(t, pd, p)
  }

  lemma SpareKeepsDistinct(t: Tables, t': Tables, pd: Page, spare: Option<Page>)
    requires IsDirectory(t, pd) && IsDirectory(t', pd) && FramesDistinct(t, pd)
    requires EntriesSame(t, t', pd) && SpareAtMost(t, t', pd, spare) && (spare.Some? ==> !IsFrame(t, pd, spare.value))
    ensures FramesDistinct(t', pd)
  {
    assert forall i: nat, j: nat, f: Page :: Installed(t', pd, i, j, f) <==> Installed(t, pd, i, j, f);
    forall i: nat, j: nat, f: Page | Installed(t', pd, i, j, f) ensures f != pd && !IsTable(t', pd, f) {
      assert Installed(t, pd, i, j, f) && IsFrame(t, pd, f);
    }
  }

  lemma StillUnused(t: Tables, t': Tables, pd: Page, spare: Option<Page>, p: Page)
    requires IsDirectory(t, pd) && IsDirectory(t', pd) && Unused(t, pd, p) && spare != Some(p)
    requires EntriesSame(t, t', pd) && SpareAtMost(t, t', pd, spare)
    ensures Unused(t', pd, p)
  {
    if IsFrame(t', pd, p) {
      var i: nat, j: nat :| Installed(t', pd, i, j, p);
      assert Installed(t, pd, i, j, p);
    }
  }

  /** The frame to be installed, and the page for a table if one is needed, are not in use. */
  ghost predicate Fresh(t: Tables, pd: Page, frame: Page, spare: Option<Page>)
    requires IsDirectory(t, pd)
  {
    Unused(t, pd, frame) && spare != Some(frame) && (spare.Some? ==> !IsFrame(t, pd, spare.value))
  }

  lemma FreshAfterSpare(t: Tables, t': Tables, pd: Page, spare: Option<Page>, frame: Page)
    requires IsDirectory(t, pd) && IsDirectory(t', pd) && FramesDistinct(t, pd) && Fresh(t, pd, frame, spare)
    requires EntriesSame(t, t', pd) && SpareAtMost(t, t', pd, spare)
    ensures FramesDistinct(t', pd) && Unused(t', pd, frame)
  {
    SpareKeepsDistinct(t, t', pd, spare);
    StillUnused(t, t', pd, spare, frame);
  }

  lemma EntryKeepsDistinct(t: Tables, t': Tables, pd: Page, i: nat, j: nat, e: bv32)
    requires IsDirectory(t, pd) && IsDirectory(t', pd) && FramesDistinct(t, pd)
    requires i < USER_ENTRIES && j < ENTRIES && EntrySet(t, t', pd, i, j, e) && SpareAtMost(t, t', pd, None)
    requires MappingOf(e).Some? ==> Unused(t, pd, Target(e))
    ensures FramesDistinct(t', pd)
  {
    forall k: nat, l: nat, f: Page | Installed(t', pd, k, l, f)
      ensures if k == i && l == j then MappingOf(e).Some? && f == Target(e) else Installed(t, pd, k, l, f)
      ensures f != pd && !IsTable(t', pd, f)
    {
      assert EntryAt(t', pd, k, l) == if k == i && l == j then e else EntryAt(t, pd, k, l);
      if k != i || l != j { assert Installed(t, pd, k, l, f); }
    }
    if MappingOf(e).Some? {
      forall k: nat, l: nat | Installed(t, pd, k, l, Target(e)) ensures false { assert IsFrame(t, pd, Target(e)); }
    }
  }

  lemma OthersTwice(t: Tables, t1: Tables, t2: Tables, pd: Page, spare: Option<Page>)
    requires IsDirectory(t, pd) && IsDirectory(t1, pd) && (spare.Some? ==> spare.value !in t)
    requires OthersSame(t, t1, pd) && SpareAtMost(t, t1, pd, spare) && OthersSame(t1, t2, pd)
    ensures OthersSame(t, t2, pd)
  {
  }

  /** Another directory, no page of which is pd's, is not disturbed: its user mappings stay. */
  lemma OtherDirectorySame(t: Tables, t': Tables, pd: Page, other: Page)
    requires IsDirectory(t, pd) && OthersSame(t, t', pd) && Inv(t, other) && Apart(t, pd, other)
    requires forall p :: IsTable(t, other, p) ==> Apart(t, pd, p)
    ensures IsDirectory(t', other) && EntriesSame(t, t', other)
    ensures forall va :: IsUser(va) ==> Mapped(t', other, va) == Mapped(t, other, va)
    ensures GrantsSame(t, t', other)
  {
    OtherTablesSame(t, t', pd, other);
    forall va | IsUser(va)
      ensures Mapped(t', other, va) == Mapped(t, other, va) && Granted(t', other, va) == Granted(t, other, va)
    {
      IndicesAreBits(va);
      OtherWalkSame(t, t', other, PdIndex(va), PtIndex(va));
    }
  }

  predicate SamePageOf(t: Tables, t': Tables, p: Page) { p in t && p in t' && t'[p] == t[p] }

  lemma OtherWalkSame(t: Tables, t': Tables, other: Page, i: nat, j: nat)
    requires Inv(t, other) && IsDirectory(t', other) && t'[other] == t[other] && i < USER_ENTRIES && j < ENTRIES
    requires HasTable(t, other, i) ==> SamePageOf(t, t', TableAt(t, other, i))
    ensures Walk(t', other, i, j) == Walk(t, other, i, j)
  {
    if t[other][i] == 0 { NothingGranted(t[other][i]); } else { TargetSeen(t[other][i]); }
  }

  lemma OtherTablesSame(t: Tables, t': Tables, pd: Page, other: Page)
    requires IsDirectory(t, pd) && OthersSame(t, t', pd) && Inv(t, other) && Apart(t, pd, other)
    requires forall p :: IsTable(t, other, p) ==> Apart(t, pd, p)
    ensures IsDirectory(t', other) && EntriesSame(t, t', other) && t'[other] == t[other]
    ensures forall k: nat :: k < USER_ENTRIES && HasTable(t, other, k) ==>
              SamePageOf(t, t', TableAt(t, other, k))
  {
    forall k: nat | k < USER_ENTRIES
      ensures HasTable(t', other, k) <==> HasTable(t, other, k)
      ensures HasTable(t, other, k) ==>
                TableAt(t', other, k) == TableAt(t, other, k) && t'[TableAt(t, other, k)] == t[TableAt(t, other, k)]
    {
      if HasTable(t, other, k) { assert IsTable(t, other, TableAt(t, other, k)); }
      else {
        EmptyHasNoTable(t', other, k);
      }
    }
  }

  // ---------- What users may do ----------

  /** Where the kernel sees the physical page that an entry gives. */
  function SeenAt(e: bv32): Page { Page(KernelAddress(e & 0xfffff000)) }

  /** What the processor finds in entry i of the directory and entry j of that table. */
  function Walk(t: Tables, pd: Page, i: nat, j: nat): Option<Grant>
    requires IsDirectory(t, pd) && i < 1024 && j < 1024
  {
    var pde := t[pd][i];
    if pde & 1 == 0 || SeenAt(pde) !in t || |t[SeenAt(pde)]| != 1024 then None else GrantOf(pde, t[SeenAt(pde)][j])
  }

  /** What it finds when a user accesses an address: the top ten bits and the next ten are indices. */
  function Granted(t: Tables, pd: Page, va: Address): Option<Grant>
    requires IsDirectory(t, pd)
  {
    Walk(t, pd, Top(va) as nat, Middle(va) as nat)
  }

  /** Access to a frame, which the kernel sees at its physical address plus 3 GB. */
  function AccessTo(frame: Page, writable: bool): Grant { Grant(frame.address - 0xc0000000, writable) }

  /** The access that a mapping stands for. */
  function GrantFor(m: Option<Mapping>): Option<Grant> {
    match m
    case Some(mapping) => Some(AccessTo(mapping.frame, mapping.writable))
    case None => None
  }

  lemma EntryGrants(e: bv32)
    requires InMemory(e)
    ensures EntryGrant(e) == GrantFor(MappingOf(e))
  {
    FlagBits(e);
    if e & PTE_ADDR < PHYS_BASE { AddressBits(e); }
  }

  lemma TargetSeen(e: bv32)
    requires e & PTE_ADDR < PHYS_BASE
    ensures Target(e) == SeenAt(e) && (Present(e) <==> e & 1 != 0)
  {
  }

  lemma EntryReaches(e: bv32, va: Address)
    requires InMemory(e)
    ensures Reached(EntryGrant(e), va) == Translation(MappingOf(e), va)
  {
    FlagBits(e);
    if Present(e) {
      TargetSeen(e);
      OffsetAdded(Target(e).address, SeenAt(e).address, va);
    }
  }

  lemma NothingGranted(e: bv32)
    requires e == 0
    ensures e & 1 == 0 && EntryGrant(e) == None && !Present(e)
  {
  }

  /** In a sound directory the walk ends at the page's entry. */
  lemma WalkIsEntry(t: Tables, pd: Page, i: nat, j: nat)
    requires Inv(t, pd) && i < USER_ENTRIES && j < ENTRIES
    ensures Walk(t, pd, i, j) == EntryGrant(EntryAt(t, pd, i, j))
  {
    if t[pd][i] == 0 {
      EmptyHasNoTable(t, pd, i);
      NothingGranted(t[pd][i]);
      NothingGranted(EntryAt(t, pd, i, j));
    } else {
      WalkFinds(t, pd, i, j);
      EntryIsForUser(t, pd, i, j);
      GrantIs(t[pd][i], EntryAt(t, pd, i, j));
    }
  }

  lemma WalkFinds(t: Tables, pd: Page, i: nat, j: nat)
    requires IsDirectory(t, pd) && i < USER_ENTRIES && j < ENTRIES && HasTable(t, pd, i)
    ensures t[pd][i] & 1 != 0 && Walk(t, pd, i, j) == GrantOf(t[pd][i], EntryAt(t, pd, i, j))
  {
    TargetSeen(t[pd][i]);
  }

  lemma EntryIsForUser(t: Tables, pd: Page, i: nat, j: nat)
    requires Inv(t, pd) && i < USER_ENTRIES && j < ENTRIES
    ensures var e := EntryAt(t, pd, i, j); e & 1 != 0 ==> e & 4 != 0
  {
    FlagBits(EntryAt(t, pd, i, j));
    assert ForUser(EntryAt(t, pd, i, j));
  }

  lemma GrantedIsEntry(t: Tables, pd: Page, va: Address)
    requires Inv(t, pd) && IsUser(va)
    ensures Granted(t, pd, va) == EntryGrant(EntryAt(t, pd, PdIndex(va), PtIndex(va)))
  {
    IndicesAreBits(va);
    WalkIsEntry(t, pd, PdIndex(va), PtIndex(va));
  }

  /** The processor grants users exactly what is mapped. */
  lemma GrantedIsMapped(t: Tables, pd: Page, va: Address)
    requires Inv(t, pd) && IsUser(va)
    ensures Granted(t, pd, va) == GrantFor(Mapped(t, pd, va))
  {
    GrantedIsEntry(t, pd, va);
    EntriesInMemory(t, pd, PdIndex(va), PtIndex(va));
    EntryGrants(EntryAt(t, pd, PdIndex(va), PtIndex(va)));
  }

  ghost predicate GrantsSame(t: Tables, t': Tables, pd: Page)
    requires IsDirectory(t, pd) && IsDirectory(t', pd)
  {
    forall va :: IsUser(va) ==> Granted(t', pd, va) == Granted(t, pd, va)
  }

  /** The page at upage is mapped like this, and the others as they were. */
  ghost predicate PageSet(t: Tables, t': Tables, pd: Page, upage: Address, m: Option<Mapping>)
    requires IsDirectory(t, pd) && IsDirectory(t', pd)
  {
    forall va :: IsUser(va) ==> Mapped(t', pd, va) == if SamePage(va, upage) then m else Mapped(t, pd, va)
  }

  /** Users have this access to the page at upage, and to the others what they had. */
  ghost predicate PageGranted(t: Tables, t': Tables, pd: Page, upage: Address, g: Option<Grant>)
    requires IsDirectory(t, pd) && IsDirectory(t', pd)
  {
    forall va :: IsUser(va) ==>
      Granted(t', pd, va) == if va & 0xfffff000 == upage then g else Granted(t, pd, va)
  }

  lemma GrantsFollow(t: Tables, t': Tables, pd: Page, upage: Address, m: Option<Mapping>)
    requires Inv(t, pd) && Inv(t', pd) && PgOfs(upage) == 0 && PageSet(t, t', pd, upage, m)
    ensures PageGranted(t, t', pd, upage, GrantFor(m))
  {
    forall va | IsUser(va)
      ensures Granted(t', pd, va) == if va & 0xfffff000 == upage then GrantFor(m) else Granted(t, pd, va)
    {
      PageOfAddress(va, upage);
      GrantedIsMapped(t, pd, va);
      GrantedIsMapped(t', pd, va);
    }
  }

  lemma NoneGranted(t: Tables, pd: Page)
    requires Inv(t, pd) && forall va :: IsUser(va) ==> Mapped(t, pd, va) == None
    ensures forall va :: IsUser(va) ==> Granted(t, pd, va) == None
  {
    forall va | IsUser(va) ensures Granted(t, pd, va) == None { GrantedIsMapped(t, pd, va); }
  }

  lemma SetAfterSame(t: Tables, t1: Tables, t2: Tables, pd: Page, upage: Address, m: Option<Mapping>)
    requires IsDirectory(t, pd) && IsDirectory(t1, pd) && IsDirectory(t2, pd)
    requires EntriesSame(t, t1, pd) && PageSet(t1, t2, pd, upage, m)
    ensures PageSet(t, t2, pd, upage, m)
  {
    forall va | IsUser(va) ensures Mapped(t1, pd, va) == Mapped(t, pd, va) {
      assert EntryAt(t1, pd, PdIndex(va), PtIndex(va)) == EntryAt(t, pd, PdIndex(va), PtIndex(va));
    }
  }

  lemma EntrySetMaps(t: Tables, t': Tables, pd: Page, upage: Address, e: bv32)
    requires IsDirectory(t, pd) && IsDirectory(t', pd) && IsUser(upage)
    requires EntrySet(t, t', pd, PdIndex(upage), PtIndex(upage), e)
    ensures PageSet(t, t', pd, upage, MappingOf(e))
  {
    forall va | IsUser(va)
      ensures Mapped(t', pd, va) == if SamePage(va, upage) then MappingOf(e) else Mapped(t, pd, va)
    {
      IndicesTellPages(va, upage);
    }
  }

  /** There is nothing to clear where nothing is present. */
  lemma NotMapped(t: Tables, pd: Page, upage: Address)
    requires Inv(t, pd) && IsUser(upage)
    requires t[pd][PdIndex(upage)] == 0 || !Present(EntryAt(t, pd, PdIndex(upage), PtIndex(upage)))
    ensures PageSet(t, t, pd, upage, None)
  {
    NothingIsPresent();
    if t[pd][PdIndex(upage)] == 0 { EmptyHasNoTable(t, pd, PdIndex(upage)); }
    forall va | IsUser(va) && SamePage(va, upage) ensures Mapped(t, pd, va) == None {
      IndicesTellPages(va, upage);
    }
  }

  class Mmu {
    var tables: Tables

    constructor ()
      ensures tables == map[]
    {
      tables := map[];
    }

    /** `pagedir_create`: a copy of the kernel's directory, if a page can be had for it. */
    method Create(page: Option<Page>, base: Page) returns (pd: Option<Page>)
      requires IsDirectory(tables, base) && forall i :: 0 <= i < USER_ENTRIES ==> tables[base][i] == 0
      requires page.Some? ==> page.value !in tables
      modifies this
      ensures pd == page
      ensures pd.None? ==> tables == old(tables)
      ensures pd.Some? ==>
                && tables == old(tables)[pd.value := old(tables)[base]] && Inv(tables, pd.value)
                && FramesDistinct(tables, pd.value)
                && forall va :: IsUser(va) ==>
                     Mapped(tables, pd.value, va) == None && Granted(tables, pd.value, va) == None
    {
      pd := page;
      if pd.Some? {
        tables := tables[pd.value := tables[base]];
        NothingIsPresent();
        forall i: nat | i < USER_ENTRIES ensures !HasTable(tables, pd.value, i) {
          EmptyHasNoTable(tables, pd.value, i);
        }
        NoneGranted(tables, pd.value);
      }
    }

    /** `lookup_page` for a user address: the place of its entry, with a new table if asked for and
        a page (`spare`) can be had. Mappings stay as they are. */
    method LookupPage(pd: Page, va: Address, create: bool, spare: Option<Page>) returns (pt: Option<Page>)
      requires Inv(tables, pd) && IsUser(va)
      requires spare.Some? ==> IsKernelPage(spare.value.address) && spare.value !in tables
      modifies this
      ensures Inv(tables, pd) && KernelPartSame(old(tables), tables, pd)
      ensures pt.None? <==> old(tables)[pd][PdIndex(va)] == 0 && (!create || spare.None?)
      ensures pt.None? || !create ==> tables == old(tables)
      ensures pt.Some? ==> HasTable(tables, pd, PdIndex(va)) && pt.value == TableAt(tables, pd, PdIndex(va))
      ensures EntriesSame(old(tables), tables, pd)
      ensures OthersSame(old(tables), tables, pd) && SpareAtMost(old(tables), tables, pd, spare)
    {
      var i := PdIndex(va);
      if tables[pd][i] == 0 {
        if !create || spare.None? { return None; }
        TableAdded(tables, pd, i, spare.value);
        NewTable(tables, pd, i, spare.value);
        OneTableMore(tables, pd, i, spare.value);
        tables := WithTable(tables, pd, i, spare.value);
      }
      pt := Some(TableAt(tables, pd, i));
    }

    /** `pagedir_set_page`. */
    method SetPage(pd: Page, upage: Address, kpage: Page, writable: bool, spare: Option<Page>) returns (ok: bool)
      requires Inv(tables, pd) && IsUser(upage) && PgOfs(upage) == 0 && IsKernelPage(kpage.address)
      requires Mapped(tables, pd, upage) == None
      requires spare.Some? ==> IsKernelPage(spare.value.address) && spare.value !in tables
      modifies this
      ensures Inv(tables, pd) && KernelPartSame(old(tables), tables, pd)
      ensures ok <==> old(tables)[pd][PdIndex(upage)] != 0 || spare.Some?
      ensures !ok ==> tables == old(tables)
      ensures ok ==> PageSet(old(tables), tables, pd, upage, Some(Mapping(kpage, writable)))
      ensures ok ==> PageGranted(old(tables), tables, pd, upage, Some(AccessTo(kpage, writable)))
      ensures OthersSame(old(tables), tables, pd)
      ensures FramesDistinct(old(tables), pd) && Fresh(old(tables), pd, kpage, spare) ==> FramesDistinct(tables, pd)
    {
      var pt := LookupPage(pd, upage, true, spare);
      if pt.None? { return false; }
      ghost var t1 := tables;
      if FramesDistinct(old(tables), pd) && Fresh(old(tables), pd, kpage, spare) {
        FreshAfterSpare(old(tables), t1, pd, spare, kpage);
      }
      WriteFrame(pd, upage, kpage, writable);
      OthersTwice(old(tables), t1, tables, pd, spare);
      SetAfterSame(old(tables), t1, tables, pd, upage, Some(Mapping(kpage, writable)));
      GrantsFollow(old(tables), tables, pd, upage, Some(Mapping(kpage, writable)));
      ok := true;
    }

    method WriteFrame(pd: Page, upage: Address, kpage: Page, writable: bool)
      requires Inv(tables, pd) && IsUser(upage) && HasTable(tables, pd, PdIndex(upage)) && IsKernelPage(kpage.address)
      modifies this
      ensures Inv(tables, pd) && KernelPartSame(old(tables), tables, pd)
      ensures PageSet(old(tables), tables, pd, upage, Some(Mapping(kpage, writable)))
      ensures OthersSame(old(tables), tables, pd)
      ensures FramesDistinct(old(tables), pd) && Unused(old(tables), pd, kpage) ==> FramesDistinct(tables, pd)
    {
      var e := UserEntry(kpage, writable);
      WriteEntry(pd, upage, e, Some(Mapping(kpage, writable)));
    }

    /** Writes an entry that means m. */
    method WriteEntry(pd: Page, upage: Address, e: bv32, ghost m: Option<Mapping>)
      requires Inv(tables, pd) && IsUser(upage) && HasTable(tables, pd, PdIndex(upage))
      requires InMemory(e) && ForUser(e) && m == MappingOf(e)
      modifies this
      ensures Inv(tables, pd) && KernelPartSame(old(tables), tables, pd)
      ensures PageSet(old(tables), tables, pd, upage, m)
      ensures OthersSame(old(tables), tables, pd) && SpareAtMost(old(tables), tables, pd, None)
      ensures FramesDistinct(old(tables), pd) && (m.Some? ==> Unused(old(tables), pd, m.value.frame)) ==>
                FramesDistinct(tables, pd)
    {
      var i, j := PdIndex(upage), PtIndex(upage);
      var pt := TableAt(tables, pd, i);
      ghost var t' := tables[pt := tables[pt][j := e]];
      EntryWritten(tables, pd, i, j, e);
      EntryWrittenTables(tables, pd, i, j, e);
      EntrySetMaps(tables, t', pd, upage, e);
      if FramesDistinct(tables, pd) && (m.Some? ==> Unused(tables, pd, m.value.frame)) {
        EntryKeepsDistinct(tables, t', pd, i, j, e);
      }
      tables := tables[pt := tables[pt][j := e]];
    }

    /** The entry for a user address, zero if there is none. */
    method FindEntry(pd: Page, va: Address) returns (e: bv32)
      requires Inv(tables, pd) && IsUser(va)
      modifies this
      ensures tables == old(tables) && e == EntryAt(tables, pd, PdIndex(va), PtIndex(va))
    {
      var pt := LookupPage(pd, va, false, None);
      if pt.None? {
        NoEntry(tables, pd, PdIndex(va), PtIndex(va));
        return 0;
      }
      FoundEntry(tables, pd, PdIndex(va), PtIndex(va));
      e := tables[pt.value][PtIndex(va)];
    }

    /** `pagedir_get_page`: the frame's address plus the offset, if the page is mapped. */
    method GetPage(pd: Page, uaddr: Address) returns (r: Option<Page>)
      requires Inv(tables, pd) && IsUser(uaddr)
      modifies this
      ensures tables == old(tables)
      ensures r == Reached(Granted(tables, pd, uaddr), uaddr)
    {
      var pte := FindEntry(pd, uaddr);
      EntriesInMemory(tables, pd, PdIndex(uaddr), PtIndex(uaddr));
      GrantedIsEntry(tables, pd, uaddr);
      EntryReaches(pte, uaddr);
      r := TranslateEntry(pte, uaddr);
    }

    /** `pagedir_clear_page`. */
    method ClearPage(pd: Page, upage: Address)
      requires Inv(tables, pd) && IsUser(upage) && PgOfs(upage) == 0
      modifies this
      ensures Inv(tables, pd) && KernelPartSame(old(tables), tables, pd)
      ensures PageSet(old(tables), tables, pd, upage, None)
      ensures PageGranted(old(tables), tables, pd, upage, None)
      ensures OthersSame(old(tables), tables, pd)
      ensures FramesDistinct(old(tables), pd) ==> FramesDistinct(tables, pd)
    {
      var pt := LookupPage(pd, upage, false, None);
      if pt.None? {
        NotMapped(tables, pd, upage);
        GrantsFollow(tables, tables, pd, upage, None);
        return;
      }
      ClearEntry(pd, upage, pt.value);
      GrantsFollow(old(tables), tables, pd, upage, None);
    }

    method ClearEntry(pd: Page, upage: Address, pt: Page)
      requires Inv(tables, pd) && IsUser(upage) && HasTable(tables, pd, PdIndex(upage))
      requires pt == TableAt(tables, pd, PdIndex(upage))
      modifies this
      ensures Inv(tables, pd) && KernelPartSame(old(tables), tables, pd)
      ensures PageSet(old(tables), tables, pd, upage, None)
      ensures OthersSame(old(tables), tables, pd)
      ensures FramesDistinct(old(tables), pd) ==> FramesDistinct(tables, pd)
    {
      var pte := tables[pt][PtIndex(upage)];
      if Present(pte) {
        ClearedEntry(pte);
        WriteEntry(pd, upage, pte & !PTE_P, None);
      } else {
        NotMapped(tables, pd, upage);
      }
    }

    /** The inner loop of `pagedir_destroy`. */
    method FreeFrames(pd: Page, i: nat) returns (frames: seq<Page>)
      requires Inv(tables, pd) && i < USER_ENTRIES && HasTable(tables, pd, i)
      ensures frames == Frames(tables[TableAt(tables, pd, i)], ENTRIES)
    {
      var pt := TableAt(tables, pd, i);
      frames := [];
      for j := 0 to ENTRIES
        invariant frames == Frames(tables[pt], j)
      {
        var pte := tables[pt][j];
        assert pte == EntryAt(tables, pd, i, j) && InMemory(EntryAt(tables, pd, i, j));
        if Present(pte) { frames := frames + [Target(pte)]; }
      }
    }

    /** `pagedir_destroy`: what it frees, in order. */
    method Destroy(pd: Page) returns (freed: seq<Page>)
      requires Inv(tables, pd)
      modifies this
      ensures freed == FreedTo(old(tables), pd, USER_ENTRIES) + [pd]
      ensures tables == old(tables) - (set p | p in freed)
    {
      freed := [];
      for i := 0 to USER_ENTRIES
        invariant tables == old(tables) && freed == FreedTo(tables, pd, i)
      {
        var pde := tables[pd][i];
        PresentHasTable(tables, pd, i);
        if Present(pde) {
          var frames := FreeFrames(pd, i);
          freed := freed + frames + [TableAt(tables, pd, i)];
        }
      }
      freed := freed + [pd];
      tables := tables - (set p | p in freed);
    }
  }

  method UserEntry(kpage: Page, writable: bool) returns (e: bv32)
    requires IsKernelPage(kpage.address)
    ensures InMemory(e) && ForUser(e) && MappingOf(e) == Some(Mapping(kpage, writable))
  {
    CreatedEntry(kpage, writable);
    e := PteCreateUser(kpage.address, writable);
  }

  lemma CreatedEntry(kpage: Page, writable: bool)
    requires IsKernelPage(kpage.address)
    ensures var e := PteCreateUser(kpage.address, writable);
            InMemory(e) && ForUser(e) && MappingOf(e) == Some(Mapping(kpage, writable))
  {
    PteRoundTrip(kpage.address, writable);
  }

  lemma PresentHasTable(t: Tables, pd: Page, i: nat)
    requires Inv(t, pd) && i < USER_ENTRIES
    ensures Present(t[pd][i]) <==> HasTable(t, pd, i)
  {
    NothingIsPresent();
  }

  // ---------- What is freed ----------

  /** The frames of the present ones among the first j entries of a table. */
  function Frames(table: seq<bv32>, j: nat): seq<Page>
    requires j <= |table|
  {
    if j == 0 then []
    else Frames(table, j - 1) + (if Present(table[j - 1]) && InMemory(table[j - 1]) then [Target(table[j - 1])] else [])
  }

  /** What is freed for the first i directory entries. */
  function FreedTo(t: Tables, pd: Page, i: nat): seq<Page>
    requires IsDirectory(t, pd) && i <= USER_ENTRIES
  {
    if i == 0 then []
    else FreedTo(t, pd, i - 1) + (if HasTable(t, pd, i - 1) then Freed(t, pd, i - 1) else [])
  }

  function Freed(t: Tables, pd: Page, i: nat): seq<Page>
    requires IsDirectory(t, pd) && i < USER_ENTRIES && HasTable(t, pd, i)
  {
    Frames(t[TableAt(t, pd, i)], ENTRIES) + [TableAt(t, pd, i)]
  }

  lemma Appended(a: seq<Page>, b: seq<Page>)
    requires NoDuplicates(a) && NoDuplicates(b) && forall p :: p in a ==> p !in b
    ensures NoDuplicates(a + b)
  {
    forall i, j | 0 <= i < j < |a + b| ensures (a + b)[i] != (a + b)[j] {
      if i < |a| <= j { assert a[i] in a && b[j - |a|] in b; }
    }
  }

  lemma {:induction false} FramesAre(t: Tables, pd: Page, i: nat, j: nat)
    requires Inv(t, pd) && FramesDistinct(t, pd) && i < USER_ENTRIES && j <= ENTRIES && HasTable(t, pd, i)
    ensures NoDuplicates(Frames(t[TableAt(t, pd, i)], j))
    ensures forall f :: f in Frames(t[TableAt(t, pd, i)], j) <==> exists l: nat :: l < j && Installed(t, pd, i, l, f)
  {
    if j > 0 {
      FramesAre(t, pd, i, j - 1);
      var table := t[TableAt(t, pd, i)];
      var e := table[j - 1];
      assert e == EntryAt(t, pd, i, j - 1);
      FramesStep(t, pd, i, j, e, Frames(table, j - 1));
    }
  }

  lemma FramesStep(t: Tables, pd: Page, i: nat, j: nat, e: bv32, frames: seq<Page>)
    requires IsDirectory(t, pd) && FramesDistinct(t, pd) && i < USER_ENTRIES && 0 < j <= ENTRIES
    requires e == EntryAt(t, pd, i, j - 1) && NoDuplicates(frames)
    requires forall f :: f in frames <==> exists l: nat :: l < j - 1 && Installed(t, pd, i, l, f)
    ensures var frames' := frames + (if Present(e) && InMemory(e) then [Target(e)] else []);
            && NoDuplicates(frames')
            && forall f :: f in frames' <==> exists l: nat :: l < j && Installed(t, pd, i, l, f)
  {
    if Present(e) && InMemory(e) {
      var f := Target(e);
      assert Installed(t, pd, i, j - 1, f);
      assert forall l: nat :: Installed(t, pd, i, l, f) ==> l == j - 1;
      Appended(frames, [f]);
    }
  }

  /** A page freed for a directory entry is its table or a frame in it. */
  lemma FreedAre(t: Tables, pd: Page, i: nat)
    requires Inv(t, pd) && FramesDistinct(t, pd) && i < USER_ENTRIES && HasTable(t, pd, i)
    ensures NoDuplicates(Freed(t, pd, i))
    ensures forall p :: p in Freed(t, pd, i) <==> p == TableAt(t, pd, i) || exists l: nat :: Installed(t, pd, i, l, p)
  {
    FramesAre(t, pd, i, ENTRIES);
    var pt := TableAt(t, pd, i);
    assert IsTable(t, pd, pt);
    Appended(Frames(t[pt], ENTRIES), [pt]);
  }

  lemma {:induction false} FreedToAre(t: Tables, pd: Page, i: nat)
    requires Inv(t, pd) && FramesDistinct(t, pd) && i <= USER_ENTRIES
    ensures NoDuplicates(FreedTo(t, pd, i))
    ensures forall p :: p in FreedTo(t, pd, i) <==> exists k: nat :: k < i && FreedAt(t, pd, k, p)
  {
    if i > 0 {
      var last := i - 1;
      FreedToAre(t, pd, last);
      if HasTable(t, pd, last) {
        FreedAre(t, pd, last);
        forall p | p in FreedTo(t, pd, last) ensures !FreedAt(t, pd, last, p) { NotFreedAgain(t, pd, last, p); }
        forall p ensures p in Freed(t, pd, last) <==> FreedAt(t, pd, last, p) { }
        Appended(FreedTo(t, pd, last), Freed(t, pd, last));
      }
    }
  }

  ghost predicate FreedAt(t: Tables, pd: Page, i: nat, p: Page)
    requires IsDirectory(t, pd)
  {
    i < USER_ENTRIES && HasTable(t, pd, i) && (p == TableAt(t, pd, i) || exists l: nat :: Installed(t, pd, i, l, p))
  }

  lemma FreedOnce(t: Tables, pd: Page, k: nat, i: nat, p: Page)
    requires Inv(t, pd) && FramesDistinct(t, pd) && k < i < USER_ENTRIES && FreedAt(t, pd, k, p)
    ensures !FreedAt(t, pd, i, p)
  {
  }

  lemma NotFreedAgain(t: Tables, pd: Page, i: nat, p: Page)
    requires Inv(t, pd) && FramesDistinct(t, pd) && i < USER_ENTRIES
    requires exists k: nat :: k < i && FreedAt(t, pd, k, p)
    ensures !FreedAt(t, pd, i, p)
  {
    var k: nat :| k < i && FreedAt(t, pd, k, p);
    FreedOnce(t, pd, k, i, p);
  }

  lemma FreedIsOwned(t: Tables, pd: Page, p: Page)
    requires Inv(t, pd)
    ensures (exists k: nat :: k < USER_ENTRIES && FreedAt(t, pd, k, p)) <==> IsTable(t, pd, p) || IsFrame(t, pd, p)
  {
    NothingIsPresent();
    if IsTable(t, pd, p) {
      var i: nat :| i < USER_ENTRIES && HasTable(t, pd, i) && TableAt(t, pd, i) == p;
      assert FreedAt(t, pd, i, p);
    }
    if IsFrame(t, pd, p) {
      var i: nat, j: nat :| Installed(t, pd, i, j, p);
      assert FreedAt(t, pd, i, p);
    }
  }

  /** A frame some user address maps to is installed. */
  lemma MappedIsFrame(t: Tables, pd: Page, va: Address)
    requires IsDirectory(t, pd) && IsUser(va) && Mapped(t, pd, va).Some?
    ensures IsFrame(t, pd, Mapped(t, pd, va).value.frame)
  {
    assert Installed(t, pd, PdIndex(va), PtIndex(va), Mapped(t, pd, va).value.frame);
  }

  /** Destroying a directory frees every frame still mapped, every page table and the directory, each
      exactly once, provided no frame was installed twice. */
  lemma DestroyFreesExactly(t: Tables, pd: Page)
    requires Inv(t, pd) && FramesDistinct(t, pd)
    ensures var freed := FreedTo(t, pd, USER_ENTRIES) + [pd];
            && NoDuplicates(freed)
            && (forall p :: p in freed <==> p == pd || IsTable(t, pd, p) || IsFrame(t, pd, p))
            && forall va :: IsUser(va) && Mapped(t, pd, va).Some? ==> Mapped(t, pd, va).value.frame in freed
  {
    forall va | IsUser(va) && Mapped(t, pd, va).Some? ensures IsFrame(t, pd, Mapped(t, pd, va).value.frame) {
      MappedIsFrame(t, pd, va);
    }
    FreedToAre(t, pd, USER_ENTRIES);
    forall p ensures p in FreedTo(t, pd, USER_ENTRIES) <==> IsTable(t, pd, p) || IsFrame(t, pd, p) {
      FreedIsOwned(t, pd, p);
    }
    Appended(FreedTo(t, pd, USER_ENTRIES), [pd]);
  }
}
