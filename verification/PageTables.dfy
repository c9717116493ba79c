/** Two-level x86 page tables (pintos/src/userprog/pagedir.c, pintos/src/threads/pte.h): entries as
    bit masks, a page directory and its page tables in kernel memory, and the map from user pages to
    frames that they stand for. */
module PageTables {
  import opened Options

  type Address = bv32

  const PHYS_BASE: bv32 := 0xc0000000
  const PTE_ADDR: bv32 := 0xfffff000
  const PGMASK: bv32 := 0xfff
  const PTE_P: bv32 := 1
  const PTE_W: bv32 := 2
  const PTE_U: bv32 := 4

  const ENTRIES: nat := 1024
  const USER_ENTRIES: nat := 768

  // ---------- Entries ----------

  function PgOfs(va: Address): bv32 { va & PGMASK }

  function PtNo(va: Address): bv10 { ((va & 0x3ff000) >> 12) as bv10 }

  function PdNo(va: Address): bv10 { (va >> 22) as bv10 }

  predicate IsUser(va: Address) { va < PHYS_BASE }

  function Vtop(va: Address): bv32
    requires !IsUser(va)
  {
    va - PHYS_BASE
  }

  /** The precondition is the source's assertion. */
  function Ptov(pa: bv32): Address
    requires pa < PHYS_BASE
  {
    pa + PHYS_BASE
  }

  /** A page of kernel memory. */
  predicate IsKernelPage(page: Address) { !IsUser(page) && PgOfs(page) == 0 }

  function PdeCreate(pt: Address): bv32
    requires IsKernelPage(pt)
  {
    Vtop(pt) | PTE_U | PTE_P | PTE_W
  }

  function PdeGetPt(pde: bv32): Address
    requires pde & PTE_P != 0 && pde & PTE_ADDR < PHYS_BASE
  {
    Ptov(pde & PTE_ADDR)
  }

  function PteCreateKernel(page: Address, writable: bool): bv32
    requires IsKernelPage(page)
  {
    Vtop(page) | PTE_P | (if writable then PTE_W else 0)
  }

  function PteCreateUser(page: Address, writable: bool): bv32
    requires IsKernelPage(page)
  {
    PteCreateKernel(page, writable) | PTE_U
  }

  function PteGetPage(pte: bv32): Address
    requires pte & PTE_ADDR < PHYS_BASE
  {
    Ptov(pte & PTE_ADDR)
  }

  predicate Present(e: bv32) { e & PTE_P != 0 }

  predicate Writable(e: bv32) { e & PTE_W != 0 }

  /** An entry made for a page gives the page back, present and with the permission asked for. */
  lemma PteRoundTrip(page: Address, writable: bool)
    requires IsKernelPage(page)
    ensures var e := PteCreateUser(page, writable);
            && e & 1 != 0 && (e & 2 != 0 <==> writable) && e & 4 != 0
            && Present(e) && (Writable(e) <==> writable)
            && e & PTE_ADDR < PHYS_BASE && PteGetPage(e) == page
  {
  }

  /** A directory entry made for a table gives it back, and has the present, write and user bits. */
  lemma PdeRoundTrip(pt: Address)
    requires IsKernelPage(pt)
    ensures var e := PdeCreate(pt);
            && Present(e) && e != 0 && e & PTE_ADDR < PHYS_BASE && PdeGetPt(e) == pt
            && e & 1 != 0 && e & 2 != 0 && e & 4 != 0
  {
  }

  /** Clearing the present bit leaves the rest of an entry. */
  lemma ClearedEntry(e: bv32)
    ensures !Present(e & !PTE_P) && (e & !PTE_P) & PTE_ADDR == e & PTE_ADDR
  {
  }

  // ---------- The processor ----------

  /** What the processor lets a user do at an address: the physical page, and whether to write it. */
  datatype Grant = Grant(physical: bv32, writable: bool)

  /** Bits 0, 1 and 2 of both entries say present, writable and user. */
  function GrantOf(pde: bv32, pte: bv32): Option<Grant> {
    if pde & 1 == 0 || pde & 4 == 0 || pte & 1 == 0 || pte & 4 == 0 then None
    else Some(Grant(pte & 0xfffff000, pde & 2 != 0 && pte & 2 != 0))
  }

  lemma FlagBits(e: bv32)
    ensures (Present(e) <==> e & 1 != 0) && (Writable(e) <==> e & 2 != 0)
  {
  }

  lemma AddressBits(e: bv32)
    requires e & PTE_ADDR < PHYS_BASE
    ensures PteGetPage(e) - 0xc0000000 == e & 0xfffff000
  {
  }

  /** The access that an entry for a page gives, in a table open to users. */
  function EntryGrant(e: bv32): Option<Grant> {
    if e & 1 == 0 then None else Some(Grant(e & 0xfffff000, e & 2 != 0))
  }

  /** The directory entry lets users read and write; what the page's own entry says decides. */
  predicate LetsUsers(pde: bv32) { pde & 2 != 0 && pde & 4 != 0 }

  lemma GrantIs(pde: bv32, pte: bv32)
    requires pde & 1 != 0 && LetsUsers(pde) && (pte & 1 != 0 ==> pte & 4 != 0)
    ensures GrantOf(pde, pte) == EntryGrant(pte)
  {
  }

  lemma OffsetAdded(a: Address, b: Address, va: Address)
    requires a == b
    ensures a + PgOfs(va) == b + (va & 0xfff)
  {
  }

  /** Where the kernel sees physical memory. */
  function KernelAddress(physical: bv32): Address { physical + 0xc0000000 }

  /** The top ten bits of an address. */
  function Top(va: Address): bv10 {
    IndexFits(va);
    (va >> 22) as bv10
  }

  /** The next ten. */
  function Middle(va: Address): bv10 { ((va >> 12) & 0x3ff) as bv10 }

  lemma MiddleBits(va: Address)
    ensures (va >> 12) & 0x3ff == (va & 0x3ff000) >> 12
  {
  }

  lemma IndicesAreBits(va: Address)
    ensures PdNo(va) == Top(va) && PtNo(va) == Middle(va)
  {
    MiddleBits(va);
  }

  lemma PageOfAddress(va: Address, page: Address)
    requires PgOfs(page) == 0
    ensures va & 0xfffff000 == page <==> va & PTE_ADDR == page & PTE_ADDR
  {
  }

  lemma ShiftsSeePage(va: Address)
    ensures (va & PTE_ADDR) >> 22 == va >> 22 && ((va & PTE_ADDR) & 0x3ff000) >> 12 == (va & 0x3ff000) >> 12
  {
  }

  lemma ShiftsTellPages(va: Address, vb: Address)
    requires va >> 22 == vb >> 22 && (va & 0x3ff000) >> 12 == (vb & 0x3ff000) >> 12
    ensures va & PTE_ADDR == vb & PTE_ADDR
  {
  }

  lemma ShiftedArePage(va: Address, vb: Address)
    ensures va >> 22 == vb >> 22 && (va & 0x3ff000) >> 12 == (vb & 0x3ff000) >> 12 <==> va & PTE_ADDR == vb & PTE_ADDR
  {
    if va & PTE_ADDR == vb & PTE_ADDR {
      ShiftsSeePage(va);
      ShiftsSeePage(vb);
    } else if va >> 22 == vb >> 22 && (va & 0x3ff000) >> 12 == (vb & 0x3ff000) >> 12 {
      ShiftsTellPages(va, vb);
    }
  }

  lemma IndexFits(va: Address)
    ensures va >> 22 < 1024 && (va & 0x3ff000) >> 12 < 1024
  {
  }

  lemma NarrowedEqual(x: bv32, y: bv32)
    requires x < 1024 && y < 1024
    ensures x as bv10 == y as bv10 <==> x == y
  {
  }

  /** The two indices tell pages apart. */
  lemma IndicesArePage(va: Address, vb: Address)
    ensures PdNo(va) == PdNo(vb) && PtNo(va) == PtNo(vb) <==> va & PTE_ADDR == vb & PTE_ADDR
  {
    IndexFits(va);
    IndexFits(vb);
    NarrowedEqual(va >> 22, vb >> 22);
    NarrowedEqual((va & 0x3ff000) >> 12, (vb & 0x3ff000) >> 12);
    ShiftedArePage(va, vb);
  }

  lemma IndexIsNumber(x: bv10, y: bv10)
    ensures x as nat == y as nat <==> x == y
  {
  }

  lemma UserIndex(va: Address)
    ensures IsUser(va) <==> PdNo(va) < 768
  {
  }
}
