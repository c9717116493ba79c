/** Loading the segments of an ELF executable (pintos/src/userprog/load.c): checking the header's
    32-bit sizes, and filling and mapping the pages of a segment. */
module Load {
  import opened Bytes
  import opened Options

  const PGSIZE: nat := 4096
  const PHYS_BASE: nat := 0xc000_0000
  const TWO_32: nat := 0x1_0000_0000

  type u32 = x: int | 0 <= x < TWO_32

  const PT_LOAD: u32 := 1
  const PT_DYNAMIC: u32 := 2
  const PT_INTERP: u32 := 3
  const PT_SHLIB: u32 := 5

  /** `struct Elf32_Phdr`; `writable` is the flag PF_W. */
  datatype Phdr = Phdr(kind: u32, offset: u32, vaddr: u32, filesz: u32, memsz: u32, writable: bool)

  /** A page of the new process, by what it holds. */
  datatype Page = Page(bytes: seq<byte>, writable: bool)

  type Space = map<nat, Page>

  function Wrap(x: int): u32 { x % TWO_32 }

  function PageOffset(a: u32): u32 { a % PGSIZE }

  function PageStart(a: u32): u32 { a - a % PGSIZE }

  /** `ROUND_UP (x, PGSIZE)` in 32 bits. */
  function RoundUp(x: u32): u32 { Wrap(x + PGSIZE - 1) / PGSIZE * PGSIZE }

  predicate ValidateSegment(p: Phdr, fileLength: nat) {
    && PageOffset(p.offset) == PageOffset(p.vaddr)
    && p.offset <= fileLength
    && p.memsz >= p.filesz
    && p.memsz != 0
    && p.vaddr < PHYS_BASE
    && Wrap(p.vaddr + p.memsz) < PHYS_BASE
    && !(Wrap(p.vaddr + p.memsz) < p.vaddr)
    && p.vaddr >= PGSIZE
  }

  function ReadBytes(p: Phdr): u32 {
    if p.filesz > 0 then Wrap(PageOffset(p.vaddr) + p.filesz) else 0
  }

  function ZeroBytes(p: Phdr): u32 {
    if p.filesz > 0 then Wrap(RoundUp(Wrap(PageOffset(p.vaddr) + p.memsz)) - ReadBytes(p))
    else RoundUp(Wrap(PageOffset(p.vaddr) + p.memsz))
  }

  lemma WrapSmall(x: int)
    requires 0 <= x < TWO_32
    ensures Wrap(x) == x
  {
  }

  lemma RoundUpIs(x: u32)
    requires x + PGSIZE <= TWO_32
    ensures RoundUp(x) % PGSIZE == 0 && x <= RoundUp(x) < x + PGSIZE
  {
    WrapSmall(x + PGSIZE - 1);
  }

  /** An accepted segment ends below the kernel, in true arithmetic. */
  lemma AcceptedEnd(p: Phdr, fileLength: nat)
    requires ValidateSegment(p, fileLength)
    ensures p.vaddr + p.memsz < PHYS_BASE && PageOffset(p.vaddr) + p.filesz <= PageOffset(p.vaddr) + p.memsz < PHYS_BASE
  {
    if p.vaddr + p.memsz < TWO_32 { WrapSmall(p.vaddr + p.memsz); }
  }

  /** What `validate_segment` accepts, in true arithmetic: the file and the memory offset agree, the
      file starts it, it has as much memory as file, it is not empty, and lies above page zero and
      below the kernel. */
  predicate Acceptable(p: Phdr, fileLength: nat) {
    && p.offset % 4096 == p.vaddr % 4096 && p.offset <= fileLength
    && p.filesz <= p.memsz && 0 < p.memsz
    && 4096 <= p.vaddr && p.vaddr + p.memsz < 0xc000_0000
  }

  lemma AcceptedIff(p: Phdr, fileLength: nat)
    ensures ValidateSegment(p, fileLength) <==> Acceptable(p, fileLength)
  {
    if p.vaddr + p.memsz < TWO_32 { WrapSmall(p.vaddr + p.memsz); }
  }

  lemma AlignedSum(start: nat, total: nat, end: nat)
    requires start % PGSIZE == 0 && total % PGSIZE == 0 && start + total < end + PGSIZE && end % PGSIZE == 0
    ensures start + total <= end
  {
  }

  lemma PageStartIs(a: u32)
    ensures PageStart(a) % PGSIZE == 0 && PageStart(a) + PageOffset(a) == a && 0 <= PageOffset(a) < PGSIZE
  {
  }

  /** For a header that is accepted none of the 32-bit sums and differences wraps around: the sizes are
      what they say, whole pages, all of them below the kernel and not at page zero. */
  lemma AcceptedSizes(p: Phdr, fileLength: nat)
    requires ValidateSegment(p, fileLength) && fileLength < 0x8000_0000
    ensures ReadBytes(p) == (if p.filesz > 0 then PageOffset(p.vaddr) + p.filesz else 0)
    ensures var total := ReadBytes(p) + ZeroBytes(p);
            && total % PGSIZE == 0 && PageOffset(p.vaddr) + p.memsz <= total < PageOffset(p.vaddr) + p.memsz + PGSIZE
            && PageStart(p.vaddr) + total <= PHYS_BASE
    ensures PageStart(p.vaddr) % PGSIZE == 0 && PageStart(p.vaddr) >= PGSIZE
    ensures PageStart(p.offset) % PGSIZE == 0 && PageStart(p.offset) < 0x8000_0000
  {
    AcceptedEnd(p, fileLength);
    PageStartIs(p.vaddr);
    PageStartIs(p.offset);
    var need := PageOffset(p.vaddr) + p.memsz;
    WrapSmall(need);
    WrapSmall(PageOffset(p.vaddr) + p.filesz);
    RoundUpIs(need);
    WrapSmall(RoundUp(need) - ReadBytes(p));
    AlignedSum(PageStart(p.vaddr), RoundUp(need), PHYS_BASE);
    AcceptedStart(p);
  }

  lemma AcceptedStart(p: Phdr)
    requires p.vaddr >= PGSIZE
    ensures PageStart(p.vaddr) >= PGSIZE
  {
  }

  // ---------- One segment ----------

  /** Page k of a segment: file bytes up to readBytes, zeros after. */
  function SegmentPage(file: seq<byte>, ofs: nat, readBytes: nat, k: nat): seq<byte>
    requires readBytes > 0 ==> ofs + readBytes <= |file|
  {
    seq(PGSIZE, i requires 0 <= i < PGSIZE => if PGSIZE * k + i < readBytes then file[ofs + PGSIZE * k + i] else 0)
  }

  /** The first n pages of a segment. */
  function SegmentPages(file: seq<byte>, ofs: nat, upage: nat, readBytes: nat, writable: bool, n: nat): Space
    requires readBytes > 0 ==> ofs + readBytes <= |file|
  {
    if n == 0 then map[]
    else SegmentPages(file, ofs, upage, readBytes, writable, n - 1)[
           upage + PGSIZE * (n - 1) := Page(SegmentPage(file, ofs, readBytes, n - 1), writable)]
  }

  lemma {:induction false} SegmentPageAt(file: seq<byte>, ofs: nat, upage: nat, readBytes: nat, writable: bool,
                                         n: nat, k: nat)
    requires (readBytes > 0 ==> ofs + readBytes <= |file|) && k < n
    ensures var pages := SegmentPages(file, ofs, upage, readBytes, writable, n);
            && upage + PGSIZE * k in pages
            && pages[upage + PGSIZE * k] == Page(SegmentPage(file, ofs, readBytes, k), writable)
  {
    if k < n - 1 { SegmentPageAt(file, ofs, upage, readBytes, writable, n - 1, k); }
  }

  /** Exactly the pages of the segment, from its first page on. */
  lemma {:induction false} SegmentPagesAre(file: seq<byte>, ofs: nat, upage: nat, readBytes: nat, writable: bool,
                                           n: nat, a: nat)
    requires readBytes > 0 ==> ofs + readBytes <= |file|
    ensures a in SegmentPages(file, ofs, upage, readBytes, writable, n)
            <==> upage <= a < upage + PGSIZE * n && (a - upage) % PGSIZE == 0
  {
    if n > 0 { SegmentPagesAre(file, ofs, upage, readBytes, writable, n - 1, a); }
  }

  /** When a segment can be read: it asks for nothing, or the file is long enough. */
  predicate Readable(file: seq<byte>, ofs: nat, readBytes: nat) {
    readBytes > 0 ==> ofs + readBytes <= |file|
  }

  /** When a segment's pages can be loaded: memory lasts for them, the bytes can be read, and none of the
      pages is mapped. */
  ghost predicate PagesLoad(file: seq<byte>, ofs: nat, upage: nat, readBytes: nat, pages: nat, space: Space,
                            failAt: Option<nat>) {
    && !(failAt.Some? && failAt.value < pages) && Readable(file, ofs, readBytes)
    && forall k: nat :: k < pages ==> upage + PGSIZE * k !in space
  }

  /** `file_read` from a position into a fresh page, of which the rest is then zeroed. */
  method FillPage(file: seq<byte>, pos: nat, pageReadBytes: nat) returns (page: Option<seq<byte>>)
    requires pageReadBytes <= PGSIZE
    ensures page.Some? <==> Readable(file, pos, pageReadBytes)
    ensures page.Some? ==> |page.value| == PGSIZE
                           && forall i :: 0 <= i < PGSIZE ==>
                                page.value[i] == if i < pageReadBytes then file[pos + i] else 0
  {
    if pageReadBytes > 0 && pos + pageReadBytes > |file| { return None; }
    var bytes := if pageReadBytes > 0 then file[pos..pos + pageReadBytes] else [];
    page := Some(bytes + seq(PGSIZE - pageReadBytes, i => 0));
  }

  class Process {
    var space: Space

    constructor ()
      ensures space == map[]
    {
      space := map[];
    }

    /** `load_segment`. Memory for a page, its page table or a bounce buffer runs out at page
        `failAt`, if at all. */
    method LoadSegment(file: seq<byte>, ofs: nat, upage0: nat, readBytes0: nat, zeroBytes0: nat, writable: bool,
                       failAt: Option<nat>) returns (ok: bool)
      requires (readBytes0 + zeroBytes0) % PGSIZE == 0 && upage0 % PGSIZE == 0 && ofs % PGSIZE == 0
      modifies this
      ensures ok <==> PagesLoad(file, ofs, upage0, readBytes0, (readBytes0 + zeroBytes0) / PGSIZE, old(space), failAt)
      ensures ok ==> Readable(file, ofs, readBytes0)
                     && var pages := SegmentPages(file, ofs, upage0, readBytes0, writable,
                                                     (readBytes0 + zeroBytes0) / PGSIZE);
                        space == old(space) + pages && pages.Keys !! old(space).Keys
      ensures Kept(old(space), space)
    {
      var readBytes: nat, zeroBytes: nat, upage: nat, pos: nat := readBytes0, zeroBytes0, upage0, ofs;
      var k: nat := 0;
      while readBytes > 0 || zeroBytes > 0
        invariant Left(readBytes0, zeroBytes0, readBytes, zeroBytes, k)
        invariant !(failAt.Some? && failAt.value < k)
        invariant upage == upage0 + PGSIZE * k && pos == ofs + (readBytes0 - readBytes)
        invariant Readable(file, ofs, readBytes0 - readBytes)
        invariant LoadedTo(old(space), space, file, ofs, upage0, readBytes0, writable, k)
        decreases readBytes + zeroBytes
      {
        OnePageLess(readBytes0, zeroBytes0, readBytes, zeroBytes, k);
        var pageReadBytes: nat := if readBytes < PGSIZE then readBytes else PGSIZE;
        var pageZeroBytes: nat := PGSIZE - pageReadBytes;
        if failAt == Some(k) { return false; }
        var kpage := FillPage(file, pos, pageReadBytes);
        if kpage.None? {
          PartUnreadable(file, ofs, readBytes0, readBytes, pageReadBytes);
          return false;
        }
        if upage in space {
          assert upage0 + PGSIZE * k in old(space);
          return false;
        }
        PageAdded(file, ofs, upage0, readBytes0, writable, k, readBytes, pos, kpage.value, old(space), space);
        space := space[upage := Page(kpage.value, writable)];
        readBytes := readBytes - pageReadBytes;
        zeroBytes := zeroBytes - pageZeroBytes;
        pos := pos + pageReadBytes;
        upage := upage + PGSIZE;
        k := k + 1;
      }
      AllPages(readBytes0, zeroBytes0, k);
      NoneMapped(file, ofs, upage0, readBytes0, writable, k, old(space));
      ok := true;
    }
  }

  /** What is left of a segment after k pages. */
  predicate Left(readBytes0: nat, zeroBytes0: nat, readBytes: nat, zeroBytes: nat, k: nat) {
    && (readBytes0 + zeroBytes0) % PGSIZE == 0
    && readBytes + zeroBytes + PGSIZE * k == readBytes0 + zeroBytes0
    && readBytes == if readBytes0 < PGSIZE * k then 0 else readBytes0 - PGSIZE * k
  }

  /** Another page neither reads nor zeroes more than is left: no counter goes below zero. */
  lemma OnePageLess(readBytes0: nat, zeroBytes0: nat, readBytes: nat, zeroBytes: nat, k: nat)
    requires Left(readBytes0, zeroBytes0, readBytes, zeroBytes, k) && (readBytes > 0 || zeroBytes > 0)
    ensures var pageReadBytes := if readBytes < PGSIZE then readBytes else PGSIZE;
            && PGSIZE - pageReadBytes <= zeroBytes
            && Left(readBytes0, zeroBytes0, readBytes - pageReadBytes, zeroBytes - (PGSIZE - pageReadBytes), k + 1)
            && k < (readBytes0 + zeroBytes0) / PGSIZE
  {
    assert (readBytes + zeroBytes) % PGSIZE == 0;
  }

  lemma AllPages(readBytes0: nat, zeroBytes0: nat, k: nat)
    requires Left(readBytes0, zeroBytes0, 0, 0, k)
    ensures k == (readBytes0 + zeroBytes0) / PGSIZE
  {
  }

  lemma NoneMapped(file: seq<byte>, ofs: nat, upage: nat, readBytes: nat, writable: bool, n: nat, before: Space)
    requires Readable(file, ofs, readBytes)
    requires SegmentPages(file, ofs, upage, readBytes, writable, n).Keys !! before.Keys
    ensures forall k: nat :: k < n ==> upage + PGSIZE * k !in before
  {
    forall k: nat | k < n ensures upage + PGSIZE * k !in before {
      SegmentPageAt(file, ofs, upage, readBytes, writable, n, k);
    }
  }

  lemma PartUnreadable(file: seq<byte>, ofs: nat, readBytes0: nat, readBytes: nat, n: nat)
    requires n <= readBytes <= readBytes0 && !Readable(file, ofs + (readBytes0 - readBytes), n)
    ensures !Readable(file, ofs, readBytes0)
  {
  }

  ghost predicate Kept(before: Space, space: Space) {
    forall a: nat :: a in before ==> a in space && space[a] == before[a]
  }

  /** The first k pages are there, and nothing else is new. */
  ghost predicate LoadedTo(before: Space, space: Space, file: seq<byte>, ofs: nat, upage: nat, readBytes: nat,
                           writable: bool, k: nat) {
    && (Readable(file, ofs, readBytes) ==>
          && space == before + SegmentPages(file, ofs, upage, readBytes, writable, k)
          && SegmentPages(file, ofs, upage, readBytes, writable, k).Keys !! before.Keys)
    && Kept(before, space)
    && forall a: nat :: a in space ==> a in before || a < upage + PGSIZE * k
  }

  lemma PageAdded(file: seq<byte>, ofs: nat, upage0: nat, readBytes0: nat, writable: bool, k: nat, readBytes: nat,
                  pos: nat, page: seq<byte>, before: Space, space: Space)
    requires LoadedTo(before, space, file, ofs, upage0, readBytes0, writable, k) && upage0 + PGSIZE * k !in space
    requires readBytes == if readBytes0 < PGSIZE * k then 0 else readBytes0 - PGSIZE * k
    requires pos == ofs + (readBytes0 - readBytes) && |page| == PGSIZE
    requires var n := if readBytes < PGSIZE then readBytes else PGSIZE;
             Readable(file, pos, n)
             && forall i :: 0 <= i < PGSIZE ==> page[i] == if i < n then file[pos + i] else 0
    ensures LoadedTo(before, space[upage0 + PGSIZE * k := Page(page, writable)],
                     file, ofs, upage0, readBytes0, writable, k + 1)
  {
    if Readable(file, ofs, readBytes0) {
      assert page == SegmentPage(file, ofs, readBytes0, k);
      assert SegmentPages(file, ofs, upage0, readBytes0, writable, k + 1).Keys
          == SegmentPages(file, ofs, upage0, readBytes0, writable, k).Keys + {upage0 + PGSIZE * k};
    }
  }

  // ---------- A program header ----------

  /** The byte at a user address, if its page is mapped. */
  function ByteAt(space: Space, a: nat): Option<byte> {
    var page := a - a % PGSIZE;
    if page in space && a % PGSIZE < |space[page].bytes| then Some(space[page].bytes[a % PGSIZE]) else None
  }

  predicate WritableAt(space: Space, a: nat, writable: bool) {
    var page := a - a % PGSIZE;
    page in space && space[page].writable == writable
  }

  /** Byte b of a segment: from the file, or zero past the part that the file holds, on a page that is
      writable if the segment is. */
  predicate ByteInMemory(p: Phdr, file: seq<byte>, space: Space, b: nat)
    requires p.filesz > 0 ==> p.offset + p.filesz <= |file|
  {
    && ByteAt(space, p.vaddr + b) == Some(if b < p.filesz then file[p.offset + b] else 0)
    && WritableAt(space, p.vaddr + b, p.writable)
  }

  /** What the ELF specification asks of a loadable segment: its bytes in the file at its address,
      followed by zeros up to its size in memory, with its permission. */
  ghost predicate SegmentInMemory(p: Phdr, file: seq<byte>, space: Space) {
    && (p.filesz > 0 ==> p.offset + p.filesz <= |file|)
    && forall b: nat :: b < p.memsz ==> ByteInMemory(p, file, space, b)
  }

  function PageCount(p: Phdr): nat { (ReadBytes(p) + ZeroBytes(p)) / PGSIZE }

  function PagesOf(p: Phdr, file: seq<byte>): Space
    requires Readable(file, PageStart(p.offset), ReadBytes(p))
  {
    SegmentPages(file, PageStart(p.offset), PageStart(p.vaddr), ReadBytes(p), p.writable, PageCount(p))
  }

  lemma ByteOfSegment(p: Phdr, file: seq<byte>, b: nat)
    requires ValidateSegment(p, |file|) && |file| < 0x8000_0000 && b < p.memsz
    requires Readable(file, PageStart(p.offset), ReadBytes(p))
    ensures p.filesz > 0 ==> p.offset + p.filesz <= |file|
    ensures ByteInMemory(p, file, PagesOf(p, file), b)
  {
    AcceptedSizes(p, |file|);
    PageStartIs(p.vaddr);
    PageStartIs(p.offset);
    var at := PageOffset(p.vaddr) + b;
    var k: nat := at / PGSIZE;
    assert p.vaddr + b == PageStart(p.vaddr) + PGSIZE * k + at % PGSIZE;
    AlignedByte(PageStart(p.vaddr), at);
    SegmentPageAt(file, PageStart(p.offset), PageStart(p.vaddr), ReadBytes(p), p.writable, PageCount(p), k);
    assert PGSIZE * k + at % PGSIZE == at;
  }

  lemma AlignedByte(start: nat, at: nat)
    requires start % PGSIZE == 0
    ensures (start + at) % PGSIZE == at % PGSIZE && start + at - (start + at) % PGSIZE == start + PGSIZE * (at / PGSIZE)
  {
  }

  /** A header that is accepted and loaded has its segment in memory. */
  lemma LoadedSegmentInMemory(p: Phdr, file: seq<byte>, before: Space)
    requires ValidateSegment(p, |file|) && |file| < 0x8000_0000
    requires Readable(file, PageStart(p.offset), ReadBytes(p))
    ensures SegmentInMemory(p, file, before + PagesOf(p, file))
  {
    AcceptedSizes(p, |file|);
    PageStartIs(p.offset);
    forall b: nat | b < p.memsz ensures ByteInMemory(p, file, before + PagesOf(p, file), b) {
      ByteOfSegment(p, file, b);
    }
  }

  /** Mapping more pages leaves the segments loaded before. */
  lemma SegmentKept(p: Phdr, file: seq<byte>, before: Space, space: Space)
    requires SegmentInMemory(p, file, before) && Kept(before, space)
    ensures SegmentInMemory(p, file, space)
  {
    forall b: nat | b < p.memsz ensures ByteInMemory(p, file, space, b) {
      assert ByteInMemory(p, file, before, b);
    }
  }

  predicate Refused(p: Phdr) { p.kind == PT_DYNAMIC || p.kind == PT_INTERP || p.kind == PT_SHLIB }

  // ---------- All program headers ----------

  /** The page at a holds some of the segment. */
  predicate PageHolds(p: Phdr, a: nat) { a % 4096 == 0 && p.vaddr < a + 4096 && a < p.vaddr + p.memsz }

  /** How many pages the segment touches. */
  function PagesTouched(p: Phdr): nat { (p.vaddr % 4096 + p.memsz + 4095) / 4096 }

  /** The segment can be loaded into this space: it is acceptable, its bytes are in the file, none of
      its pages is taken, and memory does not run out within them. */
  ghost predicate CanLoad(p: Phdr, file: seq<byte>, space: Space, failAt: Option<nat>) {
    && Acceptable(p, |file|) && p.offset + p.filesz <= |file|
    && (forall a: nat :: PageHolds(p, a) ==> a !in space)
    && !(failAt.Some? && failAt.value < PagesTouched(p))
  }

  /** No two of the first n segments share a page. */
  ghost predicate PagesApart(phdrs: seq<Phdr>, n: nat)
    requires n <= |phdrs|
  {
    forall i, j, a: nat :: 0 <= i < j < n && phdrs[i].kind == 1 && phdrs[j].kind == 1 && PageHolds(phdrs[i], a) ==>
      !PageHolds(phdrs[j], a)
  }

  /** When the first n headers load: none is of a kind refused (2, 3 and 5), and every loadable one
      (1) can be loaded, on pages of its own. */
  ghost predicate AllLoad(phdrs: seq<Phdr>, file: seq<byte>, space: Space, failAt: seq<Option<nat>>, n: nat)
    requires n <= |phdrs| == |failAt|
  {
    && (forall i :: 0 <= i < n ==> phdrs[i].kind !in {2, 3, 5})
    && (forall i :: 0 <= i < n && phdrs[i].kind == 1 ==> CanLoad(phdrs[i], file, space, failAt[i]))
    && PagesApart(phdrs, n)
  }

  ghost predicate HeldByOne(phdrs: seq<Phdr>, n: nat, a: nat)
    requires n <= |phdrs|
  {
    exists i :: 0 <= i < n && phdrs[i].kind == 1 && PageHolds(phdrs[i], a)
  }

  /** The space holds the pages it did and those of the first n segments. */
  ghost predicate SpaceIs(before: Space, space: Space, phdrs: seq<Phdr>, n: nat)
    requires n <= |phdrs|
  {
    forall a: nat :: a in space <==> a in before || HeldByOne(phdrs, n, a)
  }

  lemma CountIsTouched(p: Phdr, fileLength: nat)
    requires ValidateSegment(p, fileLength) && fileLength < 0x8000_0000
    ensures PageCount(p) == PagesTouched(p)
  {
    AcceptedSizes(p, fileLength);
  }

  lemma ReadableIff(p: Phdr, file: seq<byte>)
    requires ValidateSegment(p, |file|) && |file| < 0x8000_0000
    ensures Readable(file, PageStart(p.offset), ReadBytes(p)) <==> p.offset + p.filesz <= |file|
  {
    AcceptedSizes(p, |file|);
    PageStartIs(p.offset);
  }

  /** The pages of a segment are as many as it touches, from its first one on. */
  lemma HoldsIsRange(p: Phdr, a: nat)
    requires p.memsz > 0
    ensures var start := PageStart(p.vaddr);
            PageHolds(p, a) <==> start <= a < start + PGSIZE * PagesTouched(p) && (a - start) % PGSIZE == 0
  {
    PageStartIs(p.vaddr);
  }

  lemma HoldsIff(p: Phdr, a: nat)
    requires p.memsz > 0
    ensures PageHolds(p, a) <==> exists k: nat :: k < PagesTouched(p) && a == PageStart(p.vaddr) + PGSIZE * k
  {
    HoldsIsRange(p, a);
    var start := PageStart(p.vaddr);
    if PageHolds(p, a) {
      var k: nat := (a - start) / PGSIZE;
      assert a == start + PGSIZE * k && k < PagesTouched(p);
    }
  }

  lemma SegmentMapped(p: Phdr, file: seq<byte>, a: nat)
    requires ValidateSegment(p, |file|) && |file| < 0x8000_0000
    requires Readable(file, PageStart(p.offset), ReadBytes(p))
    ensures a in PagesOf(p, file) <==> PageHolds(p, a)
  {
    CountIsTouched(p, |file|);
    HoldsIsRange(p, a);
    SegmentPagesAre(file, PageStart(p.offset), PageStart(p.vaddr), ReadBytes(p), p.writable, PageCount(p), a);
  }

  /** The next segment fits into the space so far exactly if it fits beside the others. */
  lemma OneMoreLoads(phdrs: seq<Phdr>, file: seq<byte>, before: Space, space: Space, failAt: seq<Option<nat>>, n: nat)
    requires n < |phdrs| == |failAt| && AllLoad(phdrs, file, before, failAt, n) && SpaceIs(before, space, phdrs, n)
    requires phdrs[n].kind == 1
    ensures CanLoad(phdrs[n], file, space, failAt[n]) <==> AllLoad(phdrs, file, before, failAt, n + 1)
  {
    if AllLoad(phdrs, file, before, failAt, n + 1) {
      assert CanLoad(phdrs[n], file, before, failAt[n]);
      forall a: nat | PageHolds(phdrs[n], a) ensures !HeldByOne(phdrs, n, a) { }
    }
    if CanLoad(phdrs[n], file, space, failAt[n]) {
      forall i, j, a: nat | 0 <= i < j < n + 1 && phdrs[i].kind == 1 && phdrs[j].kind == 1 && PageHolds(phdrs[i], a)
        ensures !PageHolds(phdrs[j], a)
      {
        if j == n { assert HeldByOne(phdrs, n, a); }
      }
    }
  }

  lemma OneMoreSpace(phdrs: seq<Phdr>, before: Space, space: Space, space': Space, n: nat)
    requires n < |phdrs| && SpaceIs(before, space, phdrs, n) && phdrs[n].kind == 1
    requires forall a: nat :: a in space' <==> a in space || PageHolds(phdrs[n], a)
    ensures SpaceIs(before, space', phdrs, n + 1)
  {
  }

  lemma TakenIff(p: Phdr, space: Space)
    requires p.memsz > 0
    ensures (forall a: nat :: PageHolds(p, a) ==> a !in space) <==>
            (forall k: nat :: k < PagesTouched(p) ==> PageStart(p.vaddr) + PGSIZE * k !in space)
  {
    forall a: nat
      ensures PageHolds(p, a) <==> exists k: nat :: k < PagesTouched(p) && a == PageStart(p.vaddr) + PGSIZE * k
    {
      HoldsIff(p, a);
    }
  }

  /** What `load_segment` asks for an accepted header. */
  lemma CanLoadIff(p: Phdr, file: seq<byte>, space: Space, failAt: Option<nat>)
    requires ValidateSegment(p, |file|) && |file| < 0x8000_0000
    ensures CanLoad(p, file, space, failAt) <==>
            PagesLoad(file, PageStart(p.offset), PageStart(p.vaddr), ReadBytes(p), PageCount(p), space, failAt)
  {
    AcceptedIff(p, |file|);
    CountIsTouched(p, |file|);
    ReadableIff(p, file);
    TakenIff(p, space);
  }

  lemma SegmentAdded(p: Phdr, file: seq<byte>, before: Space)
    requires ValidateSegment(p, |file|) && |file| < 0x8000_0000
    requires Readable(file, PageStart(p.offset), ReadBytes(p))
    ensures SegmentInMemory(p, file, before + PagesOf(p, file))
    ensures forall a: nat :: a in before + PagesOf(p, file) <==> a in before || PageHolds(p, a)
  {
    LoadedSegmentInMemory(p, file, before);
    forall a: nat ensures a in before + PagesOf(p, file) <==> a in before || PageHolds(p, a) {
      SegmentMapped(p, file, a);
    }
  }

  /** What `load_segment` asserts. */
  lemma WholePages(p: Phdr, fileLength: nat)
    requires ValidateSegment(p, fileLength) && fileLength < 0x8000_0000
    ensures (ReadBytes(p) + ZeroBytes(p)) % PGSIZE == 0 && PageStart(p.vaddr) % PGSIZE == 0
    ensures PageStart(p.offset) % PGSIZE == 0
  {
    AcceptedSizes(p, fileLength);
  }

  /** The call of `load_segment` for an accepted header; its assertions hold. */
  method LoadHeader(process: Process, file: seq<byte>, p: Phdr, failAt: Option<nat>) returns (ok: bool)
    requires |file| < 0x8000_0000 && ValidateSegment(p, |file|)
    modifies process
    ensures ok <==> CanLoad(p, file, old(process.space), failAt)
    ensures ok ==> SegmentInMemory(p, file, process.space)
    ensures ok ==> forall a: nat :: a in process.space <==> a in old(process.space) || PageHolds(p, a)
    ensures Kept(old(process.space), process.space)
  {
    WholePages(p, |file|);
    ghost var before := process.space;
    CanLoadIff(p, file, before, failAt);
    ok := process.LoadSegment(file, PageStart(p.offset), PageStart(p.vaddr), ReadBytes(p), ZeroBytes(p),
                              p.writable, failAt);
    if ok { SegmentAdded(p, file, before); }
  }

  ghost predicate SegmentsInMemory(phdrs: seq<Phdr>, file: seq<byte>, space: Space, n: nat)
    requires n <= |phdrs|
  {
    forall i :: 0 <= i < n && phdrs[i].kind == 1 ==> SegmentInMemory(phdrs[i], file, space)
  }

  lemma SegmentsKept(phdrs: seq<Phdr>, file: seq<byte>, before: Space, space: Space, n: nat)
    requires n <= |phdrs| && SegmentsInMemory(phdrs, file, before, n) && Kept(before, space)
    ensures SegmentsInMemory(phdrs, file, space, n)
  {
    forall i | 0 <= i < n && phdrs[i].kind == 1 ensures SegmentInMemory(phdrs[i], file, space) {
      SegmentKept(phdrs[i], file, before, space);
    }
  }

  /** What has been loaded before header n. */
  ghost predicate LoadedSoFar(phdrs: seq<Phdr>, file: seq<byte>, before: Space, space: Space, n: nat)
    requires n <= |phdrs|
  {
    SegmentsInMemory(phdrs, file, space, n) && SpaceIs(before, space, phdrs, n) && Kept(before, space)
  }

  lemma IgnoredHeader(phdrs: seq<Phdr>, file: seq<byte>, before: Space, space: Space, failAt: seq<Option<nat>>, n: nat)
    requires n < |phdrs| == |failAt| && AllLoad(phdrs, file, before, failAt, n) && phdrs[n].kind != 1
    requires LoadedSoFar(phdrs, file, before, space, n)
    ensures AllLoad(phdrs, file, before, failAt, n + 1) <==> phdrs[n].kind !in {2, 3, 5}
    ensures LoadedSoFar(phdrs, file, before, space, n + 1)
  {
    forall a: nat ensures HeldByOne(phdrs, n + 1, a) <==> HeldByOne(phdrs, n, a) { }
  }

  lemma LoadedHeader(phdrs: seq<Phdr>, file: seq<byte>, before: Space, space: Space, space': Space, n: nat)
    requires n < |phdrs| && LoadedSoFar(phdrs, file, before, space, n) && phdrs[n].kind == 1
    requires SegmentInMemory(phdrs[n], file, space') && Kept(space, space')
    requires forall a: nat :: a in space' <==> a in space || PageHolds(phdrs[n], a)
    ensures LoadedSoFar(phdrs, file, before, space', n + 1)
  {
    SegmentsKept(phdrs, file, space, space', n);
    OneMoreSpace(phdrs, before, space, space', n);
  }

  /** The loop over the program headers in `load`: loads every loadable segment, ignores the kinds it
      may ignore, and gives up on the others, or when one cannot be loaded, and only then. */
  method LoadSegments(process: Process, file: seq<byte>, phdrs: seq<Phdr>, failAt: seq<Option<nat>>) returns (ok: bool)
    requires |file| < 0x8000_0000 && |failAt| == |phdrs|
    modifies process
    ensures ok <==> AllLoad(phdrs, file, old(process.space), failAt, |phdrs|)
    ensures ok ==> SegmentsInMemory(phdrs, file, process.space, |phdrs|)
    ensures ok ==> SpaceIs(old(process.space), process.space, phdrs, |phdrs|)
    ensures Kept(old(process.space), process.space)
  {
    for i := 0 to |phdrs|
      invariant AllLoad(phdrs, file, old(process.space), failAt, i)
      invariant LoadedSoFar(phdrs, file, old(process.space), process.space, i)
    {
      ok := LoadNext(process, file, phdrs, failAt, i, old(process.space));
      if !ok {
        AllLoadPrefix(phdrs, file, old(process.space), failAt, i + 1);
        return false;
      }
    }
    ok := true;
  }

  lemma AllLoadPrefix(phdrs: seq<Phdr>, file: seq<byte>, space: Space, failAt: seq<Option<nat>>, n: nat)
    requires n <= |phdrs| == |failAt| && !AllLoad(phdrs, file, space, failAt, n)
    ensures !AllLoad(phdrs, file, space, failAt, |phdrs|)
  {
  }

  lemma KeptTwice(a: Space, b: Space, c: Space)
    requires Kept(a, b) && Kept(b, c)
    ensures Kept(a, c)
  {
  }

  /** One round of that loop. */
  method LoadNext(process: Process, file: seq<byte>, phdrs: seq<Phdr>, failAt: seq<Option<nat>>, i: nat,
                  ghost before: Space)
    returns (ok: bool)
    requires |file| < 0x8000_0000 && i < |phdrs| == |failAt|
    requires AllLoad(phdrs, file, before, failAt, i) && LoadedSoFar(phdrs, file, before, process.space, i)
    modifies process
    ensures ok <==> AllLoad(phdrs, file, before, failAt, i + 1)
    ensures ok ==> LoadedSoFar(phdrs, file, before, process.space, i + 1)
    ensures Kept(before, process.space)
  {
    var phdr := phdrs[i];
    if phdr.kind != PT_LOAD {
      IgnoredHeader(phdrs, file, before, process.space, failAt, i);
      return !Refused(phdr);
    }
    AcceptedIff(phdr, |file|);
    OneMoreLoads(phdrs, file, before, process.space, failAt, i);
    if !ValidateSegment(phdr, |file|) { return false; }
    ghost var space := process.space;
    ok := LoadHeader(process, file, phdr, failAt[i]);
    KeptTwice(before, space, process.space);
    if ok { LoadedHeader(phdrs, file, before, space, process.space, i); }
  }
}
