/** The block allocator (pintos/src/threads/malloc.c) over the page allocator
    (pintos/src/threads/palloc.c), updating its free lists, arena headers and memory in place. What
    the bookkeeping means, and that each step keeps it sound, is in module Arenas. */
module Malloc {
  import opened Options
  import opened Bytes
  import opened Nonlinear
  import opened Bitmap
  import opened Arenas
  import opened Sequences

  const TWO_32: int := 0x1_0000_0000

  type size_t = x: int | 0 <= x < TWO_32

  function Wrap(x: int): size_t { x % TWO_32 }

  /** The pages for the size and an arena header, rounded up, in 32 bits. */
  function BigPageCount(size: size_t): size_t {
    Wrap(Wrap(size + HEADER) + PGSIZE - 1) / PGSIZE
  }

  /** The pages asked for hold the block exactly when size + header does not wrap around, and one page
      less would not. */
  lemma BigPageCountSuffices(size: size_t)
    requires BigPageCount(size) > 0
    ensures PGSIZE * BigPageCount(size) - HEADER >= size <==> size + HEADER < TWO_32
    ensures PGSIZE * (BigPageCount(size) - 1) < size + HEADER
  {
  }

  /** A block is granted but too small for its size exactly when the sum wraps around to more than
      zero; it then has one page. */
  lemma GrantedTooSmallIff(size: size_t)
    requires size > 1024
    ensures BigPageCount(size) > 0 && PGSIZE * BigPageCount(size) - HEADER < size <==> size + HEADER > TWO_32
    ensures size + HEADER > TWO_32 ==> BigPageCount(size) == 1
  {
  }

  /** So `malloc` of 2^32 - 1 bytes takes one page, and zeroing that many would run past it. */
  lemma LargestSizeTakesOnePage()
    ensures BigPageCount(TWO_32 - 1) == 1 && PGSIZE * 1 - HEADER < TWO_32 - 1
  {
  }

  /** There is no free run of that many pages. */
  ghost predicate OutOfPages(bits: seq<bool>, cnt: nat) {
    forall j: nat :: !RunOf(bits, j, cnt, false)
  }

  /** Pages a request takes at most: one for a small block, all of its own for a big one. */
  function PagesNeeded(size: size_t): nat { if size <= 1024 then 1 else BigPageCount(size) }

  /** There is no free run for a request, or the pages asked for have wrapped around to none. */
  ghost predicate NoPagesFor(bits: seq<bool>, size: size_t) {
    PagesNeeded(size) == 0 || OutOfPages(bits, PagesNeeded(size))
  }

  /** `malloc_init`: the descriptors, by doubling from 16 while below half a page. */
  method MallocInit() returns (descs: seq<(nat, nat)>)
    ensures |descs| == DESC_CNT
    ensures forall d :: 0 <= d < DESC_CNT ==> descs[d] == (BlockSizeOf(d), BlocksPerArena(d))
    ensures descs == [(16, 255), (32, 127), (64, 63), (128, 31), (256, 15), (512, 7), (1024, 3)]
  {
    descs := [];
    var blockSize := 16;
    while blockSize < PGSIZE / 2
      invariant |descs| <= DESC_CNT
      invariant blockSize == if |descs| == DESC_CNT then 2048 else BlockSizeOf(|descs|)
      invariant forall d :: 0 <= d < |descs| ==> descs[d] == (BlockSizeOf(d), BlocksPerArena(d))
      decreases DESC_CNT - |descs|
    {
      descs := descs + [(blockSize, (PGSIZE - HEADER) / blockSize)];
      blockSize := blockSize * 2;
    }
  }

  class Allocator {
    const pool: BitMap
    const mem: array<byte>
    var arenas: map<nat, Arena>
    var freeList: seq<seq<nat>>

    ghost function State(): Heap
      reads this, pool
    {
      Heap(pool.bits, arenas, freeList)
    }

    ghost predicate Valid()
      reads this, pool
    {
      mem.Length == PGSIZE * |pool.bits| && Inv(State())
    }

    constructor (pages: nat)
      ensures Valid() && fresh(pool) && fresh(mem) && |pool.bits| == pages
      ensures forall a :: !Live(State(), a)
    {
      pool := new BitMap(pages);
      mem := new byte[PGSIZE * pages];
      arenas := map[];
      freeList := [[], [], [], [], [], [], []];
    }

    method PallocGetMultiple(cnt: nat) returns (r: Option<nat>)
      modifies pool
      ensures r.Some? ==> cnt > 0 && RunOf(old(pool.bits), r.value, cnt, false)
                          && pool.bits == SetRun(old(pool.bits), r.value, cnt, true)
      ensures r.None? ==> pool.bits == old(pool.bits)
      ensures r.None? && cnt > 0 ==> OutOfPages(pool.bits, cnt)
    {
      if cnt == 0 { return None; }
      r := pool.ScanAndFlip(cnt);
    }

    /** Freed pages must all be in use: the assertion of `palloc_free_multiple` is the precondition. */
    method PallocFreeMultiple(page: nat, cnt: nat)
      requires RunOf(pool.bits, page, cnt, true)
      requires mem.Length == PGSIZE * |pool.bits|
      modifies pool, mem
      ensures pool.bits == SetRun(old(pool.bits), page, cnt, false)
      ensures forall i :: 0 <= i < mem.Length && !(page * PGSIZE <= i < (page + cnt) * PGSIZE) ==> mem[i] == old(mem[i])
    {
      Memset(page * PGSIZE, 0xcc, cnt * PGSIZE);
      pool.SetMultiple(page, cnt, false);
    }

    method Memset(dst: nat, value: byte, size: nat)
      requires dst + size <= mem.Length
      modifies mem
      ensures forall i :: dst <= i < dst + size ==> mem[i] == value
      ensures forall i :: 0 <= i < mem.Length && !(dst <= i < dst + size) ==> mem[i] == old(mem[i])
    {
      for k := 0 to size
        invariant forall i :: dst <= i < dst + k ==> mem[i] == value
        invariant forall i :: 0 <= i < mem.Length && !(dst <= i < dst + k) ==> mem[i] == old(mem[i])
      {
        mem[dst + k] := value;
      }
    }

    method Memcpy(dst: nat, src: nat, size: nat)
      requires dst + size <= mem.Length && src + size <= mem.Length
      requires dst + size <= src || src + size <= dst
      modifies mem
      ensures forall i :: dst <= i < dst + size ==> mem[i] == old(mem[i - dst + src])
      ensures forall i :: 0 <= i < mem.Length && !(dst <= i < dst + size) ==> mem[i] == old(mem[i])
    {
      for k := 0 to size
        invariant forall i :: dst <= i < dst + k ==> mem[i] == old(mem[i - dst + src])
        invariant forall i :: 0 <= i < mem.Length && !(dst <= i < dst + k) ==> mem[i] == old(mem[i])
      {
        mem[dst + k] := mem[src + k];
      }
    }

    /** Adds a page of blocks to an empty free list, if a page can be had. */
    method AddArena(d: nat) returns (page: Option<nat>)
      requires Valid() && d < DESC_CNT && freeList[d] == []
      modifies this, pool
      ensures page.None? ==> State() == old(State()) && OutOfPages(pool.bits, 1)
      ensures page.Some? ==> RunOf(old(pool.bits), page.value, 1, false)
                             && State() == NewArena(old(State()), page.value, d)
    {
      page := PallocGetMultiple(1);
      if page.None? { return; }
      arenas := arenas[page.value := Arena(Some(d), BlocksPerArena(d))];
      for i := 0 to BlocksPerArena(d)
        invariant arenas == old(arenas)[page.value := Arena(Some(d), BlocksPerArena(d))]
        invariant pool.bits == SetRun(old(pool.bits), page.value, 1, true)
        invariant freeList == old(freeList)[d := BlockList(page.value, d, i)]
      {
        freeList := freeList[d := freeList[d] + [BlockAt(page.value, d, i)]];
        assert BlockList(page.value, d, i + 1) == BlockList(page.value, d, i) + [BlockAt(page.value, d, i)];
      }
      assert [] + BlockList(page.value, d, BlocksPerArena(d)) == BlockList(page.value, d, BlocksPerArena(d));
      assert pool.bits == old(pool.bits)[page.value := true];
    }

    method FindDescriptor(size: nat) returns (d: nat)
      ensures d <= DESC_CNT
      ensures d < DESC_CNT ==> BlockSizeOf(d) >= size
      ensures forall e :: 0 <= e < d && e < DESC_CNT ==> BlockSizeOf(e) < size
    {
      d := 0;
      while d < DESC_CNT && BlockSizeOf(d) < size
        invariant d <= DESC_CNT
        invariant forall e :: 0 <= e < d ==> BlockSizeOf(e) < size
      {
        d := d + 1;
      }
    }

    /** A successful call hands out exactly one block that was not live, leaves memory and every
        other block alone, and the block is large enough unless the size wrapped around; a failed
        call changes nothing. */
    method Malloc(size: size_t) returns (r: Option<nat>)
      requires Valid()
      modifies this, pool
      ensures Valid() && |pool.bits| == old(|pool.bits|)
      ensures r.None? ==> State() == old(State())
      ensures r.Some? ==>
                && Live(State(), r.value) && !Live(old(State()), r.value)
                && LiveExcept(old(State()), State(), r.value)
                && (SizeOf(State(), r.value) >= size <==> size + HEADER < TWO_32)
                && SizeOf(State(), r.value) < TWO_32
      ensures r.Some? ==> forall d: nat :: d < DESC_CNT && BlockSizeOf(d) >= size ==>
                SizeOf(State(), r.value) <= BlockSizeOf(d)
      ensures size == 0 ==> r.None?
      ensures r.None? && size > 0 ==> NoPagesFor(old(pool.bits), size)
      ensures r.Some? ==> size > 0 && PagesNeeded(size) > 0
      ensures Others(State()) == old(Others(State()))
    {
      if size == 0 { return None; }
      var d := FindDescriptor(size);
      if d == DESC_CNT {
        assert BlockSizeOf(6) < size;
        r := MallocBig(size);
      } else {
        r := MallocSmall(d);
      }
    }

    method MallocBig(size: size_t) returns (r: Option<nat>)
      requires Valid() && size > 1024
      modifies this, pool
      ensures Valid() && |pool.bits| == old(|pool.bits|)
      ensures r.None? ==> State() == old(State())
      ensures r.Some? ==>
                && Live(State(), r.value) && !Live(old(State()), r.value)
                && LiveExcept(old(State()), State(), r.value)
                && (SizeOf(State(), r.value) >= size <==> size + HEADER < TWO_32)
                && SizeOf(State(), r.value) < TWO_32
      ensures r.None? ==> BigPageCount(size) == 0 || OutOfPages(pool.bits, BigPageCount(size))
      ensures r.Some? ==> BigPageCount(size) > 0
      ensures Others(State()) == old(Others(State()))
    {
      var cnt := BigPageCount(size);
      var page := PallocGetMultiple(cnt);
      if page.None? { return None; }
      ghost var before := old(State());
      TakePagesInv(before, page.value, cnt);
      OthersTaken(before, TakePages(before, page.value, cnt), page.value, cnt);
      BigPageCountSuffices(size);
      arenas := arenas[page.value := Arena(None, cnt)];
      r := Some(page.value * PGSIZE + HEADER);
      assert State() == TakePages(before, page.value, cnt);
    }

    method MallocSmall(d: nat) returns (r: Option<nat>)
      requires Valid() && d < DESC_CNT
      modifies this, pool
      ensures Valid() && |pool.bits| == old(|pool.bits|)
      ensures r.None? ==> State() == old(State())
      ensures r.Some? ==>
                && Live(State(), r.value) && !Live(old(State()), r.value)
                && LiveExcept(old(State()), State(), r.value)
                && SizeOf(State(), r.value) == BlockSizeOf(d)
      ensures r.None? ==> OutOfPages(pool.bits, 1)
      ensures Others(State()) == old(Others(State()))
    {
      ghost var before := State();
      ghost var slack := None;
      if |freeList[d]| == 0 {
        var page := AddArena(d);
        if page.None? { return None; }
        NewArenaInv(before, page.value, d);
        NewArenaOthers(before, page.value, d);
        slack := page;
      }
      var b := PopBlock(d, slack);
      r := Some(b);
    }

    method PopBlock(d: nat, ghost slack: Option<nat>) returns (b: nat)
      requires InvBut(State(), slack) && d < DESC_CNT && freeList[d] != []
      requires slack.Some? ==> slack == Some(PageOf(freeList[d][0]))
      modifies this
      ensures Inv(State()) && !Live(old(State()), b) && Live(State(), b)
      ensures LiveExcept(old(State()), State(), b) && SizeOf(State(), b) == BlockSizeOf(d)
      ensures Others(State()) == old(Others(State()))
    {
      ghost var h := State();
      TakeBlockInv(h, d, slack);
      TakeBlockLive(h, d);
      OthersSame(h, TakeBlock(h, d));
      TakeBlockCounts(h, d, slack);
      b := freeList[d][0];
      freeList := freeList[d := freeList[d][1..]];
      var p := PageOf(b);
      arenas := arenas[p := Arena(arenas[p].desc, arenas[p].freeCnt - 1)];
      assert State() == TakeBlock(h, d);
    }

    /** `block_to_arena`: rounding a live block down to its page finds its arena, and the alignment
        the source asserts holds. */
    method BlockToArena(b: nat) returns (page: nat)
      requires Valid() && Live(State(), b)
      ensures page == PageOf(b) && page in arenas
      ensures match arenas[page].desc
              case Some(d) => OffsetOf(b) >= HEADER && (OffsetOf(b) - HEADER) % BlockSizeOf(d) == 0
              case None => OffsetOf(b) == HEADER
    {
      page := PageOf(b);
      if arenas[page].desc.Some? { BlocksArePaged(page, arenas[page].desc.value, b); }
    }

    method BlockSize(b: nat) returns (size: nat)
      requires Valid() && Live(State(), b)
      ensures size == SizeOf(State(), b) > 0
    {
      LiveExtent(State(), b);
      var page := BlockToArena(b);
      match arenas[page].desc
      case Some(d) => size := BlockSizeOf(d);
      case None => size := PGSIZE * arenas[page].freeCnt - OffsetOf(b);
    }

    /** Unlinks every block of a page from its free list and gives the page back. Each block is
        there to be unlinked. */
    method ReleaseArena(p: nat, d: nat)
      requires InvBut(State(), Some(p)) && mem.Length == PGSIZE * |pool.bits|
      requires p in arenas && arenas[p] == Arena(Some(d), BlocksPerArena(d))
      modifies this, pool, mem
      ensures Valid() && SameLive(old(State()), State()) && |pool.bits| == old(|pool.bits|)
      ensures SameContents(State(), old(mem[..]), mem[..])
      ensures Others(State()) == old(Others(State()))
    {
      ghost var h := State();
      assert ArenaInv(h, p, Some(p));
      FullArenaAllFree(h, p, d);
      assert ListInv(h, d);
      DropArenaInv(h, p, d);
      DropArenaOthers(h, p, d);
      AllFreeListed(freeList[d], p, d);
      var list := UnlinkBlocks(freeList[d], p, d);
      freeList := freeList[d := list];
      arenas := arenas - {p};
      PallocFreeMultiple(p, 1);
      assert pool.bits == h.used[p := false];
      assert State() == DropArena(h, p, d);
      FreePagesHoldNothing(State(), p, 1, old(mem[..]), mem[..]);
    }

    /** Any block but null must have come from this allocator and not have been freed. Afterwards it
        is not live, nothing else has changed hands, and every live block still holds its bytes. */
    method Free(p: Option<nat>)
      requires Valid() && (p.Some? ==> Live(State(), p.value))
      modifies this, pool, mem
      ensures Valid() && |pool.bits| == old(|pool.bits|)
      ensures p.None? ==> State() == old(State()) && mem[..] == old(mem[..])
      ensures p.Some? ==> LiveExcept(old(State()), State(), p.value) && !Live(State(), p.value)
      ensures SameContents(State(), old(mem[..]), mem[..])
      ensures Others(State()) == old(Others(State()))
    {
      if p.None? { return; }
      var page := BlockToArena(p.value);
      if arenas[page].desc.Some? {
        FreeSmall(p.value);
      } else {
        FreeBig(p.value);
      }
    }

    method FreeBig(b: nat)
      requires Valid() && Live(State(), b) && arenas[PageOf(b)].desc == None
      modifies this, pool, mem
      ensures Valid() && |pool.bits| == old(|pool.bits|)
      ensures LiveExcept(old(State()), State(), b) && !Live(State(), b)
      ensures SameContents(State(), old(mem[..]), mem[..])
      ensures Others(State()) == old(Others(State()))
    {
      ghost var h := State();
      var page := PageOf(b);
      var cnt := arenas[page].freeCnt;
      DropPagesInv(h, b);
      OthersDropped(h, DropPages(h, page), page);
      arenas := arenas - {page};
      PallocFreeMultiple(page, cnt);
      assert State() == DropPages(h, page);
      FreePagesHoldNothing(State(), page, cnt, old(mem[..]), mem[..]);
    }

    method FreeSmall(b: nat)
      requires Valid() && Live(State(), b) && arenas[PageOf(b)].desc.Some?
      modifies this, pool, mem
      ensures Valid() && |pool.bits| == old(|pool.bits|)
      ensures LiveExcept(old(State()), State(), b) && !Live(State(), b)
      ensures SameContents(State(), old(mem[..]), mem[..])
      ensures Others(State()) == old(Others(State()))
    {
      var page := PageOf(b);
      var d := arenas[page].desc.value;
      PushBlock(b, d);
      ghost var h, m := State(), mem[..];
      if arenas[page].freeCnt >= BlocksPerArena(d) {
        ReleaseArena(page, d);
        SameContentsCarries(h, State(), old(mem[..]), m);
        SameContentsTrans(State(), old(mem[..]), m, mem[..]);
      } else {
        SlackUnneeded(State(), page);
      }
    }

    /** Clears a block and puts it on its free list; its arena may now be entirely unused. */
    method PushBlock(b: nat, d: nat)
      requires Valid() && Live(State(), b) && arenas[PageOf(b)].desc == Some(d)
      modifies this, mem
      ensures InvBut(State(), Some(PageOf(b))) && mem.Length == PGSIZE * |pool.bits|
      ensures PageOf(b) in arenas && arenas[PageOf(b)].desc == Some(d) && arenas[PageOf(b)].freeCnt <= BlocksPerArena(d)
      ensures LiveExcept(old(State()), State(), b) && !Live(State(), b)
      ensures SameContents(State(), old(mem[..]), mem[..])
      ensures Others(State()) == old(Others(State()))
    {
      ghost var h := State();
      var page := PageOf(b);
      LiveExtent(h, b);
      PutBlockInv(h, b, d);
      OthersSame(h, PutBlock(h, b, d));
      Memset(b, 0xcc, BlockSizeOf(d));
      OtherBlocksUntouched(h, PutBlock(h, b, d), b, old(mem[..]), mem[..]);
      freeList := freeList[d := [b] + freeList[d]];
      arenas := arenas[page := Arena(Some(d), arenas[page].freeCnt + 1)];
      assert State() == PutBlock(h, b, d);
    }

    /** A successful call returns zeroed bytes, as many as the 32-bit product says; they are the a * b
        asked for exactly when that product did not wrap around. */
    method Calloc(a: size_t, b: size_t) returns (r: Option<nat>)
      requires Valid() && Wrap(a * b) + HEADER <= TWO_32
      modifies this, pool, mem
      ensures Valid() && |pool.bits| == old(|pool.bits|)
      ensures r.None? ==> State() == old(State()) && mem[..] == old(mem[..])
      ensures a == 0 || b == 0 ==> r.None?
      ensures r.None? && 0 < a && 0 < b && a * b < TWO_32 ==> NoPagesFor(old(pool.bits), a * b)
      ensures r.None? && a * b >= TWO_32 ==>
                Wrap(a * b) < a || Wrap(a * b) < b || NoPagesFor(old(pool.bits), Wrap(a * b))
      ensures a * b >= TWO_32 && (Wrap(a * b) < a || Wrap(a * b) < b) ==> r.None?
      ensures r.Some? ==>
                && Live(State(), r.value) && !Live(old(State()), r.value)
                && LiveExcept(old(State()), State(), r.value)
                && Wrap(a * b) <= SizeOf(State(), r.value)
                && (a * b <= SizeOf(State(), r.value) <==> a * b < TWO_32)
                && r.value + Wrap(a * b) <= mem.Length
                && (forall i :: r.value <= i < r.value + Wrap(a * b) ==> mem[i] == 0)
                && SameContentsBut(State(), r.value, old(mem[..]), mem[..])
      ensures Others(State()) == old(Others(State()))
    {
      var size := Wrap(a * b);
      if 0 < a && 0 < b && a * b < TWO_32 { CallocAcceptsFittingProducts(a, b); }
      if size < a || size < b { return None; }
      r := Malloc(size);
      if r.Some? {
        LiveExtent(State(), r.value);
        ghost var m := mem[..];
        Memset(r.value, 0, size);
        WriteStaysInBlock(State(), r.value, size, m, mem[..]);
      }
    }

    /** Resizing keeps the first min (old, new) bytes and every other block; a zero size frees, a null
        block allocates, and a failure changes nothing. */
    method Realloc(oldBlock: Option<nat>, newSize: size_t) returns (r: Option<nat>)
      requires Valid() && (oldBlock.Some? ==> Live(State(), oldBlock.value)) && newSize + HEADER <= TWO_32
      modifies this, pool, mem
      ensures Valid() && |pool.bits| == old(|pool.bits|)
      ensures newSize == 0 ==> r.None?
      ensures r.None? && newSize > 0 ==> NoPagesFor(old(pool.bits), newSize)
      ensures newSize == 0 && oldBlock.Some? ==>
                LiveExcept(old(State()), State(), oldBlock.value) && !Live(State(), oldBlock.value)
      ensures r.None? && (newSize > 0 || oldBlock.None?) ==> State() == old(State()) && mem[..] == old(mem[..])
      ensures r.Some? ==> Live(State(), r.value) && !Live(old(State()), r.value) && newSize <= SizeOf(State(), r.value)
      ensures r.Some? && oldBlock.Some? ==>
                && !Live(State(), oldBlock.value)
                && Copied(old(mem[..]), oldBlock.value, mem[..], r.value,
                          Min(newSize, SizeOf(old(State()), oldBlock.value)))
      ensures r.Some? ==> LiveExceptBoth(old(State()), State(), oldBlock, r.value)
      ensures r.Some? ==> SameContentsBut(State(), r.value, old(mem[..]), mem[..])
      ensures r.None? ==> SameContents(State(), old(mem[..]), mem[..])
      ensures Others(State()) == old(Others(State()))
    {
      if newSize == 0 {
        Free(oldBlock);
        return None;
      }
      r := Malloc(newSize);
      if oldBlock.Some? && r.Some? {
        ghost var h := State();
        MoveBlock(oldBlock.value, r.value, newSize);
        LiveExceptChain(old(State()), h, State(), r.value, oldBlock.value);
      }
    }

    method MoveBlock(from: nat, to: nat, newSize: nat)
      requires Valid() && Live(State(), from) && Live(State(), to) && from != to && newSize <= SizeOf(State(), to)
      modifies this, pool, mem
      ensures Valid() && |pool.bits| == old(|pool.bits|)
      ensures LiveExcept(old(State()), State(), from) && !Live(State(), from)
      ensures Copied(old(mem[..]), from, mem[..], to, Min(newSize, SizeOf(old(State()), from)))
      ensures SameContentsBut(State(), to, old(mem[..]), mem[..])
      ensures Others(State()) == old(Others(State()))
    {
      ghost var h, m := State(), mem[..];
      var size := CopyBlock(from, to, newSize);
      ghost var m1 := mem[..];
      Free(Some(from));
      MovedContents(h, State(), from, to, m, m1, mem[..]);
      MovedBytes(State(), to, from, size, m, m1, mem[..]);
    }

    method CopyBlock(from: nat, to: nat, newSize: nat) returns (size: nat)
      requires Valid() && Live(State(), from) && Live(State(), to) && from != to && newSize <= SizeOf(State(), to)
      modifies mem
      ensures size == Min(newSize, SizeOf(State(), from))
      ensures Copied(old(mem[..]), from, mem[..], to, size)
      ensures SameContentsBut(State(), to, old(mem[..]), mem[..])
    {
      BlocksApart(State(), from, to);
      var oldSize := BlockSize(from);
      size := if newSize < oldSize then newSize else oldSize;
      ghost var m := mem[..];
      Memcpy(to, from, size);
      RangeCopied(m, from, mem[..], to, size);
      WriteStaysInBlock(State(), to, size, m, mem[..]);
    }
  }

  /** The n bytes of m from `from` on are those of m' from `to` on. */
  ghost predicate Copied(m: seq<byte>, from: nat, m': seq<byte>, to: nat, n: int) {
    0 <= n && from + n <= |m| && to + n <= |m'| && m'[to..to + n] == m[from..from + n]
  }

  lemma RangeCopied(m: seq<byte>, from: nat, m': seq<byte>, to: nat, n: nat)
    requires from + n <= |m| && to + n <= |m'|
    requires forall i :: to <= i < to + n ==> m'[i] == m[i - to + from]
    ensures Copied(m, from, m', to, n)
  {
  }

  ghost predicate LiveExceptBoth(h: Heap, h': Heap, a: Option<nat>, b: nat)
    requires |h.free| == DESC_CNT && |h'.free| == DESC_CNT
  {
    forall x: nat :: Some(x) != a && x != b ==>
      (Live(h, x) <==> Live(h', x)) && (Live(h, x) ==> SizeOf(h', x) == SizeOf(h, x))
  }

  lemma LiveExceptChain(h: Heap, h1: Heap, h2: Heap, b: nat, a: nat)
    requires |h.free| == DESC_CNT && |h1.free| == DESC_CNT && |h2.free| == DESC_CNT
    requires LiveExcept(h, h1, b) && LiveExcept(h1, h2, a)
    ensures LiveExceptBoth(h, h2, Some(a), b)
  {
  }

  lemma BlocksApart(h: Heap, a: nat, b: nat)
    requires Inv(h) && Live(h, a) && Live(h, b) && a != b
    ensures a + SizeOf(h, a) <= b || b + SizeOf(h, b) <= a
    ensures a + SizeOf(h, a) <= PGSIZE * |h.used| && b + SizeOf(h, b) <= PGSIZE * |h.used|
  {
    LiveExtent(h, a);
    LiveExtent(h, b);
    if a < b { LiveBlocksDisjoint(h, a, b); } else { LiveBlocksDisjoint(h, b, a); }
  }

  lemma MovedContents(h: Heap, h': Heap, from: nat, to: nat, m: seq<byte>, m1: seq<byte>, m2: seq<byte>)
    requires |h.free| == DESC_CNT && |h'.free| == DESC_CNT && LiveExcept(h, h', from) && !Live(h', from)
    requires SameContentsBut(h, to, m, m1) && SameContents(h', m1, m2)
    ensures SameContentsBut(h', to, m, m2)
  {
    forall x: nat, i: nat | Live(h', x) && x != to && x <= i < x + SizeOf(h', x) && i < |m| ensures m2[i] == m[i] {
      assert m2[i] == m1[i];
    }
  }

  lemma MovedBytes(h: Heap, to: nat, from: nat, n: nat, m: seq<byte>, m1: seq<byte>, m2: seq<byte>)
    requires |h.free| == DESC_CNT && Live(h, to) && n <= SizeOf(h, to) && SameContents(h, m1, m2)
    requires Copied(m, from, m1, to, n)
    ensures Copied(m, from, m2, to, n)
  {
    forall i: nat | to <= i < to + n ensures m2[i] == m1[i] { }
    assert m2[to..to + n] == m1[to..to + n];
  }

  /** The overflow test of `calloc` accepts every product that fits, zero factors aside. */
  lemma CallocAcceptsFittingProducts(a: size_t, b: size_t)
    requires 0 < a && 0 < b && a * b < TWO_32
    ensures Wrap(a * b) == a * b && !(Wrap(a * b) < a) && !(Wrap(a * b) < b)
  {
    MulMono(1, a, b);
    MulMono(1, b, a);
  }

  /** But it also accepts products that do not: 65537 * 65537 wraps to 131073. */
  lemma CallocMissesOverflow()
    ensures var a: size_t := 65537; a * a >= TWO_32 && !(Wrap(a * a) < a) && Wrap(a * a) < a * a
  {
  }

  /** `list_remove`: the element must be on the list. */
  method ListRemove(list: seq<nat>, b: nat) returns (r: seq<nat>)
    requires b in list && NoDuplicates(list)
    ensures r == Without(list, {b})
  {
    var i := 0;
    while list[i] != b
      invariant 0 <= i < |list| && b in list[i..]
      decreases |list| - i
    {
      i := i + 1;
    }
    r := list[..i] + list[i + 1..];
    WithoutOne(list, i);
  }

  lemma WithoutStep(list: seq<nat>, gone: set<nat>)
    requires list != []
    ensures Without(list, gone) == (if list[0] in gone then [] else [list[0]]) + Without(list[1..], gone)
  {
  }

  lemma AroundFirst(list: seq<nat>, i: nat)
    requires 0 < i < |list|
    ensures list[..i] + list[i + 1..] == [list[0]] + (list[1..][..i - 1] + list[1..][i..])
  {
  }

  lemma {:induction false} WithoutOne(list: seq<nat>, i: nat)
    requires i < |list| && NoDuplicates(list)
    ensures Without(list, {list[i]}) == list[..i] + list[i + 1..]
  {
    WithoutStep(list, {list[i]});
    if i == 0 {
      WithoutNone(list[1..], {list[0]});
    } else {
      WithoutOne(list[1..], i - 1);
      AroundFirst(list, i);
    }
  }

  lemma {:induction false} WithoutNone(list: seq<nat>, gone: set<nat>)
    requires forall a :: a in list ==> a !in gone
    ensures Without(list, gone) == list
  {
    if list != [] {
      assert list[0] in list;
      WithoutNone(list[1..], gone);
    }
  }

  lemma {:induction false} WithoutBoth(list: seq<nat>, s: set<nat>, t: set<nat>)
    ensures Without(Without(list, s), t) == Without(list, s + t)
  {
    if list != [] {
      WithoutBoth(list[1..], s, t);
      var head := if list[0] in s then [] else [list[0]];
      assert Without(list, s) == head + Without(list[1..], s);
      assert list[0] in s ==> Without(list, s) == Without(list[1..], s);
    }
  }

  /** Every block of the arena is on the list. */
  ghost predicate ListsArena(free: seq<nat>, p: nat, d: nat) {
    forall i :: 0 <= i < BlocksPerArena(d) ==> BlockAt(p, d, i) in free
  }

  lemma AllFreeListed(free: seq<nat>, p: nat, d: nat)
    requires FreeOn(free, p) == AllBlocks(p, d)
    ensures ListsArena(free, p, d)
  {
    forall i | 0 <= i < BlocksPerArena(d) ensures BlockAt(p, d, i) in free {
      assert BlockAt(p, d, i) in AllBlocks(p, d);
    }
  }

  /** What is left of a free list after the first i blocks of an arena are unlinked. */
  ghost predicate Unlinked(list: seq<nat>, free: seq<nat>, p: nat, d: nat, i: nat) {
    list == Without(free, BlocksTo(p, d, i))
  }

  lemma NoneUnlinked(free: seq<nat>, p: nat, d: nat)
    ensures Unlinked(free, free, p, d, 0)
  {
    WithoutNone(free, BlocksTo(p, d, 0));
  }

  method UnlinkBlock(list: seq<nat>, p: nat, d: nat, i: nat, ghost free: seq<nat>) returns (r: seq<nat>)
    requires NoDuplicates(free) && ListsArena(free, p, d) && i < BlocksPerArena(d) && Unlinked(list, free, p, d, i)
    ensures Unlinked(r, free, p, d, i + 1)
  {
    UnlinkNext(free, p, d, i);
    r := ListRemove(list, BlockAt(p, d, i));
  }

  /** `free`'s loop over the blocks of an arena that is to go. */
  method UnlinkBlocks(free: seq<nat>, p: nat, d: nat) returns (list: seq<nat>)
    requires NoDuplicates(free) && ListsArena(free, p, d)
    ensures list == Without(free, AllBlocks(p, d))
  {
    list := free;
    NoneUnlinked(free, p, d);
    for i := 0 to BlocksPerArena(d)
      invariant Unlinked(list, free, p, d, i)
    {
      list := UnlinkBlock(list, p, d, i, free);
    }
  }

  /** The next block of a fully free arena is still on the list and can be unlinked. */
  lemma UnlinkNext(free: seq<nat>, p: nat, d: nat, i: nat)
    requires NoDuplicates(free) && ListsArena(free, p, d) && i < BlocksPerArena(d)
    ensures var list := Without(free, BlocksTo(p, d, i));
            && BlockAt(p, d, i) in list && NoDuplicates(list)
            && Without(list, {BlockAt(p, d, i)}) == Without(free, BlocksTo(p, d, i + 1))
  {
    var b := BlockAt(p, d, i);
    NextBlock(p, d, i);
    WithoutKeepsDistinct(free, BlocksTo(p, d, i));
    WithoutBoth(free, BlocksTo(p, d, i), {b});
  }

  lemma NextBlock(p: nat, d: nat, i: nat)
    requires i < BlocksPerArena(d)
    ensures BlockAt(p, d, i) !in BlocksTo(p, d, i)
    ensures BlocksTo(p, d, i) + {BlockAt(p, d, i)} == BlocksTo(p, d, i + 1)
  {
    forall j | 0 <= j < i ensures BlockAt(p, d, j) != BlockAt(p, d, i) { BlockAtInjective(p, d, j, i); }
  }

  lemma DropArenaOthers(h: Heap, p: nat, d: nat)
    requires InvBut(h, Some(p)) && p in h.arenas && d < DESC_CNT && h.arenas[p] == Arena(Some(d), BlocksPerArena(d))
    ensures p < |h.used| && Others(DropArena(h, p, d)) == Others(h)
  {
    assert ArenaInv(h, p, Some(p));
    assert h.used[p := false] == SetRun(h.used, p, 1, false);
    OthersDropped(h, DropArena(h, p, d), p);
  }
}
