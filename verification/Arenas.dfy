/** The bookkeeping of the block allocator (pintos/src/threads/malloc.c): pages cut into blocks of
    one size, a free list per size, and a count of free blocks per page. Addresses are counted from
    the base of the kernel page pool, so page p is the bytes from 4096 * p. */
module Arenas {
  import opened Options
  import opened Nonlinear
  import opened Bitmap
  import opened Bytes
  import opened Sequences

  const PGSIZE: nat := 4096
  const HEADER: nat := 12 // sizeof (struct arena)
  const DESC_CNT: nat := 7

  /** The block sizes below half a page, from 16 up by doubling. */
  function BlockSizeOf(d: nat): (size: nat)
    ensures 16 <= size <= 1024
  {
    if d == 0 then 16 else if d == 1 then 32 else if d == 2 then 64 else if d == 3 then 128
    else if d == 4 then 256 else if d == 5 then 512 else 1024
  }

  function BlocksPerArena(d: nat): (cnt: nat)
    ensures 3 <= cnt && HEADER + cnt * BlockSizeOf(d) <= PGSIZE
  {
    if d == 0 then 255 else if d == 1 then 127 else if d == 2 then 63 else if d == 3 then 31
    else if d == 4 then 15 else if d == 5 then 7 else 3
  }

  /** An arena header: the descriptor and its free blocks, or a big block and its pages. */
  datatype Arena = Arena(desc: Option<nat>, freeCnt: nat)

  datatype Heap = Heap(used: seq<bool>, arenas: map<nat, Arena>, free: seq<seq<nat>>)

  function PageOf(a: nat): nat { a / PGSIZE }

  function OffsetOf(a: nat): nat { a % PGSIZE }

  function Pages(a: Arena): nat { if a.desc.Some? then 1 else a.freeCnt }

  function BlockAt(p: nat, d: nat, i: nat): nat { p * PGSIZE + HEADER + i * BlockSizeOf(d) }

  // ---------- The blocks of an arena ----------

  ghost function BlocksTo(p: nat, d: nat, n: nat): set<nat> {
    set i | 0 <= i < n :: BlockAt(p, d, i)
  }

  ghost function AllBlocks(p: nat, d: nat): set<nat> { BlocksTo(p, d, BlocksPerArena(d)) }

  lemma BlockAtInjective(p: nat, d: nat, i: nat, j: nat)
    requires i < j
    ensures BlockAt(p, d, i) + BlockSizeOf(d) <= BlockAt(p, d, j)
  {
    MulLess(i, j, BlockSizeOf(d));
  }

  lemma {:induction false} BlocksToSize(p: nat, d: nat, n: nat)
    ensures |BlocksTo(p, d, n)| == n
  {
    if n > 0 {
      BlocksToSize(p, d, n - 1);
      var last := BlockAt(p, d, n - 1);
      forall i | 0 <= i < n - 1 ensures BlockAt(p, d, i) != last { BlockAtInjective(p, d, i, n - 1); }
      assert BlocksTo(p, d, n) == BlocksTo(p, d, n - 1) + {last};
    }
  }

  /** A block lies inside its page, behind the header, at a multiple of its size: the alignment
      `block_to_arena` asserts, and what makes rounding down find the arena. */
  lemma BlockInPage(p: nat, d: nat, i: nat)
    requires i < BlocksPerArena(d)
    ensures var a := BlockAt(p, d, i);
            && PageOf(a) == p
            && OffsetOf(a) == HEADER + i * BlockSizeOf(d)
            && OffsetOf(a) + BlockSizeOf(d) <= PGSIZE
            && (OffsetOf(a) - HEADER) % BlockSizeOf(d) == 0
  {
    var s := BlockSizeOf(d);
    MulLess(i, BlocksPerArena(d), s);
    MulMono(0, i, s);
    QuotientIs(BlockAt(p, d, i), PGSIZE, p);
    QuotientIs(i * s, s, i);
  }

  lemma BlocksArePaged(p: nat, d: nat, a: nat)
    requires a in AllBlocks(p, d)
    ensures PageOf(a) == p && HEADER <= OffsetOf(a) && OffsetOf(a) + BlockSizeOf(d) <= PGSIZE
    ensures (OffsetOf(a) - HEADER) % BlockSizeOf(d) == 0
  {
    var i :| 0 <= i < BlocksPerArena(d) && a == BlockAt(p, d, i);
    BlockInPage(p, d, i);
  }

  // ---------- The invariant ----------

  /** The blocks of page p on a free list. */
  ghost function FreeOn(list: seq<nat>, p: nat): set<nat> {
    set a | a in list && PageOf(a) == p
  }

  /** Free list d is free of duplicates and holds only blocks of arenas of descriptor d. */
  ghost predicate ListInv(h: Heap, d: nat)
    requires d < |h.free|
  {
    && NoDuplicates(h.free[d])
    && forall a :: a in h.free[d] ==>
         && PageOf(a) in h.arenas
         && h.arenas[PageOf(a)].desc == Some(d)
         && a in AllBlocks(PageOf(a), d)
  }

  /** An arena's pages are in use, its count is the number of its blocks on the free list, and at
      least one block is not on it; the arena `slack`, if any, may be entirely free. */
  ghost predicate ArenaInv(h: Heap, p: nat, slack: Option<nat>)
    requires p in h.arenas && |h.free| == DESC_CNT
  {
    var a := h.arenas[p];
    && RunOf(h.used, p, Pages(a), true)
    && match a.desc
       case Some(d) =>
         d < DESC_CNT && a.freeCnt == |FreeOn(h.free[d], p)| && (slack == Some(p) || a.freeCnt < BlocksPerArena(d))
       case None => a.freeCnt >= 1
  }

  ghost predicate Disjoint(h: Heap) {
    forall p: nat, q: nat :: p in h.arenas && q in h.arenas && p < q ==> p + Pages(h.arenas[p]) <= q
  }

  ghost predicate InvBut(h: Heap, slack: Option<nat>) {
    && |h.free| == DESC_CNT
    && (forall d :: 0 <= d < DESC_CNT ==> ListInv(h, d))
    && (forall p {:trigger ArenaInv(h, p, slack)} :: p in h.arenas ==> ArenaInv(h, p, slack))
    && Disjoint(h)
  }

  ghost predicate Inv(h: Heap) { InvBut(h, None) }

  /** Blocks handed out and not yet freed: the blocks of an arena that are not on its free list,
      and big blocks. */
  ghost predicate Live(h: Heap, a: nat)
    requires |h.free| == DESC_CNT
  {
    && PageOf(a) in h.arenas
    && match h.arenas[PageOf(a)].desc
       case Some(d) => d < DESC_CNT && a in AllBlocks(PageOf(a), d) && a !in h.free[d]
       case None => OffsetOf(a) == HEADER
  }

  /** The same blocks are live but for a, and those that stay keep their size. */
  ghost predicate LiveExcept(h: Heap, h': Heap, a: nat)
    requires |h.free| == DESC_CNT && |h'.free| == DESC_CNT
  {
    && (forall x :: x != a ==> (Live(h, x) <==> Live(h', x)))
    && (forall x :: x != a && Live(h, x) ==> SizeOf(h', x) == SizeOf(h, x))
  }

  ghost predicate SameLive(h: Heap, h': Heap)
    requires |h.free| == DESC_CNT && |h'.free| == DESC_CNT
  {
    && (forall x :: Live(h, x) <==> Live(h', x))
    && (forall x :: Live(h, x) ==> SizeOf(h', x) == SizeOf(h, x))
  }

  /** The bytes a live block has room for, as `block_size` computes them. */
  function SizeOf(h: Heap, a: nat): int
    requires PageOf(a) in h.arenas
  {
    var arena := h.arenas[PageOf(a)];
    match arena.desc
    case Some(d) => BlockSizeOf(d)
    case None => PGSIZE * arena.freeCnt - OffsetOf(a)
  }

  /** The pages in use that belong to no arena: other users of the page pool. */
  ghost function Others(h: Heap): set<nat> {
    set q: nat | q < |h.used| && h.used[q] && !OwnedPage(h, q)
  }

  ghost predicate OwnedPage(h: Heap, q: nat) {
    exists p: nat :: p in h.arenas && p <= q < p + Pages(h.arenas[p])
  }

  // ---------- Consequences ----------

  /** Live blocks lie inside the pool and do not overlap. */
  lemma LiveBlocksDisjoint(h: Heap, a: nat, b: nat)
    requires Inv(h) && Live(h, a) && Live(h, b) && a < b
    ensures a + SizeOf(h, a) <= b
    ensures b + SizeOf(h, b) <= PGSIZE * |h.used|
  {
    var p: nat, q: nat := PageOf(a), PageOf(b);
    LiveExtent(h, a);
    LiveExtent(h, b);
    if p == q {
      if h.arenas[p].desc.Some? { SameArenaDisjoint(p, h.arenas[p].desc.value, a, b); }
    } else {
      assert p < q;
      assert p + Pages(h.arenas[p]) <= q;
      MulMono(p + Pages(h.arenas[p]), q, PGSIZE);
    }
  }

  /** Blocks of one arena keep their size as their distance. */
  lemma SameArenaDisjoint(p: nat, d: nat, a: nat, b: nat)
    requires a in AllBlocks(p, d) && b in AllBlocks(p, d) && a < b
    ensures a + BlockSizeOf(d) <= b
  {
    var i :| 0 <= i < BlocksPerArena(d) && a == BlockAt(p, d, i);
    var j :| 0 <= j < BlocksPerArena(d) && b == BlockAt(p, d, j);
    MulCancelLess(i, j, BlockSizeOf(d));
    BlockAtInjective(p, d, i, j);
  }

  lemma LiveExtent(h: Heap, a: nat)
    requires Inv(h) && Live(h, a)
    ensures var p := PageOf(a);
            && p * PGSIZE + HEADER <= a && SizeOf(h, a) > 0
            && a + SizeOf(h, a) <= (p + Pages(h.arenas[p])) * PGSIZE <= PGSIZE * |h.used|
  {
    var p := PageOf(a);
    assert ArenaInv(h, p, None);
    if h.arenas[p].desc.Some? { BlocksArePaged(p, h.arenas[p].desc.value, a); }
  }

  /** An arena is held exactly as long as one of its blocks is live. */
  lemma ArenaHasLiveBlock(h: Heap, p: nat) returns (a: nat)
    requires Inv(h) && p in h.arenas
    ensures Live(h, a) && PageOf(a) == p
  {
    assert ArenaInv(h, p, None);
    match h.arenas[p].desc
    case None =>
      a := p * PGSIZE + HEADER;
    case Some(d) =>
      BlocksToSize(p, d, BlocksPerArena(d));
      var free := FreeOn(h.free[d], p);
      if AllBlocks(p, d) <= free { SubsetSize(AllBlocks(p, d), free); }
      a :| a in AllBlocks(p, d) && a !in free;
      BlocksArePaged(p, d, a);
  }

  /** Once everything is freed, every page is back with the page allocator. */
  lemma NothingLiveNothingHeld(h: Heap)
    requires Inv(h) && forall a :: !Live(h, a)
    ensures h.arenas == map[] && (forall d :: 0 <= d < DESC_CNT ==> h.free[d] == [])
    ensures Others(h) == set q: nat | q < |h.used| && h.used[q]
  {
    forall p: nat ensures p !in h.arenas {
      if p in h.arenas { var a := ArenaHasLiveBlock(h, p); assert false; }
    }
    forall d | 0 <= d < DESC_CNT ensures h.free[d] == [] {
      assert ListInv(h, d);
      if h.free[d] != [] { var a := SomeElement(h.free[d]); }
    }
  }

  lemma SomeElement(s: seq<nat>) returns (a: nat)
    requires s != []
    ensures a in s
  {
    a := s[0];
  }

  // ---------- Steps of malloc and free ----------

  /** The block addresses of an arena in order. */
  function BlockList(p: nat, d: nat, n: nat): (s: seq<nat>)
    ensures |s| == n && forall i :: 0 <= i < n ==> s[i] == BlockAt(p, d, i)
  {
    seq(n, i requires 0 <= i < n => BlockAt(p, d, i))
  }

  /** A fresh page becomes an arena, all its blocks appended to the free list. */
  function NewArena(h: Heap, p: nat, d: nat): Heap
    requires d < |h.free| && p < |h.used|
  {
    Heap(h.used[p := true], h.arenas[p := Arena(Some(d), BlocksPerArena(d))],
         h.free[d := h.free[d] + BlockList(p, d, BlocksPerArena(d))])
  }

  /** The first block of a free list is handed out. */
  function TakeBlock(h: Heap, d: nat): Heap
    requires d < |h.free| && h.free[d] != []
  {
    var p := PageOf(h.free[d][0]);
    h.(free := h.free[d := h.free[d][1..]], arenas := AddFree(h.arenas, p, -1))
  }

  function AddFree(arenas: map<nat, Arena>, p: nat, n: int): map<nat, Arena> {
    if p in arenas && arenas[p].freeCnt + n >= 0 then
      arenas[p := arenas[p].(freeCnt := arenas[p].freeCnt + n)]
    else arenas
  }

  /** A block is pushed back onto its free list. */
  function PutBlock(h: Heap, a: nat, d: nat): Heap
    requires d < |h.free|
  {
    h.(free := h.free[d := [a] + h.free[d]], arenas := AddFree(h.arenas, PageOf(a), 1))
  }

  /** The list without the elements of a set, in order. */
  function Without(list: seq<nat>, gone: set<nat>): (r: seq<nat>)
    ensures forall a :: a in r <==> a in list && a !in gone
  {
    if list == [] then [] else (if list[0] in gone then [] else [list[0]]) + Without(list[1..], gone)
  }

  /** An arena with no live block is taken apart and its page returned. */
  ghost function DropArena(h: Heap, p: nat, d: nat): Heap
    requires d < |h.free| && p < |h.used|
  {
    Heap(h.used[p := false], h.arenas - {p}, h.free[d := Without(h.free[d], AllBlocks(p, d))])
  }

  function TakePages(h: Heap, p: nat, cnt: nat): Heap
    requires p + cnt <= |h.used|
  {
    h.(used := SetRun(h.used, p, cnt, true), arenas := h.arenas[p := Arena(None, cnt)])
  }

  function DropPages(h: Heap, p: nat): Heap
    requires p in h.arenas && p + h.arenas[p].freeCnt <= |h.used|
  {
    h.(used := SetRun(h.used, p, h.arenas[p].freeCnt, false), arenas := h.arenas - {p})
  }

  // ---------- They keep the invariant ----------

  /** A page that is not in use belongs to no arena. */
  lemma FreePagesUnowned(h: Heap, slack: Option<nat>, p: nat, cnt: nat)
    requires InvBut(h, slack) && RunOf(h.used, p, cnt, false)
    ensures forall q: nat :: q in h.arenas ==> q + Pages(h.arenas[q]) <= p || p + cnt <= q || cnt == 0
  {
    forall q: nat | q in h.arenas && cnt > 0 ensures q + Pages(h.arenas[q]) <= p || p + cnt <= q {
      assert ArenaInv(h, q, slack);
      assert h.used[q] && !h.used[p];
    }
  }

  lemma ArenaPageUsed(h: Heap, slack: Option<nat>, p: nat)
    requires InvBut(h, slack) && p in h.arenas
    ensures p < |h.used| && h.used[p]
  {
    assert ArenaInv(h, p, slack);
  }

  lemma FreePageNoArena(h: Heap, slack: Option<nat>, p: nat)
    requires InvBut(h, slack) && p < |h.used| && !h.used[p]
    ensures p !in h.arenas
  {
    if p in h.arenas { ArenaPageUsed(h, slack, p); }
  }

  lemma NewArenaLists(h: Heap, p: nat, d: nat)
    requires Inv(h) && d < DESC_CNT && h.free[d] == [] && p < |h.used| && !h.used[p]
    ensures forall e :: 0 <= e < DESC_CNT ==> ListInv(NewArena(h, p, d), e)
    ensures FreeOn(NewArena(h, p, d).free[d], p) == AllBlocks(p, d)
  {
    var h' := NewArena(h, p, d);
    FreePagesUnowned(h, None, p, 1);
    forall e | 0 <= e < DESC_CNT ensures ListInv(h', e) {
      assert ListInv(h, e);
      if e == d {
        forall i, j | 0 <= i < j < |h'.free[d]| ensures h'.free[d][i] != h'.free[d][j] { BlockAtInjective(p, d, i, j); }
        forall i | 0 <= i < |h'.free[d]| ensures h'.free[d][i] in AllBlocks(p, d) && PageOf(h'.free[d][i]) == p {
          BlockInPage(p, d, i);
        }
      }
    }
    forall a | a in AllBlocks(p, d) ensures a in h'.free[d] && PageOf(a) == p {
      BlocksArePaged(p, d, a);
      var i :| 0 <= i < BlocksPerArena(d) && a == BlockAt(p, d, i);
      assert h'.free[d][i] == a;
    }
  }

  lemma NewArenaArenas(h: Heap, p: nat, d: nat)
    requires Inv(h) && d < DESC_CNT && h.free[d] == [] && RunOf(h.used, p, 1, false)
    ensures forall q: nat :: q in NewArena(h, p, d).arenas ==> ArenaInv(NewArena(h, p, d), q, Some(p))
  {
    var h' := NewArena(h, p, d);
    NewArenaLists(h, p, d);
    forall q: nat | q in h'.arenas ensures ArenaInv(h', q, Some(p)) {
      if q == p {
        BlocksToSize(p, d, BlocksPerArena(d));
      } else {
        assert ArenaInv(h, q, None);
        assert h.arenas[q].desc == Some(d) ==> FreeOn(h'.free[d], q) == FreeOn(h.free[d], q);
      }
    }
  }

  lemma NewArenaLive(h: Heap, p: nat, d: nat)
    requires |h.free| == DESC_CNT && d < DESC_CNT && h.free[d] == [] && p < |h.used| && p !in h.arenas
    requires FreeOn(NewArena(h, p, d).free[d], p) == AllBlocks(p, d)
    ensures SameLive(h, NewArena(h, p, d))
  {
    var h' := NewArena(h, p, d);
    forall a ensures Live(h', a) <==> Live(h, a) {
      if PageOf(a) == p {
        assert a in AllBlocks(p, d) ==> a in FreeOn(h'.free[d], p);
      } else {
        NewBlocksElsewhere(p, d, a);
      }
    }
  }

  lemma NewBlocksElsewhere(p: nat, d: nat, a: nat)
    requires PageOf(a) != p
    ensures a !in BlockList(p, d, BlocksPerArena(d))
  {
    forall i | 0 <= i < BlocksPerArena(d) ensures BlockAt(p, d, i) != a { BlockInPage(p, d, i); }
  }

  /** A new arena makes nothing live. */
  lemma NewArenaInv(h: Heap, p: nat, d: nat)
    requires Inv(h) && d < DESC_CNT && h.free[d] == [] && RunOf(h.used, p, 1, false)
    ensures InvBut(NewArena(h, p, d), Some(p))
    ensures p !in h.arenas
    ensures SameLive(h, NewArena(h, p, d))
  {
    NewArenaLists(h, p, d);
    NewArenaArenas(h, p, d);
    FreePageNoArena(h, None, p);
    FreePagesUnowned(h, None, p, 1);
    NewArenaLive(h, p, d);
  }

  lemma TakeBlockArenas(h: Heap, d: nat, slack: Option<nat>)
    requires InvBut(h, slack) && d < DESC_CNT && h.free[d] != []
    requires slack.Some? ==> slack == Some(PageOf(h.free[d][0]))
    ensures forall q: nat :: q in TakeBlock(h, d).arenas ==> ArenaInv(TakeBlock(h, d), q, None)
  {
    var h' := TakeBlock(h, d);
    var b := h.free[d][0];
    assert ListInv(h, d) && b in h.free[d];
    assert b in FreeOn(h.free[d], PageOf(b));
    PopFront(h.free[d]);
    forall q: nat | q in h'.arenas ensures ArenaInv(h', q, None) {
      assert ArenaInv(h, q, slack);
      if h.arenas[q].desc == Some(d) {
        assert FreeOn(h'.free[d], q) == FreeOn(h.free[d], q) - {b};
        FreeBlocksFewer(h, q, d);
      }
    }
  }

  /** Handing out a block makes exactly that block live. */
  lemma TakeBlockLive(h: Heap, d: nat)
    requires |h.free| == DESC_CNT && d < DESC_CNT && ListInv(h, d) && h.free[d] != []
    ensures LiveExcept(h, TakeBlock(h, d), h.free[d][0])
    ensures !Live(h, h.free[d][0]) && Live(TakeBlock(h, d), h.free[d][0])
    ensures SizeOf(TakeBlock(h, d), h.free[d][0]) == BlockSizeOf(d)
  {
    assert h.free[d][0] in h.free[d];
    PopFront(h.free[d]);
  }

  lemma TakeBlockInv(h: Heap, d: nat, slack: Option<nat>)
    requires InvBut(h, slack) && d < DESC_CNT && h.free[d] != []
    requires slack.Some? ==> slack == Some(PageOf(h.free[d][0]))
    ensures Inv(TakeBlock(h, d))
  {
    var h' := TakeBlock(h, d);
    assert ListInv(h, d) && h.free[d][0] in h.free[d];
    PopFront(h.free[d]);
    TakeBlockArenas(h, d, slack);
    forall e | 0 <= e < DESC_CNT ensures ListInv(h', e) { assert ListInv(h, e); }
  }

  lemma FreeBlocksFewer(h: Heap, q: nat, d: nat)
    requires d < |h.free| && ListInv(h, d)
    ensures |FreeOn(h.free[d], q)| <= BlocksPerArena(d)
  {
    BlocksToSize(q, d, BlocksPerArena(d));
    SubsetSize(FreeOn(h.free[d], q), AllBlocks(q, d));
  }

  lemma PutBlockFree(h: Heap, a: nat, d: nat, q: nat)
    requires d < |h.free|
    ensures FreeOn(PutBlock(h, a, d).free[d], q)
         == FreeOn(h.free[d], q) + (if q == PageOf(a) then {a} else {})
  {
  }

  lemma PutBlockArena(h: Heap, a: nat, d: nat, q: nat)
    requires |h.free| == DESC_CNT && d < DESC_CNT && Live(h, a) && h.arenas[PageOf(a)].desc == Some(d)
    requires q in h.arenas && ArenaInv(h, q, None)
    ensures ArenaInv(PutBlock(h, a, d), q, Some(PageOf(a)))
  {
    PutBlockFree(h, a, d, q);
  }

  lemma PutBlockArenas(h: Heap, a: nat, d: nat)
    requires Inv(h) && Live(h, a) && h.arenas[PageOf(a)].desc == Some(d)
    ensures forall q: nat :: q in PutBlock(h, a, d).arenas ==> ArenaInv(PutBlock(h, a, d), q, Some(PageOf(a)))
  {
    forall q: nat | q in h.arenas ensures ArenaInv(PutBlock(h, a, d), q, Some(PageOf(a))) {
      assert ArenaInv(h, q, None);
      PutBlockArena(h, a, d, q);
    }
  }

  lemma PutBlockLive(h: Heap, a: nat, d: nat)
    requires |h.free| == DESC_CNT && d < DESC_CNT && Live(h, a) && h.arenas[PageOf(a)].desc == Some(d)
    ensures LiveExcept(h, PutBlock(h, a, d), a) && !Live(PutBlock(h, a, d), a)
  {
  }

  /** Taking a freed block back makes exactly that block not live. */
  lemma PutBlockInv(h: Heap, a: nat, d: nat)
    requires Inv(h) && Live(h, a) && h.arenas[PageOf(a)].desc == Some(d)
    ensures InvBut(PutBlock(h, a, d), Some(PageOf(a)))
    ensures PutBlock(h, a, d).arenas[PageOf(a)].freeCnt <= BlocksPerArena(d)
    ensures LiveExcept(h, PutBlock(h, a, d), a) && !Live(PutBlock(h, a, d), a)
  {
    var h' := PutBlock(h, a, d);
    assert ArenaInv(h, PageOf(a), None) && ListInv(h, d);
    PutBlockLive(h, a, d);
    PutBlockArenas(h, a, d);
    forall e | 0 <= e < DESC_CNT ensures ListInv(h', e) { assert ListInv(h, e); }
  }

  /** With a free block to spare the exception is not needed. */
  lemma SlackUnneeded(h: Heap, p: nat)
    requires InvBut(h, Some(p))
    requires p in h.arenas && h.arenas[p].desc.Some? ==> h.arenas[p].freeCnt < BlocksPerArena(h.arenas[p].desc.value)
    ensures Inv(h)
  {
    forall q | q in h.arenas ensures ArenaInv(h, q, None) { assert ArenaInv(h, q, Some(p)); }
  }

  lemma {:induction false} WithoutKeepsDistinct(list: seq<nat>, gone: set<nat>)
    requires NoDuplicates(list)
    ensures NoDuplicates(Without(list, gone))
  {
    if list != [] {
      PopFront(list);
      WithoutKeepsDistinct(list[1..], gone);
    }
  }

  /** A count equal to the number of blocks means every block of the arena is on the free list: the
      loop of `free` that unlinks them finds each one. */
  lemma FullArenaAllFree(h: Heap, p: nat, d: nat)
    requires InvBut(h, Some(p)) && p in h.arenas && h.arenas[p] == Arena(Some(d), BlocksPerArena(d))
    ensures d < DESC_CNT && FreeOn(h.free[d], p) == AllBlocks(p, d)
  {
    assert ArenaInv(h, p, Some(p));
    assert ListInv(h, d);
    BlocksToSize(p, d, BlocksPerArena(d));
    var f, all := FreeOn(h.free[d], p), AllBlocks(p, d);
    assert f <= all;
    SubsetSize(f, all);
  }

  lemma DropArenaLists(h: Heap, p: nat, d: nat)
    requires |h.free| == DESC_CNT && d < DESC_CNT && p < |h.used| && p in h.arenas && h.arenas[p].desc == Some(d)
    requires (forall e :: 0 <= e < DESC_CNT ==> ListInv(h, e)) && FreeOn(h.free[d], p) == AllBlocks(p, d)
    ensures forall e :: 0 <= e < DESC_CNT ==> ListInv(DropArena(h, p, d), e)
  {
    var h' := DropArena(h, p, d);
    assert ListInv(h, d);
    WithoutKeepsDistinct(h.free[d], AllBlocks(p, d));
    forall e | 0 <= e < DESC_CNT ensures ListInv(h', e) {
      assert ListInv(h, e);
      assert e == d ==> forall a :: a in h'.free[d] ==> PageOf(a) != p;
    }
  }

  lemma DropArenaOther(h: Heap, p: nat, d: nat, q: nat)
    requires |h.free| == DESC_CNT && d < DESC_CNT && p in h.arenas && h.arenas[p].desc == Some(d) && p < |h.used|
    requires Disjoint(h) && q in h.arenas && q != p && ArenaInv(h, q, Some(p))
    ensures ArenaInv(DropArena(h, p, d), q, None)
  {
    if h.arenas[q].desc == Some(d) { DropKeepsOthersFree(h, p, d, q); }
    assert p < q ==> p + 1 <= q;
    assert q < p ==> q + Pages(h.arenas[q]) <= p;
  }

  lemma DropArenaLive(h: Heap, p: nat, d: nat)
    requires |h.free| == DESC_CNT && d < DESC_CNT && p < |h.used| && p in h.arenas && h.arenas[p].desc == Some(d)
    requires FreeOn(h.free[d], p) == AllBlocks(p, d)
    ensures SameLive(h, DropArena(h, p, d))
  {
    var h' := DropArena(h, p, d);
    forall a ensures Live(h', a) <==> Live(h, a) {
      if PageOf(a) == p {
        assert a in AllBlocks(p, d) ==> a in FreeOn(h.free[d], p);
      } else if a in AllBlocks(p, d) {
        BlocksArePaged(p, d, a);
      }
    }
  }

  lemma DropArenaInv(h: Heap, p: nat, d: nat)
    requires InvBut(h, Some(p)) && p in h.arenas && h.arenas[p] == Arena(Some(d), BlocksPerArena(d))
    ensures d < DESC_CNT && p < |h.used| && Inv(DropArena(h, p, d))
    ensures SameLive(h, DropArena(h, p, d))
  {
    FullArenaAllFree(h, p, d);
    assert ArenaInv(h, p, Some(p));
    DropArenaLists(h, p, d);
    forall q: nat | q in h.arenas && q != p ensures ArenaInv(DropArena(h, p, d), q, None) {
      assert ArenaInv(h, q, Some(p));
      DropArenaOther(h, p, d, q);
    }
    DropArenaLive(h, p, d);
  }

  lemma DropKeepsOthersFree(h: Heap, p: nat, d: nat, q: nat)
    requires d < |h.free| && p < |h.used| && q != p
    ensures FreeOn(DropArena(h, p, d).free[d], q) == FreeOn(h.free[d], q)
  {
    forall a | a in FreeOn(h.free[d], q) ensures a !in AllBlocks(p, d) {
      if a in AllBlocks(p, d) { BlocksArePaged(p, d, a); }
    }
  }

  lemma TakePagesKeepsInv(h: Heap, p: nat, cnt: nat)
    requires Inv(h) && cnt >= 1 && RunOf(h.used, p, cnt, false)
    ensures Inv(TakePages(h, p, cnt)) && p !in h.arenas
  {
    var h' := TakePages(h, p, cnt);
    FreePageNoArena(h, None, p);
    FreePagesUnowned(h, None, p, cnt);
    forall e | 0 <= e < DESC_CNT ensures ListInv(h', e) { assert ListInv(h, e); }
    forall q: nat | q in h'.arenas ensures ArenaInv(h', q, None) {
      if q != p { assert ArenaInv(h, q, None); }
    }
  }

  lemma TakePagesLive(h: Heap, p: nat, cnt: nat)
    requires |h.free| == DESC_CNT && p + cnt <= |h.used| && p !in h.arenas
    ensures LiveExcept(h, TakePages(h, p, cnt), p * PGSIZE + HEADER)
    ensures Live(TakePages(h, p, cnt), p * PGSIZE + HEADER) && !Live(h, p * PGSIZE + HEADER)
    ensures SizeOf(TakePages(h, p, cnt), p * PGSIZE + HEADER) == PGSIZE * cnt - HEADER
  {
  }

  /** A big block on pages that were free keeps the bookkeeping in agreement and is the one block more. */
  lemma TakePagesInv(h: Heap, p: nat, cnt: nat)
    requires Inv(h) && cnt >= 1 && RunOf(h.used, p, cnt, false)
    ensures Inv(TakePages(h, p, cnt)) && p !in h.arenas
    ensures LiveExcept(h, TakePages(h, p, cnt), p * PGSIZE + HEADER)
    ensures Live(TakePages(h, p, cnt), p * PGSIZE + HEADER) && !Live(h, p * PGSIZE + HEADER)
    ensures SizeOf(TakePages(h, p, cnt), p * PGSIZE + HEADER) == PGSIZE * cnt - HEADER
  {
    TakePagesKeepsInv(h, p, cnt);
    TakePagesLive(h, p, cnt);
  }

  lemma DropPagesOther(h: Heap, p: nat, q: nat)
    requires |h.free| == DESC_CNT && p in h.arenas && h.arenas[p].desc == None && Disjoint(h)
    requires p + h.arenas[p].freeCnt <= |h.used| && q in h.arenas && q != p && ArenaInv(h, q, None)
    ensures ArenaInv(DropPages(h, p), q, None)
  {
    assert p < q ==> p + h.arenas[p].freeCnt <= q;
    assert q < p ==> q + Pages(h.arenas[q]) <= p;
  }

  lemma DropPagesLive(h: Heap, a: nat)
    requires |h.free| == DESC_CNT && Live(h, a) && h.arenas[PageOf(a)].desc == None
    requires PageOf(a) + h.arenas[PageOf(a)].freeCnt <= |h.used|
    ensures LiveExcept(h, DropPages(h, PageOf(a)), a) && !Live(DropPages(h, PageOf(a)), a)
  {
  }

  lemma DropPagesInv(h: Heap, a: nat)
    requires Inv(h) && Live(h, a) && h.arenas[PageOf(a)].desc == None
    ensures RunOf(h.used, PageOf(a), h.arenas[PageOf(a)].freeCnt, true)
    ensures Inv(DropPages(h, PageOf(a)))
    ensures LiveExcept(h, DropPages(h, PageOf(a)), a) && !Live(DropPages(h, PageOf(a)), a)
  {
    var p := PageOf(a);
    assert ArenaInv(h, p, None);
    DropPagesLive(h, a);
    forall e | 0 <= e < DESC_CNT ensures ListInv(DropPages(h, p), e) { DropPagesList(h, p, e); }
    forall q: nat | q in h.arenas && q != p ensures ArenaInv(DropPages(h, p), q, None) {
      assert ArenaInv(h, q, None);
      DropPagesOther(h, p, q);
    }
  }

  lemma DropPagesList(h: Heap, p: nat, e: nat)
    requires Inv(h) && p in h.arenas && h.arenas[p].desc == None && p + h.arenas[p].freeCnt <= |h.used| && e < DESC_CNT
    ensures ListInv(DropPages(h, p), e)
  {
    assert ListInv(h, e);
  }

  // ---------- Other users of the pool ----------

  /** Every step leaves the pages of other users as they are. */
  lemma OthersSame(h: Heap, h': Heap)
    requires h'.used == h.used && h'.arenas.Keys == h.arenas.Keys
    requires forall p :: p in h.arenas ==> Pages(h'.arenas[p]) == Pages(h.arenas[p])
    ensures Others(h') == Others(h)
  {
    forall q: nat ensures OwnedPage(h', q) <==> OwnedPage(h, q) {
      if p: nat :| p in h.arenas && p <= q < p + Pages(h.arenas[p]) { assert p in h'.arenas; }
      if p: nat :| p in h'.arenas && p <= q < p + Pages(h'.arenas[p]) { assert p in h.arenas; }
    }
  }

  lemma OthersTaken(h: Heap, h': Heap, p: nat, cnt: nat)
    requires RunOf(h.used, p, cnt, false) && p !in h.arenas
    requires h'.arenas.Keys == h.arenas.Keys + {p} && Pages(h'.arenas[p]) == cnt
    requires forall q :: q in h.arenas ==> h'.arenas[q] == h.arenas[q]
    requires h'.used == SetRun(h.used, p, cnt, true)
    ensures Others(h') == Others(h)
  {
    forall q: nat ensures OwnedPage(h', q) <==> OwnedPage(h, q) || p <= q < p + cnt {
      if r: nat :| r in h.arenas && r <= q < r + Pages(h.arenas[r]) { assert r in h'.arenas; }
      if p <= q < p + cnt { assert p in h'.arenas; }
    }
  }

  lemma OthersDropped(h: Heap, h': Heap, p: nat)
    requires p in h.arenas && p + Pages(h.arenas[p]) <= |h.used| && Disjoint(h)
    requires h'.arenas == h.arenas - {p}
    requires h'.used == SetRun(h.used, p, Pages(h.arenas[p]), false)
    ensures Others(h') == Others(h)
  {
    var cnt := Pages(h.arenas[p]);
    forall q: nat | q < p || p + cnt <= q ensures OwnedPage(h', q) <==> OwnedPage(h, q) {
      if r: nat :| r in h.arenas && r <= q < r + Pages(h.arenas[r]) { assert r in h'.arenas; }
    }
    forall q: nat | p <= q < p + cnt ensures OwnedPage(h, q) { assert p in h.arenas; }
  }

  lemma NewArenaOthers(h: Heap, p: nat, d: nat)
    requires Inv(h) && d < DESC_CNT && RunOf(h.used, p, 1, false)
    ensures Others(NewArena(h, p, d)) == Others(h)
  {
    FreePageNoArena(h, None, p);
    assert h.used[p := true] == SetRun(h.used, p, 1, true);
    OthersTaken(h, NewArena(h, p, d), p, 1);
  }

  /** The arena of the block at the head of a free list counts it. */
  lemma TakeBlockCounts(h: Heap, d: nat, slack: Option<nat>)
    requires InvBut(h, slack) && d < DESC_CNT && h.free[d] != []
    ensures var p := PageOf(h.free[d][0]); p in h.arenas && h.arenas[p].freeCnt > 0
  {
    var b := h.free[d][0];
    assert ListInv(h, d) && b in h.free[d];
    assert ArenaInv(h, PageOf(b), slack) && b in FreeOn(h.free[d], PageOf(b));
  }

  // ---------- Contents ----------

  /** Every live block reads the same in both memories. */
  ghost predicate SameContents(h: Heap, m: seq<byte>, m': seq<byte>)
    requires |h.free| == DESC_CNT
  {
    && |m'| == |m|
    && forall x: nat, i: nat :: Live(h, x) && x <= i < x + SizeOf(h, x) && i < |m| ==> m'[i] == m[i]
  }

  /** Overwriting one block disturbs no other live block. */
  lemma OtherBlocksUntouched(h: Heap, h': Heap, a: nat, m: seq<byte>, m': seq<byte>)
    requires Inv(h) && Live(h, a) && |h'.free| == DESC_CNT
    requires LiveExcept(h, h', a) && !Live(h', a)
    requires ChangedWithin(m, m', a, a + SizeOf(h, a))
    ensures SameContents(h', m, m')
  {
    forall x: nat, i: nat | Live(h', x) && x <= i < x + SizeOf(h', x) && i < |m| ensures m'[i] == m[i] {
      assert Live(h, x) && SizeOf(h', x) == SizeOf(h, x);
      if x < a { LiveBlocksDisjoint(h, x, a); } else { LiveBlocksDisjoint(h, a, x); }
    }
  }

  /** Overwriting pages that are not in use disturbs no live block. */
  lemma FreePagesHoldNothing(h: Heap, p: nat, cnt: nat, m: seq<byte>, m': seq<byte>)
    requires Inv(h) && RunOf(h.used, p, cnt, false)
    requires ChangedWithin(m, m', p * PGSIZE, (p + cnt) * PGSIZE)
    ensures SameContents(h, m, m')
  {
    FreePagesUnowned(h, None, p, cnt);
    forall x: nat, i: nat | Live(h, x) && x <= i < x + SizeOf(h, x) && i < |m| ensures m'[i] == m[i] {
      LiveExtent(h, x);
    }
  }

  lemma SameContentsTrans(h: Heap, m: seq<byte>, m': seq<byte>, m'': seq<byte>)
    requires |h.free| == DESC_CNT && SameContents(h, m, m') && SameContents(h, m', m'')
    ensures SameContents(h, m, m'')
  {
  }

  lemma SameContentsCarries(h: Heap, h': Heap, m: seq<byte>, m': seq<byte>)
    requires |h.free| == DESC_CNT && |h'.free| == DESC_CNT && SameLive(h, h') && SameContents(h, m, m')
    ensures SameContents(h', m, m')
  {
  }

  /** Every live block but a reads the same in both memories. */
  ghost predicate SameContentsBut(h: Heap, a: nat, m: seq<byte>, m': seq<byte>)
    requires |h.free| == DESC_CNT
  {
    && |m'| == |m|
    && forall x: nat, i: nat :: Live(h, x) && x != a && x <= i < x + SizeOf(h, x) && i < |m| ==> m'[i] == m[i]
  }

  /** Writing inside one live block shows in no other. */
  lemma WriteStaysInBlock(h: Heap, a: nat, n: nat, m: seq<byte>, m': seq<byte>)
    requires Inv(h) && Live(h, a) && n <= SizeOf(h, a)
    requires ChangedWithin(m, m', a, a + n)
    ensures SameContentsBut(h, a, m, m')
  {
    forall x: nat, i: nat | Live(h, x) && x != a && x <= i < x + SizeOf(h, x) && i < |m| ensures m'[i] == m[i] {
      if x < a { LiveBlocksDisjoint(h, x, a); } else { LiveBlocksDisjoint(h, a, x); }
    }
  }
}
