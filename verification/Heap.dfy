/** The kernel heap (src/mm/heap_allocator.rs), on top of the page tables and the frame allocator. */
module Heap {
  import opened Arithmetic
  import opened Bits
  import opened Descriptors
  import opened PageWalk
  import opened HeapLists
  import opened HeapSpace
  import opened FrameAllocator
  import M = Mmu

  /** An address; the panics on oversized alignment and beyond the heap's 512 GiB; or no frame left to grow with. */
  datatype AllocResult = Ptr(addr: nat) | PanicAlign | PanicRegion | OutOfMemory

  function Failure(g: Growth): AllocResult
  {
    if g == Growth.PanicRegion then AllocResult.PanicRegion else OutOfMemory
  }

  /** The most pages a request can make the heap grow by. */
  function PagesNeeded(l: Layout): nat
  {
    if HeadIndex(l) >= HEAD_COUNT then Pages(l) else 1
  }

  class Heap {
    const space: Space
    var heads: seq<nat>
    var multiPageList: nat
    ghost var st: State

    ghost predicate Tied()
      reads this, space.Repr()
    {
      && this !in space.Repr() && space.Valid()
      && st.size == space.size && st.mem == space.mem && st.heads == heads && st.multi == multiPageList
    }

    ghost predicate Valid()
      reads this, space.Repr()
    {
      Tied() && Inv(st)
    }

    ghost function FreeFrames(): nat
      reads space.mmu.frames
    {
      |space.mmu.frames.Free()|
    }

    /** The list that serves l has a block. */
    predicate Stocked(l: Layout)
      reads this
    {
      0 <= HeadIndex(l) < |heads| && heads[HeadIndex(l)] != NIL
    }

    constructor (space: Space)
      requires space.Valid() && space.size == 0
      ensures Valid() && this.space == space && LiveMap(st) == map[]
    {
      this.space := space;
      heads := seq(HEAD_COUNT, _ => NIL);
      multiPageList := NIL;
      st := Empty();
      new;
      EmptyInv();
      assert space.mem == map[];
    }

    lemma WordsAreMapped()
      requires space.Valid()
      ensures WordsMapped(space.mem, space.size)
    {
      hide Walk, Tree;
    }

    /** One more page; bookkeeping and contents stay. */
    method Grow() returns (r: Growth, page: nat)
      requires Valid()
      modifies this`st, space, space.mmu, space.mmu.phys, space.mmu.frames.words, space.mmu.frames`live
      ensures Valid()
      ensures st == old(st).(size := space.size, mem := space.mem)
      ensures LiveMap(st) == old(LiveMap(st)) && ContentsKept(old(st), space.mem)
      ensures r == Grown ==> page == HEAP_MAP_OFFSET + old(st).size
      ensures r == Grown <==> old(space.size) < L0_SPAN && old(FreeFrames()) >= old(space.PageCost())
      ensures r == Growth.PanicRegion <==> old(space.size) == L0_SPAN && old(FreeFrames()) > 0
      ensures r == Grown ==> FreeFrames() + old(space.PageCost()) == old(FreeFrames())
      ensures r == NoFrame ==> FreeFrames() == 0 && old(FreeFrames()) < 4
      ensures old(FreeFrames()) <= FreeFrames() + 4
      ensures space.size == if r == Grown then old(space.size) + PAGE_SIZE else old(space.size)
      ensures space.size <= L0_SPAN
    {
      hide Space.Valid, Inv, ContentsKept, LiveMap;
      ghost var s0 := st;
      r, page := space.AllocHeapPage();
      WordsAreMapped();
      GrowInv(s0, space.size, space.mem);
      GrowKeeps(s0, space.size, space.mem);
      st := st.(size := space.size, mem := space.mem);
    }

    /** Threads one block onto the list of its class: the link goes into the block itself. */
    method PushBlock(k: nat, node: nat)
      requires Tied() && InvBut(st, node) && node in st.blocks && k < HEAD_COUNT
      requires st.blocks[node].size == ClassSize(k) && node % ClassSize(k) == 0
      modifies this, space.mmu.phys, space`mem
      ensures Valid() && space.size == old(space.size)
      ensures |old(st).heads| == |old(st).free| == HEAD_COUNT && old(st).heads[k] < U64_LIMIT && st == Push(old(st), k, node)
      ensures LiveMap(st) == LiveMap(old(st)) && ContentsKept(old(st), space.mem)
    {
      hide Space.Valid, Core, Inv, InvBut, ContentsKept, LiveMap;
      PushInv(st, k, node);
      PushKeepsLive(st, k, node);
      BlockWord(st, node, 0);
      space.Store(node, heads[k]);
      heads := heads[k := node];
      st := Push(st, k, node);
    }

    lemma BlockWord(s: State, b: nat, i: nat)
      requires InvBut(s, b) && b in s.blocks && i % 8 == 0 && i + 8 <= 16
      ensures HeapWord(b + i, s.size)
    {
      hide Chained, FreeListed, RetiredListed, AllWellPlaced, Chains, Disjoint;
      BlockBounds(s.blocks, s.size, b);
    }

    /** One turn of the refill loop: the next block of the page joins the list. */
    method CarveBlock(k: nat, node: nat)
      requires Valid() && k < HEAD_COUNT && node % ClassSize(k) == 0 && node % 16 == 0 && 16 <= ClassSize(k)
      requires HEAP_MAP_OFFSET <= node && node + ClassSize(k) <= HEAP_MAP_OFFSET + space.size
      requires forall b | b in st.blocks :: b + st.blocks[b].size <= node
      modifies this, space.mmu.phys, space`mem
      ensures Valid() && space.size == old(space.size)
      ensures node !in old(st.blocks) && st.blocks == old(st.blocks)[node := Block.Block(ClassSize(k), Place.Free(k))]
      ensures LiveMap(st) == old(LiveMap(st)) && ContentsKept(old(st), space.mem)
      ensures |heads| == HEAD_COUNT && heads[k] == node
    {
      hide Space.Valid, Core, InvBut, ContentsKept, LiveMap;
      ghost var s0, s1 := st, Carve(st, node, ClassSize(k));
      CoreParts(s0);
      CarveInv(s0, node, ClassSize(k));
      CarveKeepsLive(s0, node, ClassSize(k));
      hide Inv;
      st := s1;
      PushBlock(k, node);
      KeptTrans(s0, s1, space.mem);
    }

    /** `refill_head`: a fresh page, cut into blocks of class k. */
    method RefillHead(k: nat) returns (r: Growth)
      requires Valid() && k < HEAD_COUNT
      modifies this, space, space.mmu, space.mmu.phys, space.mmu.frames.words, space.mmu.frames`live
      ensures Valid()
      ensures LiveMap(st) == old(LiveMap(st)) && ContentsKept(old(st), space.mem)
      ensures forall b | b in old(st.blocks) :: b in st.blocks && st.blocks[b] == old(st.blocks)[b]
      ensures r == Grown ==> |heads| == HEAD_COUNT && heads[k] != NIL
      ensures r == Grown ==> Tiled(st.blocks, HEAP_MAP_OFFSET + old(st.size), k, PAGE_SIZE)
      ensures r == Grown <==> old(space.size) < L0_SPAN && old(FreeFrames()) >= old(space.PageCost())
      ensures r == Growth.PanicRegion <==> old(space.size) == L0_SPAN && old(FreeFrames()) > 0
      ensures r == Grown ==> FreeFrames() + old(space.PageCost()) == old(FreeFrames())
      ensures r == NoFrame ==> FreeFrames() == 0 && old(FreeFrames()) < 4
      ensures old(FreeFrames()) <= FreeFrames() + 4
      ensures space.size == if r == Grown then old(space.size) + PAGE_SIZE else old(space.size)
      ensures space.size <= L0_SPAN
    {
      hide Space.Valid, Inv, ContentsKept, LiveMap, L0_SPAN, ClassSize, Tiled, FreeFrames, Space.PageCost;
      ghost var s0 := st;
      OldBlocksEnd(s0);
      PageAligned(s0);
      var page;
      r, page := Grow();
      if r != Grown { return; }
      ghost var s1 := st;
      CutPage(k, page);
      KeptTrans(s0, s1, st.mem);
    }

    /** The loop of `refill_head`. */
    method CutPage(k: nat, page: nat)
      requires Valid() && k < HEAD_COUNT && HEAP_MAP_OFFSET <= page && page % PAGE_SIZE == 0
      requires space.size == page - HEAP_MAP_OFFSET + PAGE_SIZE
      requires forall b | b in st.blocks :: b + st.blocks[b].size <= page
      modifies this, space.mmu.phys, space`mem
      ensures Valid() && space.size == old(space.size)
      ensures LiveMap(st) == old(LiveMap(st)) && ContentsKept(old(st), space.mem)
      ensures forall b | b in old(st.blocks) :: b in st.blocks && st.blocks[b] == old(st.blocks)[b]
      ensures |heads| == HEAD_COUNT && heads[k] != NIL && Tiled(st.blocks, page, k, PAGE_SIZE)
    {
      hide Space.Valid, Inv, ContentsKept, LiveMap, L0_SPAN, ClassSize, Tiled;
      ghost var s0 := st;
      CoreParts(s0);
      NothingWrittenKeeps(s0);
      var blockSize := ClassSize(k);
      ClassTilesPage(k);
      NothingTiled(st.blocks, page, k);
      var offset := 0;
      while offset < PAGE_SIZE
        invariant Valid() && offset <= PAGE_SIZE && offset % blockSize == 0
        invariant space.size == old(space.size)
        invariant forall b | b in st.blocks :: b + st.blocks[b].size <= page + offset
        invariant LiveMap(st) == LiveMap(s0) && ContentsKept(s0, st.mem)
        invariant forall b | b in s0.blocks :: b in st.blocks && st.blocks[b] == s0.blocks[b]
        invariant offset > 0 ==> |heads| == HEAD_COUNT && heads[k] != NIL
        invariant Tiled(st.blocks, page, k, offset)
      {
        ghost var before := st;
        CarveStep(k, page, offset);
        TileOne(st.blocks, page, k, offset);
        CarveBlock(k, page + offset);
        KeptTrans(s0, before, st.mem);
        offset := offset + blockSize;
      }
    }

    lemma NothingTiled(blocks: map<nat, Block>, page: nat, k: nat)
      ensures Tiled(blocks, page, k, 0)
    {
    }

    lemma TileOne(blocks: map<nat, Block>, page: nat, k: nat, offset: nat)
      requires Tiled(blocks, page, k, offset) && offset % ClassSize(k) == 0
      ensures Tiled(blocks[page + offset := Block.Block(ClassSize(k), Place.Free(k))], page, k, offset + ClassSize(k))
    {
      forall o: nat | offset < o < offset + ClassSize(k)
        ensures o % ClassSize(k) != 0
      {
        if o % ClassSize(k) == 0 { NextMultipleFits(offset, o, ClassSize(k)); }
      }
    }

    lemma PageAligned(s: State)
      requires Tied() && s == st
      ensures (HEAP_MAP_OFFSET + s.size) % PAGE_SIZE == 0
    {
      hide Mirrors, Distinct, PagesMapped, FramesHeld, M.Mmu.Valid;
    }

    lemma CoreParts(s: State)
      requires Inv(s)
      ensures Disjoint(s.blocks, s.size) && WordsMapped(s.mem, s.size)
    {
      hide Chained, Chains, FreeListed, RetiredListed, AllWellPlaced, Disjoint, WordsMapped;
    }

    lemma OldBlocksEnd(s: State)
      requires Inv(s)
      ensures forall b | b in s.blocks :: b + s.blocks[b].size <= HEAP_MAP_OFFSET + s.size
    {
    }

    /** `init_heap`: one page for every class, so no list starts empty. */
    method InitHeap() returns (r: Growth)
      requires Valid() && LiveMap(st) == map[]
      modifies this, space, space.mmu, space.mmu.phys, space.mmu.frames.words, space.mmu.frames`live
      ensures Valid() && LiveMap(st) == map[]
      ensures r == Grown ==> |heads| == HEAD_COUNT && forall k | 0 <= k < HEAD_COUNT :: heads[k] != NIL
      ensures r == NoFrame ==> old(FreeFrames()) < 4 * HEAD_COUNT
      ensures r == Growth.PanicRegion ==> old(space.size) + HEAD_COUNT * PAGE_SIZE > L0_SPAN
      ensures r == Grown ==> space.size == old(space.size) + HEAD_COUNT * PAGE_SIZE
      ensures old(FreeFrames()) <= FreeFrames() + 4 * HEAD_COUNT
    {
      hide Space.Valid, Inv, ContentsKept, LiveMap, Tiled;
      r := Grown;
      HeadCount(st);
      for index := 0 to HEAD_COUNT
        invariant Valid() && LiveMap(st) == map[] && |heads| == HEAD_COUNT
        invariant forall k | 0 <= k < index :: heads[k] != NIL
        invariant r == Grown && space.size == old(space.size) + index * PAGE_SIZE
        invariant old(FreeFrames()) <= FreeFrames() + 4 * index
      {
        ghost var before := st;
        r := RefillHead(index);
        if r != Grown { return; }
        ListsStayFilled(before, st, index);
      }
    }

    /** A list that had a block still has it if no block has moved. */
    lemma ListsStayFilled(s: State, s': State, n: nat)
      requires Inv(s) && Inv(s') && n <= HEAD_COUNT
      requires forall b | b in s.blocks :: b in s'.blocks && s'.blocks[b] == s.blocks[b]
      ensures |s.heads| == |s'.heads| == HEAD_COUNT && forall k | 0 <= k < n && s.heads[k] != NIL :: s'.heads[k] != NIL
    {
      HeadCount(s);
      HeadCount(s');
      forall k: nat | k < n && s.heads[k] != NIL
        ensures s'.heads[k] != NIL
      {
        HeadFits(s, k);
        HeadFits(s', k);
        FirstPlaced(s, k);
        PlacedFirst(s', k, s.free[k][0]);
      }
    }

    lemma FirstPlaced(s: State, k: nat)
      requires Inv(s) && k < HEAD_COUNT == |s.free| && s.free[k] != []
      ensures s.free[k][0] in s.blocks && s.blocks[s.free[k][0]].place == Place.Free(k)
    {
      hide Chains, Chained, RetiredListed, AllWellPlaced, Disjoint, WordsMapped;
      assert s.free[k][0] in s.free[k];
    }

    lemma PlacedFirst(s: State, k: nat, b: nat)
      requires Inv(s) && k < HEAD_COUNT == |s.free| && b in s.blocks && s.blocks[b].place == Place.Free(k)
      ensures s.free[k] != []
    {
      hide Chains, Chained, RetiredListed, AllWellPlaced, Disjoint, WordsMapped;
      assert b in s.free[k];
    }

    /** Hands out a block. Nothing else about live memory changes, and whatever is handed out is as large
        and aligned as asked and apart from every other live block (see `LiveBlocksServe`). */
    method Alloc(l: Layout) returns (r: AllocResult)
      requires Valid() && ValidLayout(l)
      modifies this, space, space.mmu, space.mmu.phys, space.mmu.frames.words, space.mmu.frames`live
      ensures Valid()
      ensures r == PanicAlign <==> l.align > PAGE_SIZE
      ensures r.Ptr? ==> r.addr !in old(LiveMap(st)) && LiveMap(st) == old(LiveMap(st))[r.addr := l]
      ensures !r.Ptr? ==> LiveMap(st) == old(LiveMap(st))
      ensures ContentsKept(old(st), space.mem)
      ensures r == OutOfMemory ==> old(FreeFrames()) < 4 * PagesNeeded(l)
      ensures r == AllocResult.PanicRegion ==> old(space.size) + PagesNeeded(l) * PAGE_SIZE > L0_SPAN
      ensures old(FreeFrames()) <= FreeFrames() + 4 * PagesNeeded(l)
      ensures l.align <= PAGE_SIZE && old(Stocked(l)) ==> r.Ptr? && FreeFrames() == old(FreeFrames())
      ensures l.align <= PAGE_SIZE && old(Stocked(l)) ==>
                r == Ptr(old(heads)[HeadIndex(l)]) && Taken(old(st), st, HeadIndex(l), r.addr)
      ensures OthersStay(old(st), st, if r.Ptr? then r.addr else NIL)
      ensures old(FreeFrames()) >= 4 * PagesNeeded(l) ==>
                (r.Ptr? <==> l.align <= PAGE_SIZE && (old(Stocked(l)) || old(space.size) + PagesNeeded(l) * PAGE_SIZE <= L0_SPAN))
    {
      hide Tied, Inv, ContentsKept, LiveMap, HeadIndex, Granted, FreeFrames;
      ReadySpace();
      if l.align > PAGE_SIZE { return PanicAlign; }
      ClassOfLayout(l);
      var headIndex := HeadIndex(l);
      if headIndex >= HEAD_COUNT {
        r := AllocPages(l);
        return;
      }
      r := AllocBlock(l, headIndex);
    }

    lemma ReadySpace()
      requires Valid()
      ensures ContentsKept(st, space.mem) && |heads| == HEAD_COUNT && space.size <= L0_SPAN
    {
      hide Inv, ContentsKept;
      CoreParts(st);
      NothingWrittenKeeps(st);
      HeadCount(st);
    }

    /** A request served from the list of its class, refilled first when it is empty. */
    method AllocBlock(l: Layout, k: nat) returns (r: AllocResult)
      requires Valid() && ValidLayout(l) && l.align <= PAGE_SIZE && k == HeadIndex(l) && k < HEAD_COUNT == |heads|
      modifies this, space, space.mmu, space.mmu.phys, space.mmu.frames.words, space.mmu.frames`live
      ensures Valid()
      ensures r.Ptr? ==> r.addr !in old(LiveMap(st)) && LiveMap(st) == old(LiveMap(st))[r.addr := l]
      ensures !r.Ptr? ==> r != PanicAlign && LiveMap(st) == old(LiveMap(st))
      ensures ContentsKept(old(st), space.mem)
      ensures old(heads)[k] != NIL ==> r.Ptr? && FreeFrames() == old(FreeFrames()) && Taken(old(st), st, k, r.addr)
      ensures old(heads)[k] != NIL ==> r == Ptr(old(heads)[k])
      ensures OthersStay(old(st), st, if r.Ptr? then r.addr else NIL)
      ensures r == OutOfMemory ==> old(FreeFrames()) < 4
      ensures r == AllocResult.PanicRegion ==> old(space.size) + PAGE_SIZE > L0_SPAN
      ensures r.Ptr? ==> old(heads)[k] != NIL || old(space.size) + PAGE_SIZE <= L0_SPAN
      ensures old(FreeFrames()) <= FreeFrames() + 4
    {
      hide Space.Valid, Inv, ContentsKept, LiveMap, HeadIndex, Granted, FreeFrames;
      ReadySpace();
      ghost var s0 := st;
      if heads[k] == NIL {
        var grown := RefillHead(k);
        if grown != Grown { return Failure(grown); }
      }
      ghost var s1 := st;
      var addr := PopBlock(k, l);
      KeptTrans(s0, s1, space.mem);
      r := Ptr(addr);
    }

    /** Whole pages for a request above the largest class: consecutive pages at the end of the heap. */
    method AllocPages(l: Layout) returns (r: AllocResult)
      requires Valid() && ValidLayout(l) && l.align <= PAGE_SIZE && HeadIndex(l) >= HEAD_COUNT
      modifies this, space, space.mmu, space.mmu.phys, space.mmu.frames.words, space.mmu.frames`live
      ensures Valid()
      ensures r.Ptr? ==> r.addr !in old(LiveMap(st)) && LiveMap(st) == old(LiveMap(st))[r.addr := l]
      ensures !r.Ptr? ==> r != PanicAlign && LiveMap(st) == old(LiveMap(st))
      ensures ContentsKept(old(st), space.mem)
      ensures r == OutOfMemory ==> old(FreeFrames()) < 4 * Pages(l)
      ensures r == AllocResult.PanicRegion ==> old(space.size) + Pages(l) * PAGE_SIZE > L0_SPAN
      ensures r.Ptr? ==> space.size == old(space.size) + Pages(l) * PAGE_SIZE <= L0_SPAN
      ensures r.Ptr? ==> r.addr == HEAP_MAP_OFFSET + old(space.size)
      ensures OthersStay(old(st), st, if r.Ptr? then r.addr else NIL)
      ensures old(FreeFrames()) <= FreeFrames() + 4 * Pages(l)
    {
      hide Space.Valid, Inv, ContentsKept, LiveMap, HeadIndex, L0_SPAN, Serves;
      ghost var s0 := st;
      OldBlocksEnd(s0);
      PageAligned(s0);
      PagesServe(HEAP_MAP_OFFSET + s0.size, l);
      var pages := Pages(l);
      hide Pages;
      var grown, va := Grow();
      if grown != Grown { return Failure(grown); }
      var i := 1;
      while i < pages
        invariant Valid() && 1 <= i <= pages
        invariant st == s0.(size := s0.size + i * PAGE_SIZE, mem := st.mem)
        invariant LiveMap(st) == LiveMap(s0) && ContentsKept(s0, st.mem)
        invariant old(FreeFrames()) <= FreeFrames() + 4 * i && space.size <= L0_SPAN
      {
        ghost var before := st;
        var more, next := Grow();
        KeptTrans(s0, before, st.mem);
        if more != Grown { return Failure(more); }
        i := i + 1;
      }
      GrantPages(s0, va, l);
      r := Ptr(va);
    }

    /** The pages just mapped become one live block. */
    ghost method GrantPages(s0: State, va: nat, l: Layout)
      requires Valid() && ContentsKept(s0, st.mem) && LiveMap(st) == LiveMap(s0)
      requires Pages(l) >= 2 && va % PAGE_SIZE == 0 && HEAP_MAP_OFFSET <= va
      requires va + Pages(l) * PAGE_SIZE <= HEAP_MAP_OFFSET + st.size && Serves(va, Pages(l) * PAGE_SIZE, l)
      requires forall b | b in st.blocks :: b + st.blocks[b].size <= va
      modifies `st
      ensures Valid() && va !in LiveMap(s0) && LiveMap(st) == LiveMap(s0)[va := l] && st.mem == old(st.mem)
      ensures OthersStay(old(st), st, va)
    {
      hide Space.Valid, Inv, InvBut, ContentsKept, LiveMap, Serves, Pages;
      GrantCarved(st, va, Pages(l) * PAGE_SIZE, l);
      st := Put(Carve(st, va, Pages(l) * PAGE_SIZE), va, Live(l));
    }

    lemma GrantCarved(s: State, va: nat, n: nat, l: Layout)
      requires Inv(s) && HEAP_MAP_OFFSET <= va && va % PAGE_SIZE == 0 && PAGE_SIZE <= n
      requires va + n <= HEAP_MAP_OFFSET + s.size && Serves(va, n, l)
      requires forall b | b in s.blocks :: b + s.blocks[b].size <= va
      ensures va in Carve(s, va, n).blocks && Inv(Put(Carve(s, va, n), va, Live(l)))
      ensures va !in LiveMap(s) && LiveMap(Put(Carve(s, va, n), va, Live(l))) == LiveMap(s)[va := l]
    {
      hide Inv, InvBut, ContentsKept, LiveMap, Serves, Disjoint, WordsMapped;
      assert va == 16 * (256 * (va / PAGE_SIZE));
      CarveInv(s, va, n);
      CoreParts(s);
      CarveKeepsLive(s, va, n);
      GrantInv(Carve(s, va, n), va, l);
      GrantLive(Carve(s, va, n), va, l);
    }

    /** Takes a live block back, under the layout it was handed out for. Every other block stays as it was. */
    method Dealloc(ptr: nat, l: Layout)
      requires Valid() && ptr in LiveMap(st) && LiveMap(st)[ptr] == l
      modifies this, space.mmu.phys, space`mem
      ensures Valid() && space.size == old(space.size)
      ensures LiveMap(st) == old(LiveMap(st)) - {ptr}
      ensures forall b, w: nat | b in LiveMap(st) && b <= w < b + Granted(LiveMap(st)[b]) && w % 8 == 0 ::
                w in old(space.mem) && w in space.mem && space.mem[w] == old(space.mem)[w]
      ensures Returned(old(st), st, l, ptr) && OthersStay(old(st), st, ptr)
    {
      hide Space.Valid, Inv, InvBut, ContentsKept, LiveMap, HeadIndex, Granted;
      ghost var s0 := st;
      var headIndex := HeadIndex(l);
      ReleaseReady(s0, ptr, l);
      ghost var s1 := Put(s0, ptr, Loose);
      hide Pages;
      st := s1;
      if headIndex >= HEAD_COUNT {
        RetireBlock(ptr, Pages(l));
      } else {
        PushBlock(headIndex, ptr);
      }
      KeptWords(s0, st, s1, ptr);
    }

    /** What is given back is handed out next: a block just freed serves the next request of its class. */
    method FreeThenAlloc(ptr: nat, l: Layout) returns (r: AllocResult)
      requires Valid() && ptr in LiveMap(st) && LiveMap(st)[ptr] == l && ValidLayout(l) && l.align <= PAGE_SIZE
      modifies this, space, space.mmu, space.mmu.phys, space.mmu.frames.words, space.mmu.frames`live
      ensures Valid() && (HeadIndex(l) < HEAD_COUNT ==> r == Ptr(ptr) && LiveMap(st) == old(LiveMap(st)))
    {
      hide Space.Valid, Inv, ContentsKept, LiveMap, HeadIndex, Granted;
      Dealloc(ptr, l);
      if HeadIndex(l) < HEAD_COUNT { FrontIsHead(st, HeadIndex(l), ptr); }
      r := Alloc(l);
    }

    lemma FrontIsHead(s: State, k: nat, ptr: nat)
      requires Inv(s) && k < |s.free| && s.free[k] != [] && s.free[k][0] == ptr
      ensures |s.heads| == |s.free| == HEAD_COUNT && s.heads[k] == ptr != NIL
    {
      hide RetiredListed, AllWellPlaced, Disjoint, WordsMapped;
      HeadCount(s);
      HeadFits(s, k);
      FirstIsHead(s, k);
    }

    lemma ReleaseReady(s: State, ptr: nat, l: Layout)
      requires Inv(s) && ptr in LiveMap(s) && LiveMap(s)[ptr] == l
      ensures ptr in s.blocks && InvBut(Put(s, ptr, Loose), ptr) && LiveMap(Put(s, ptr, Loose)) == LiveMap(s) - {ptr}
      ensures HeadIndex(l) >= HEAD_COUNT ==> s.blocks[ptr].size == Pages(l) * PAGE_SIZE > PAGE_SIZE && Pages(l) < U64_LIMIT
      ensures 0 <= HeadIndex(l)
      ensures HeadIndex(l) < HEAD_COUNT ==> s.blocks[ptr].size == ClassSize(HeadIndex(l)) && ptr % ClassSize(HeadIndex(l)) == 0
    {
      hide Chained, Chains, FreeListed, RetiredListed, HeadIndex, ClassSize, InvBut;
      assert WellPlaced(ptr, s.blocks[ptr]);
      ReleaseInv(s, ptr);
      ReleaseLive(s, ptr);
    }

    lemma KeptWords(s0: State, s: State, s1: State, ptr: nat)
      requires Inv(s) && LiveMap(s) == LiveMap(s1) && ContentsKept(s1, s.mem) && s1.mem == s0.mem
      requires ptr in s1.blocks && s1.blocks[ptr].place.Loose?
      requires forall b | b in s1.blocks && b != ptr :: b in s.blocks && s1.blocks[b] == s.blocks[b]
      ensures forall b, w: nat | b in LiveMap(s) && b <= w < b + Granted(LiveMap(s)[b]) && w % 8 == 0 ::
                w in s0.mem && w in s.mem && s.mem[w] == s0.mem[w]
    {
      hide Granted, Inv;
      forall b | b in LiveMap(s)
        ensures b in s.blocks && s.blocks[b].size == Granted(LiveMap(s)[b])
      {
        LiveBlock(s, b);
      }
    }

    /** A multi-page block records its page count and joins the multi-page list. */
    method RetireBlock(ptr: nat, pages: u64)
      requires Tied() && InvBut(st, ptr) && ptr in st.blocks && st.blocks[ptr].size == pages * PAGE_SIZE > PAGE_SIZE
      modifies this, space.mmu.phys, space`mem
      ensures Valid() && space.size == old(space.size)
      ensures old(st).multi < U64_LIMIT && st == Retire(old(st), ptr, pages)
      ensures LiveMap(st) == LiveMap(old(st)) && ContentsKept(old(st), space.mem)
    {
      hide Space.Valid, Core, Inv, InvBut, ContentsKept, LiveMap;
      RetireInv(st, ptr, pages);
      RetireKeeps(st, ptr, pages);
      BlockWord(st, ptr, 0);
      BlockWord(st, ptr, 8);
      space.Store(ptr, pages);
      space.Store(ptr + 8, multiPageList);
      multiPageList := ptr;
      st := Retire(st, ptr, pages);
    }

    /** The owner of a live block may write any word of it: the heap does not notice, and no other block changes. */
    method ClientStore(b: nat, va: nat, v: u64)
      requires Valid() && b in LiveMap(st) && b <= va && va + 8 <= b + Granted(LiveMap(st)[b]) && va % 8 == 0
      modifies `st, space.mmu.phys, space`mem
      ensures Valid() && LiveMap(st) == old(LiveMap(st)) && space.mem == old(space.mem)[va := v]
    {
      hide Space.Valid, Core, LiveMap, Granted;
      ghost var s0 := st;
      LiveBlock(s0, b);
      OwnWord(s0, b, va);
      WriteInside(s0, b, va - b, v);
      space.Store(va, v);
      st := s0.(mem := space.mem);
      SameBlocksSameLive(s0, st);
    }

    lemma OwnWord(s: State, b: nat, va: nat)
      requires Inv(s) && b in LiveMap(s) && b <= va && va + 8 <= b + s.blocks[b].size && va % 8 == 0
      ensures s.blocks[b].place.Live? && HeapWord(va, s.size)
    {
      hide Chained, Chains, FreeListed, RetiredListed, AllWellPlaced;
    }

    lemma HeadCount(s: State)
      requires Inv(s)
      ensures |s.heads| == HEAD_COUNT
    {
    }

    /** The head of a nonempty list goes to the caller. */
    method PopBlock(k: nat, l: Layout) returns (addr: nat)
      requires Valid() && k < HEAD_COUNT == |heads| && heads[k] != NIL
      requires ValidLayout(l) && l.align <= PAGE_SIZE && k == HeadIndex(l)
      modifies `heads, `st
      ensures Valid() && addr !in old(LiveMap(st)) && LiveMap(st) == old(LiveMap(st))[addr := l]
      ensures ContentsKept(old(st), space.mem)
      ensures Taken(old(st), st, k, addr) && OthersStay(old(st), st, addr) && addr == old(heads)[k]
    {
      hide Space.Valid, Inv, InvBut, ContentsKept, LiveMap, Serves, ClassSize, HeadIndex;
      ghost var s0 := st;
      PopInv(s0, k);
      addr := heads[k];
      PopReady(s0, k, addr);
      ghost var s1 := Pop(s0, k);
      ClassServes(k, addr, l);
      GrantInv(s1, addr, l);
      GrantLive(s1, addr, l);
      var next := space.Load(addr);
      heads := heads[k := next];
      st := Put(s1, addr, Live(l));
    }

    lemma PopReady(s: State, k: nat, addr: nat)
      requires Inv(s) && k < HEAD_COUNT == |s.heads| == |s.free| && addr == s.heads[k] && addr in s.blocks && addr in s.mem
      requires s.free[k] != [] && InvBut(Pop(s, k), addr)
      ensures HeapWord(addr, s.size) && LiveMap(Pop(s, k)) == LiveMap(s)
      ensures Pop(s, k).blocks[addr].place == Loose && Pop(s, k).blocks[addr].size == s.blocks[addr].size
      ensures ContentsKept(s, s.mem) && s.free[k][0] == addr
    {
      hide Chained, RetiredListed, Serves, ClassSize, LiveMap, ContentsKept, InvBut;
      BlockStart(s, addr);
      FirstIsHead(s, k);
      assert addr in s.free[k];
      hide Inv;
      PutKeepsLive(s, addr, Loose);
      SameBlocksSameLive(Put(s, addr, Loose), Pop(s, k));
      NothingWrittenKeeps(s);
    }

    lemma BlockStart(s: State, b: nat)
      requires Inv(s) && b in s.blocks
      ensures HeapWord(b, s.size) && Disjoint(s.blocks, s.size) && WordsMapped(s.mem, s.size)
    {
      hide Disjoint, WordsMapped, HeapWord;
      CoreParts(s);
      hide Inv;
      BlockBounds(s.blocks, s.size, b);
      BlockIsHeapWord(b, s.blocks[b].size, s.size);
    }

    lemma BlockIsHeapWord(b: nat, n: nat, size: nat)
      requires HEAP_MAP_OFFSET <= b && b % 16 == 0 && 16 <= n && b + n <= HEAP_MAP_OFFSET + size
      ensures HeapWord(b, size)
    {
      var q := b / 16;
      assert b == 2 * q * 8;
      MultipleMod(2 * q, 8);
    }

    lemma FirstIsHead(s: State, k: nat)
      requires Inv(s) && k < HEAD_COUNT == |s.heads| == |s.free| && s.free[k] != []
      ensures s.free[k][0] == s.heads[k]
    {
      hide FreeListed, RetiredListed, AllWellPlaced, Disjoint, WordsMapped;
    }
  }
}
