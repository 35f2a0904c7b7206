/** The heap's virtual address range: pages mapped one after another from HEAP_MAP_OFFSET, read and
    written through the page tables (src/mm/heap_allocator.rs, `alloc_heap_page`). */
module HeapSpace {
  import opened Bits
  import opened Descriptors
  import opened PageWalk
  import opened FrameAllocator
  import opened M = Mmu

  const HEAP_FIRST_PAGE: nat := HEAP_MAP_OFFSET / PAGE_SIZE
  const HEAP_ATTRS: nat := 0x0040_0000_0000_070B

  /** Address of word j of heap page i. */
  function WordAddr(i: nat, j: nat): nat
  {
    HEAP_MAP_OFFSET + i * PAGE_SIZE + j * 8
  }

  function PageOf(va: nat): nat
    requires va >= HEAP_MAP_OFFSET
  {
    (va - HEAP_MAP_OFFSET) / PAGE_SIZE
  }

  function WordOf(va: nat): nat
    requires va >= HEAP_MAP_OFFSET
  {
    (va - HEAP_MAP_OFFSET) % PAGE_SIZE / 8
  }

  predicate HeapWord(va: nat, size: nat)
  {
    HEAP_MAP_OFFSET <= va < HEAP_MAP_OFFSET + size && va % 8 == 0
  }

  lemma WordParts(va: nat, size: nat, n: nat)
    requires HeapWord(va, size) && size == n * PAGE_SIZE
    ensures PageOf(va) < n && WordOf(va) < ENTRIES && va == WordAddr(PageOf(va), WordOf(va))
  {
  }

  lemma PartsOfWord(i: nat, j: nat, n: nat)
    requires i < n && j < ENTRIES
    ensures HeapWord(WordAddr(i, j), n * PAGE_SIZE) && PageOf(WordAddr(i, j)) == i && WordOf(WordAddr(i, j)) == j
  {
  }

  lemma HeapIndices(va: nat)
    requires HEAP_MAP_OFFSET <= va < HEAP_MAP_OFFSET + L0_SPAN
    ensures Kernel(va) && Index(va, 0) == HEAP_INDEX && PageNumber(va) == HEAP_FIRST_PAGE + PageOf(va)
    ensures va % PAGE_SIZE == (va - HEAP_MAP_OFFSET) % PAGE_SIZE
  {
  }

  lemma PageOffset(f: nat, va: nat)
    requires f % PAGE_SIZE == 0 && va % 8 == 0 && va >= HEAP_MAP_OFFSET
    ensures AlignDown(f + va % PAGE_SIZE) == f && (f + va % PAGE_SIZE) % PAGE_SIZE / 8 == WordOf(va)
    ensures (f + va % PAGE_SIZE) / 8 == f / 8 + WordOf(va)
  {
    var q, r := f / PAGE_SIZE, va % PAGE_SIZE;
    assert f == PAGE_SIZE * q;
    assert f / 8 == ENTRIES * q;
    assert (va - HEAP_MAP_OFFSET) / PAGE_SIZE == va / PAGE_SIZE - HEAP_MAP_OFFSET / PAGE_SIZE;
    assert (f + r) % PAGE_SIZE == r;
    assert r == (va - HEAP_MAP_OFFSET) % PAGE_SIZE;
  }

  /** How `alloc_heap_page` ends: with a page, for want of a frame, or in the panic of `map_page` once the 512 GiB of its
      level-0 entry are used up. */
  datatype Growth = Grown | NoFrame | PanicRegion

  ghost predicate Distinct(backing: seq<nat>)
  {
    forall i, j | 0 <= i < j < |backing| :: backing[i] != backing[j]
  }

  /** Physical memory holds the virtual words, page by page. */
  ghost predicate Mirrors(m: Memory, backing: seq<nat>, mem: map<nat, u64>)
  {
    && (forall i | 0 <= i < |backing| :: TableAt(m, backing[i]))
    && (forall va :: va in mem <==> HeapWord(va, |backing| * PAGE_SIZE))
    && (forall i: nat, j: nat | i < |backing| && j < ENTRIES ::
          WordAddr(i, j) in mem && mem[WordAddr(i, j)] == Desc(m, backing[i], j))
  }

  lemma MirrorsAfterStore(m: Memory, backing: seq<nat>, mem: map<nat, u64>, va: nat, v: u64)
    requires Mirrors(m, backing, mem) && Distinct(backing) && va in mem
    ensures PageOf(va) < |backing| && WordOf(va) < ENTRIES
    ensures mem[va] == Desc(m, backing[PageOf(va)], WordOf(va))
    ensures Mirrors(SetDesc(m, backing[PageOf(va)], WordOf(va), v), backing, mem[va := v])
  {
    WordParts(va, |backing| * PAGE_SIZE, |backing|);
    var p, w := PageOf(va), WordOf(va);
    hide SetDesc, WordAddr, PageOf, WordOf;
    var m', mem' := SetDesc(m, backing[p], w, v), mem[va := v];
    DescAfterSet(m, backing[p], w, v, backing[p], w);
    forall i: nat, j: nat | i < |backing| && j < ENTRIES
      ensures WordAddr(i, j) in mem' && mem'[WordAddr(i, j)] == Desc(m', backing[i], j)
    {
      PartsOfWord(i, j, |backing|);
      DescAfterSet(m, backing[p], w, v, backing[i], j);
    }
  }

  /** Heap page i is mapped, cacheable and not executable, to frame `backing[i]`. */
  ghost predicate PagesMapped(pages: map<nat, u64>, backing: seq<nat>)
  {
    forall v: nat | HEAP_FIRST_PAGE <= v < HEAP_FIRST_PAGE + |backing| ::
      v in pages && pages[v] == LeafDescriptor(HEAP_INDEX, backing[v - HEAP_FIRST_PAGE])
  }

  /** The frames behind the heap are handed out and hold no table. */
  ghost predicate FramesHeld(frames: BitMapFrameAllocator, live: set<nat>, tables: set<nat>, backing: seq<nat>)
  {
    && frames.frameSize > 0
    && forall i | 0 <= i < |backing| ::
         && frames.start <= backing[i] < ADDR_LIMIT && backing[i] !in tables && backing[i] % PAGE_SIZE == 0
         && frames.FrameIndex(backing[i]) in live && backing[i] == frames.FrameAddr(frames.FrameIndex(backing[i]))
  }

  /** The virtual words the frames hold. */
  ghost function MemOf(m: Memory, backing: seq<nat>): map<nat, u64>
    requires forall i | 0 <= i < |backing| :: TableAt(m, backing[i])
  {
    map va | HEAP_MAP_OFFSET <= va < HEAP_MAP_OFFSET + |backing| * PAGE_SIZE && va % 8 == 0 ::
      Desc(m, backing[PageOf(va)], WordOf(va))
  }

  lemma MemOfMirrors(m: Memory, backing: seq<nat>)
    requires forall i | 0 <= i < |backing| :: TableAt(m, backing[i])
    ensures Mirrors(m, backing, MemOf(m, backing))
  {
    forall i: nat, j: nat | i < |backing| && j < ENTRIES
      ensures WordAddr(i, j) in MemOf(m, backing) && MemOf(m, backing)[WordAddr(i, j)] == Desc(m, backing[i], j)
    {
      PartsOfWord(i, j, |backing|);
    }
  }

  /** If only tables were written, the words of the old heap pages are as before, and one more page reads on. */
  lemma GrowMirrors(m: Memory, m': Memory, backing: seq<nat>, mem: map<nat, u64>, tables: set<nat>, f: nat)
    requires Mirrors(m, backing, mem) && Untouched(m, m', tables) && TableAt(m, f)
    requires forall i | 0 <= i < |backing| :: backing[i] !in tables
    requires f !in tables
    ensures Mirrors(m', backing, mem)
    ensures forall i | 0 <= i < |backing + [f]| :: TableAt(m', (backing + [f])[i])
    ensures Mirrors(m', backing + [f], MemOf(m', backing + [f]))
    ensures forall w | w in mem :: w in MemOf(m', backing + [f]) && MemOf(m', backing + [f])[w] == mem[w]
  {
    forall i: nat, j: nat | i < |backing| && j < ENTRIES
      ensures Desc(m', backing[i], j) == Desc(m, backing[i], j)
    {
      assert PageWalk.Page(m', backing[i])[j] == PageWalk.Page(m, backing[i])[j];
    }
    MemOfMirrors(m', backing + [f]);
    forall w | w in mem
      ensures w in MemOf(m', backing + [f]) && MemOf(m', backing + [f])[w] == mem[w]
    {
      WordParts(w, |backing| * PAGE_SIZE, |backing|);
      assert mem[WordAddr(PageOf(w), WordOf(w))] == Desc(m, backing[PageOf(w)], WordOf(w));
    }
  }

  /** A frame that was free joins the held ones. */
  lemma OneMoreHeld(frames: BitMapFrameAllocator, live: set<nat>, live': set<nat>, tables: set<nat>, backing: seq<nat>, f: nat)
    requires FramesHeld(frames, live, tables, backing) && Distinct(backing) && live <= live'
    requires frames.start <= f < ADDR_LIMIT && f % PAGE_SIZE == 0 && f !in tables
    requires frames.FrameIndex(f) in live' - live && f == frames.FrameAddr(frames.FrameIndex(f))
    ensures FramesHeld(frames, live', tables, backing) && FramesHeld(frames, live', tables, backing + [f])
    ensures Distinct(backing + [f])
  {
  }

  class Space {
    const mmu: Mmu
    var size: nat
    ghost var backing: seq<nat>
    ghost var mem: map<nat, u64>

    ghost function Repr(): set<object>
    {
      {this} + mmu.Repr()
    }

    ghost predicate Valid()
      reads Repr()
    {
      && mmu.Valid()
      && size == |backing| * PAGE_SIZE <= L0_SPAN && Distinct(backing)
      && PagesMapped(mmu.pages, backing)
      && FramesHeld(mmu.frames, mmu.frames.live, mmu.node.Values + mmu.userNode.Values, backing)
      && Mirrors(mmu.phys[..], backing, mem)
    }

    constructor (mmu: Mmu)
      requires mmu.Valid()
      ensures Valid() && this.mmu == mmu && size == 0 && mem == map[]
    {
      this.mmu := mmu;
      size := 0;
      backing := [];
      mem := map[];
    }

    lemma HeapTranslation(va: nat)
      requires Valid() && HEAP_MAP_OFFSET <= va < HEAP_MAP_OFFSET + size
      ensures PageOf(va) < |backing| && mmu.DataPage(backing[PageOf(va)])
      ensures mmu.Translate(va) == Mapped(backing[PageOf(va)] + va % PAGE_SIZE, HEAP_ATTRS)
    {
      hide Walk, Tree, And, Or, Leaf, LeafDescriptor, Index;
      HeapIndices(va);
      LeafMapsRequestedAddress(HEAP_INDEX, backing[PageOf(va)], va);
    }

    /** The frame and word behind a heap address. */
    lemma HeapTarget(va: nat)
      requires Valid() && HeapWord(va, size)
      ensures va in mem && mmu.Translate(va).Mapped? && mmu.DataPage(AlignDown(mmu.Translate(va).pa))
      ensures PageOf(va) < |backing| && WordOf(va) < ENTRIES
      ensures var pa := mmu.Translate(va).pa;
              AlignDown(pa) == backing[PageOf(va)] && pa % PAGE_SIZE / 8 == WordOf(va)
              && pa / 8 == backing[PageOf(va)] / 8 + WordOf(va)
    {
      hide Walk, Tree, And, Or, Index, Kernel, LeafDescriptor;
      HeapTranslation(va);
      WordParts(va, size, |backing|);
      PageOffset(backing[PageOf(va)], va);
    }

    method Load(va: nat) returns (v: u64)
      requires Valid() && HeapWord(va, size)
      ensures v == mem[va]
    {
      HeapTarget(va);
      MirrorsAfterStore(mmu.phys[..], backing, mem, va, 0);
      v := mmu.LoadWord(va);
    }

    lemma StoreReady(va: nat, v: u64)
      requires Valid() && HeapWord(va, size)
      ensures mmu.frames.frameSize > 0
      ensures mmu.Translate(va).Mapped? && mmu.DataPage(AlignDown(mmu.Translate(va).pa))
      ensures mmu.Translate(va).pa % PAGE_SIZE / 8 < ENTRIES
      ensures Mirrors(SetDesc(mmu.phys[..], AlignDown(mmu.Translate(va).pa), mmu.Translate(va).pa % PAGE_SIZE / 8, v),
                      backing, mem[va := v])
    {
      HeapTarget(va);
      MirrorsAfterStore(mmu.phys[..], backing, mem, va, v);
    }

    method Store(va: nat, v: u64)
      requires Valid() && HeapWord(va, size)
      modifies mmu.phys, `mem
      ensures Valid() && mem == old(mem)[va := v]
    {
      hide Mirrors, Distinct, PagesMapped, FramesHeld, SetDesc, M.Mmu.DataPage, M.Mmu.Translate, AlignDown;
      hide M.Mmu.OwnedTables, M.Mmu.TreesValid, M.Mmu.ViewsValid, BitMapFrameAllocator.Valid;
      StoreReady(va, v);
      mmu.StoreWord(va, v);
      mem := mem[va := v];
    }

    // ----- growing by one page -----

    /** Taking a frame from the allocator disturbs nothing that is already mapped. */
    method TakeFrame() returns (ptr: nat)
      requires Valid()
      modifies mmu.frames.words, mmu.frames`live
      ensures Valid()
      ensures ptr == NULL <==> old(mmu.frames.Free()) == {}
      ensures ptr == NULL ==> mmu.frames.Free() == {}
      ensures ptr != NULL ==> |mmu.frames.Free()| + 1 == |old(mmu.frames.Free())|
      ensures ptr != NULL ==> FramesHeld(mmu.frames, mmu.frames.live, mmu.node.Values + mmu.userNode.Values, backing + [ptr])
      ensures ptr != NULL ==> Distinct(backing + [ptr]) && TableAt(mmu.phys[..], ptr)
                              && ptr < ADDR_LIMIT && ptr % PAGE_SIZE == 0
      ensures mmu.frames.frameSize > 0
    {
      hide M.Mmu.TreesValid, M.Mmu.ViewsValid, Mirrors, PagesMapped, FramesHeld, Distinct;
      ghost var live, tables := mmu.frames.live, mmu.node.Values + mmu.userNode.Values;
      assert forall t | t in tables :: mmu.frames.FrameIndex(t) in live;
      ghost var frame;
      ptr, frame := mmu.frames.AllocFrame();
      if ptr == NULL { return; }
      mmu.frames.FrameIndexOfAddr(frame, 0);
      mmu.frames.FrameInRegion(frame);
      mmu.frames.FrameAligned(frame);
      OneMoreHeld(mmu.frames, live, mmu.frames.live, tables, backing, ptr);
    }

    /** The tables heap page n still lacks. */
    ghost function TablesFor(n: nat): (r: nat)
      reads mmu
      ensures r <= 3
    {
      AtMostThree(mmu.node, HEAP_MAP_OFFSET + n * PAGE_SIZE);
      MissingTables(mmu.node, HEAP_MAP_OFFSET + n * PAGE_SIZE)
    }

    /** The frames the next heap page takes: its own, and one for each table it lacks. */
    ghost function PageCost(): (r: nat)
      reads this, mmu
      ensures 1 <= r <= 4
    {
      1 + TablesFor(size / PAGE_SIZE)
    }

    /** `map_page` on the next heap page. */
    method MapNext(n: nat, ptr: nat) returns (r: Growth)
      requires mmu.Valid() && n * PAGE_SIZE <= L0_SPAN && ptr < ADDR_LIMIT && ptr % PAGE_SIZE == 0
      modifies mmu.phys, mmu.frames.words, mmu.frames`live, mmu`node, mmu`pages
      ensures mmu.Valid() && old(mmu.frames.live) <= mmu.frames.live
      ensures mmu.OnlyTablesWritten(old(mmu.phys[..]), mmu.phys[..], old(mmu.node.Values), mmu.node.Values, old(mmu.frames.live))
      ensures r == PanicRegion <==> n * PAGE_SIZE == L0_SPAN
      ensures r == NoFrame <==> n * PAGE_SIZE < L0_SPAN && |old(mmu.frames.Free())| < old(TablesFor(n))
      ensures r == NoFrame ==> mmu.frames.Free() == {}
      ensures r == PanicRegion ==> mmu.frames.Free() == old(mmu.frames.Free())
      ensures r == Grown ==> |mmu.frames.Free()| + old(TablesFor(n)) == |old(mmu.frames.Free())|
      ensures r != Grown ==> mmu.pages == old(mmu.pages)
      ensures r == Grown ==> n * PAGE_SIZE < L0_SPAN
                             && SetsPage(old(mmu.pages), mmu.pages, HEAP_FIRST_PAGE + n, LeafDescriptor(HEAP_INDEX, ptr))
    {
      hide Index, LeafDescriptor, M.Mmu.Valid, M.Mmu.OnlyTablesWritten, Or, MissingTables;
      NextPage(n * PAGE_SIZE);
      var mapped := mmu.MapPage(HEAP_MAP_OFFSET + n * PAGE_SIZE, ptr);
      r := if mapped == Done then Grown else if mapped == OutOfFrames then NoFrame else PanicRegion;
    }

    /** New tables come from frames that were free, so held frames stay clear of them. */
    lemma StillHeld(m: Memory, m': Memory, before: set<nat>, after: set<nat>, user: set<nat>,
                    live: set<nat>, live': set<nat>, held: seq<nat>)
      requires mmu.frames.frameSize > 0 && mmu.OnlyTablesWritten(m, m', before, after, live) && live <= live'
      requires FramesHeld(mmu.frames, live, before + user, held)
      ensures FramesHeld(mmu.frames, live', after + user, held) && Untouched(m, m', after)
      ensures forall i | 0 <= i < |held| :: held[i] !in after
    {
      forall i | 0 <= i < |held|
        ensures held[i] !in after
      {
        assert held[i] !in after - before;
      }
    }

    /** `alloc_heap_page`: the next page of the range, on a frame of its own. */
    method AllocHeapPage() returns (r: Growth, va: nat)
      requires Valid()
      modifies mmu.phys, mmu.frames.words, mmu.frames`live, mmu`node, mmu`pages, `size, `backing, `mem
      ensures Valid()
      ensures forall w | w in old(mem) :: w in mem && mem[w] == old(mem)[w]
      ensures r == Grown ==> va == HEAP_MAP_OFFSET + old(size) && size == old(size) + PAGE_SIZE
      ensures r == Grown ==> |mmu.frames.Free()| + old(PageCost()) == |old(mmu.frames.Free())|
      ensures r != Grown ==> size == old(size) && mem == old(mem)
      ensures r == NoFrame ==> mmu.frames.Free() == {} && |old(mmu.frames.Free())| < 4
      ensures size <= L0_SPAN
      ensures r == PanicRegion <==> old(size) == L0_SPAN && old(mmu.frames.Free()) != {}
      ensures r == Grown <==> old(size) < L0_SPAN && |old(mmu.frames.Free())| >= old(PageCost())
      ensures |old(mmu.frames.Free())| <= |mmu.frames.Free()| + 4
    {
      hide Walk, Tree, NoBlocks, Abstract, UserAbstract, Mirrors, PagesMapped, FramesHeld, Distinct, Index, LeafDescriptor;
      hide TablesFor, SetsPage, M.Mmu.Valid, M.Mmu.OnlyTablesWritten, BitMapFrameAllocator.Valid;
      va := HEAP_MAP_OFFSET + size;
      var ptr := TakeFrame();
      if ptr == NULL { return NoFrame, va; }
      ghost var m, tables, live, pages := mmu.phys[..], mmu.node.Values, mmu.frames.live, mmu.pages;
      ghost var grown := backing + [ptr];
      r := MapNext(size / PAGE_SIZE, ptr);
      StillHeld(m, mmu.phys[..], tables, mmu.node.Values, mmu.userNode.Values, live, mmu.frames.live, grown);
      StillHeld(m, mmu.phys[..], tables, mmu.node.Values, mmu.userNode.Values, live, mmu.frames.live, backing);
      assert grown[|backing|] == ptr;
      GrowMirrors(m, mmu.phys[..], backing, mem, mmu.node.Values, ptr);
      if r != Grown { return; }
      ghost var grownMem := MemOf(mmu.phys[..], grown);
      GrowMapped(pages, mmu.pages, backing, ptr);
      hide MemOf, TableAt;
      assert mmu.Valid() && this !in mmu.Repr();
      size := size + PAGE_SIZE;
      backing := grown;
      mem := grownMem;
    }
  }

  lemma NextPage(size: nat)
    requires size % PAGE_SIZE == 0 && size <= L0_SPAN
    ensures Kernel(HEAP_MAP_OFFSET + size) && PageNumber(HEAP_MAP_OFFSET + size) == HEAP_FIRST_PAGE + size / PAGE_SIZE
    ensures size < L0_SPAN ==> Index(HEAP_MAP_OFFSET + size, 0) == HEAP_INDEX
    ensures size == L0_SPAN ==> Index(HEAP_MAP_OFFSET + size, 0) == HEAP_INDEX + 1
  {
  }

  lemma GrowMapped(pages: map<nat, u64>, pages': map<nat, u64>, backing: seq<nat>, f: nat)
    requires PagesMapped(pages, backing)
    requires SetsPage(pages, pages', HEAP_FIRST_PAGE + |backing|, LeafDescriptor(HEAP_INDEX, f))
    ensures PagesMapped(pages', backing + [f])
  {
    hide LeafDescriptor;
  }
}
