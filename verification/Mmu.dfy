/** Kernel page tables built in place in physical memory (src/arch/arm64/mm/mmu/{mod,page_table}.rs,
    src/mm/mod.rs). */
module Mmu {
  import opened Bits
  import opened Descriptors
  import opened PageWalk
  import opened FrameAllocator

  function VirtToPhys(va: nat): nat
  {
    if va >= LINEAR_MAP_OFFSET then va - LINEAR_MAP_OFFSET else va
  }

  function PhysToVirt(pa: nat): nat
  {
    pa + LINEAR_MAP_OFFSET
  }

  const LINEAR_ATTRS: nat := 0x709
  const USER_ATTRS: nat := 0x701

  /** The leaf descriptor `map_page` writes, by region. */
  function LeafDescriptor(index0: nat, pa: nat): nat
  {
    Configured(pa + 3, true, if index0 == HEAP_INDEX then NormalWriteBack else DeviceNgnRnE)
  }

  /** The abstract kernel address space: the linear window, then one entry per mapped page. */
  function Abstract(pages: map<nat, u64>, va: nat): Translation
  {
    if Index(va, 0) == LINEAR_INDEX then Mapped(va % L0_SPAN, LINEAR_ATTRS)
    else if PageNumber(va) in pages then Leaf(pages[PageNumber(va)], va, PAGE_SIZE)
    else Fault
  }

  /** One page gets the entry d, all others stay. */
  ghost predicate SetsPage(before: map<nat, u64>, after: map<nat, u64>, page: nat, d: nat)
  {
    d < U64_LIMIT && after == before[page := d]
  }

  function UserAbstract(va: nat): Translation
  {
    if Index(va, 0) == 0 then Mapped(va % L0_SPAN, USER_ATTRS) else Fault
  }

  /** Why `map_page` stops without mapping: the four panics of the code, and table memory running out. */
  datatype Outcome =
    | Done
    | TodoUser
    | PanicLinear
    | PanicUnsupported
    | PanicUnaligned
    | PanicRange
    | OutOfFrames

  /** Outside the linear window no block descriptors occur, so `map_page` never meets one. */
  ghost predicate NoBlocks(m: Memory, node: map<seq<nat>, nat>)
    requires Tables(m, node)
  {
    forall p, i: nat | p in node && |p| < 3 && i < ENTRIES && (p == [] || p[0] != LINEAR_INDEX) ::
      !Classify(Desc(m, node[p], i), AsLevel(|p|)).Block?
  }

  /** A new empty table below p: every kernel and user translation stays, and no block appears. */
  lemma AddTableKeepsViews(m: Memory, root: nat, node: map<seq<nat>, nat>, userRoot: nat, userNode: map<seq<nat>, nat>,
                           p: seq<nat>, i: nat, f: nat)
    requires Tree(m, root, node) && Tree(m, userRoot, userNode) && NoBlocks(m, node) && node.Values !! userNode.Values
    requires p in node && |p| < 3 && i < ENTRIES && Classify(Desc(m, node[p], i), AsLevel(|p|)).Invalid?
    requires TableAt(m, f) && f < ADDR_LIMIT && f !in node.Values && f !in userNode.Values
    ensures var m', node' := AddTable(m, node[p], i, f), node[p + [i] := f];
            && Tree(m', root, node') && Tree(m', userRoot, userNode) && NoBlocks(m', node')
            && (forall va: nat :: Walk(m', root, 0, va) == Walk(m, root, 0, va))
            && (forall va: nat :: Walk(m', userRoot, 0, va) == Walk(m, userRoot, 0, va))
  {
    var m', node' := AddTable(m, node[p], i, f), node[p + [i] := f];
    AddTableKeepsTree(m, root, node, p, i, f);
    forall va: nat
      ensures Walk(m', root, 0, va) == Walk(m, root, 0, va)
    {
      AddTableKeepsWalks(m, root, node, p, i, f, va);
    }
    assert node[p] in node.Values;
    DescAfterAdd(m, node[p], i, f, node[p], i);
    forall q, j: nat | q in userNode && j < ENTRIES
      ensures Desc(m', userNode[q], j) == Desc(m, userNode[q], j)
    {
      assert userNode[q] in userNode.Values;
      DescAfterAdd(m, node[p], i, f, userNode[q], j);
    }
    WriteOutsideTables(m, m', userRoot, userNode);
    forall q, j: nat | q in node' && |q| < 3 && j < ENTRIES && (q == [] || q[0] != LINEAR_INDEX)
      ensures !Classify(Desc(m', node'[q], j), AsLevel(|q|)).Block?
    {
      DescAfterAdd(m, node[p], i, f, node'[q], j);
      ZeroIsInvalid(AsLevel(|q|));
      TableDescriptorDecodes(f);
      assert Linked(m', node', q, j);
      if q != p + [i] && !(q == p && j == i) {
        assert q in node && node[q] in node.Values;
        assert Desc(m', node'[q], j) == Desc(m, node[q], j);
      }
    }
  }

  /** A new leaf in the slot of `va`: only the page of `va` is redirected. */
  lemma SetLeafKeepsViews(m: Memory, root: nat, node: map<seq<nat>, nat>, userRoot: nat, userNode: map<seq<nat>, nat>,
                          va: nat, d: u64)
    requires Tree(m, root, node) && Tree(m, userRoot, userNode) && NoBlocks(m, node) && node.Values !! userNode.Values
    requires Kernel(va) && Path(va, 3) in node && And(d, 3) == 3
    ensures var m' := SetDesc(m, node[Path(va, 3)], Index(va, 3), d);
            && Tree(m', root, node) && Tree(m', userRoot, userNode) && NoBlocks(m', node)
            && (forall va' | Kernel(va') :: Walk(m', root, 0, va') ==
                 if PageNumber(va') == PageNumber(va) then Leaf(d, va', PAGE_SIZE) else Walk(m, root, 0, va'))
            && (forall va': nat :: Walk(m', userRoot, 0, va') == Walk(m, userRoot, 0, va'))
  {
    var p, i := Path(va, 3), Index(va, 3);
    var m' := SetDesc(m, node[p], i, d);
    SetLeafKeepsTree(m, root, node, p, i, d);
    forall va' | Kernel(va')
      ensures Walk(m', root, 0, va') ==
              if PageNumber(va') == PageNumber(va) then Leaf(d, va', PAGE_SIZE) else Walk(m, root, 0, va')
    {
      SamePage(va, va');
      SetLeafRedirects(m, root, node, p, i, d, va');
    }
    assert node[p] in node.Values;
    forall q, j: nat | q in userNode && j < ENTRIES
      ensures Desc(m', userNode[q], j) == Desc(m, userNode[q], j)
    {
      assert userNode[q] in userNode.Values;
      DescAfterSet(m, node[p], i, d, userNode[q], j);
    }
    WriteOutsideTables(m, m', userRoot, userNode);
    forall q, j: nat | q in node && |q| < 3 && j < ENTRIES && (q == [] || q[0] != LINEAR_INDEX)
      ensures !Classify(Desc(m', node[q], j), AsLevel(|q|)).Block?
    {
      assert Desc(m', node[q], j) == Desc(m, node[q], j);
    }
  }

  /** What a mapped page means: the output address is the requested one cut to 48 bits ... */
  lemma LeafMeaning(index0: nat, pa: u64, va: nat)
    requires pa % PAGE_SIZE == 0
    ensures var d := LeafDescriptor(index0, pa);
            d < U64_LIMIT && Leaf(d, va, PAGE_SIZE).pa == pa % ADDR_LIMIT + va % PAGE_SIZE
            && d % PAGE_SIZE == EntryAttrs(3, false, if index0 == HEAP_INDEX then NormalWriteBack else DeviceNgnRnE)
  {
    hide And, Or;
    ConfiguredEntry(pa, 3, true, if index0 == HEAP_INDEX then NormalWriteBack else DeviceNgnRnE);
  }

  /** ... so the page is mapped to `pa` exactly when `pa` fits in 48 bits, and then with fixed attributes. */
  lemma LeafMapsRequestedAddress(index0: nat, pa: u64, va: nat)
    requires pa % PAGE_SIZE == 0
    ensures LeafDescriptor(index0, pa) < U64_LIMIT
    ensures Leaf(LeafDescriptor(index0, pa), va, PAGE_SIZE) ==
            Mapped(pa + va % PAGE_SIZE,
                   EntryAttrs(3, true, if index0 == HEAP_INDEX then NormalWriteBack else DeviceNgnRnE))
            <==> pa < ADDR_LIMIT
  {
    hide And, Or;
    LeafMeaning(index0, pa, va);
    if pa < ADDR_LIMIT {
      ExactEntry(pa, 3, true, if index0 == HEAP_INDEX then NormalWriteBack else DeviceNgnRnE);
    }
  }

  /** The regions by address: 512 GiB each. */
  lemma RegionsByAddress(va: nat)
    requires Kernel(va)
    ensures Kernel(va) <==> 0xffff_0000_0000_0000 <= va < 0x1_0000_0000_0000_0000
    ensures Index(va, 0) == LINEAR_INDEX <==> 0xffff_8000_0000_0000 <= va < 0xffff_8080_0000_0000
    ensures Index(va, 0) == HEAP_INDEX <==> 0xffff_a000_0000_0000 <= va < 0xffff_a080_0000_0000
    ensures Index(va, 0) == IO_INDEX <==> 0xffff_d000_0000_0000 <= va < 0xffff_d080_0000_0000
  {
  }

  lemma WindowOffset(a: nat)
    ensures 0xffff_8000_0000_0000 <= a < 0xffff_8080_0000_0000 ==>
              Kernel(a) && Index(a, 0) == LINEAR_INDEX && a % L0_SPAN == a - 0xffff_8000_0000_0000
    ensures a < 0x80_0000_0000 ==> a < KERNEL_BASE && Index(a, 0) == 0 && a % L0_SPAN == a
  {
  }

  /** What a heap or I/O page must be mapped as. */
  function PageAttributes(va: nat): nat
  {
    if 0xffff_a000_0000_0000 <= va < 0xffff_a080_0000_0000 then 0x0040_0000_0000_070B else 0x0040_0000_0000_0703
  }

  /** The attribute words of section D8.3 of the Arm Architecture Reference Manual: XN in bit 54, AF in bit 10, SH in bits
      9 and 8, the MAIR index in bits 4 to 2, the type in bits 1 and 0. A page of the heap is inner shareable write-back
      memory (index 2), one of the I/O region device memory (index 0); neither can be executed. */
  lemma LeafAttributes(index0: nat, pa: u64, va: nat)
    requires pa % 4096 == 0 && pa < 0x1_0000_0000_0000
    ensures LeafDescriptor(index0, pa) < U64_LIMIT
    ensures Leaf(LeafDescriptor(index0, pa), va, 4096) ==
            Mapped(pa + va % 4096, if index0 == 320 then 0x0040_0000_0000_070B else 0x0040_0000_0000_0703)
  {
    hide LeafDescriptor, Leaf;
    LeafMapsRequestedAddress(index0, pa, va);
  }

  /** `pa & !(PAGE_SIZE - 1)` */
  function AlignDown(pa: nat): (base: nat)
    ensures base % PAGE_SIZE == 0 && base <= pa < base + PAGE_SIZE
  {
    pa - pa % PAGE_SIZE
  }

  /** Pages touched by `size` bytes from `pa`. */
  /** A word of memory by its page and its place there. */
  lemma WordOfPage(pa: nat)
    ensures pa / 8 == AlignDown(pa) / 8 + pa % PAGE_SIZE / 8 && pa % PAGE_SIZE / 8 < ENTRIES
  {
    var q, r := pa / PAGE_SIZE, pa % PAGE_SIZE;
    assert AlignDown(pa) == PAGE_SIZE * q && AlignDown(pa) / 8 == ENTRIES * q;
  }

  function IoPageCount(pa: nat, size: nat): nat
  {
    (size + pa % PAGE_SIZE + PAGE_SIZE - 1) / PAGE_SIZE
  }

  lemma NthPage(first: nat, n: nat, pa: nat)
    requires first % PAGE_SIZE == 0 && pa == first + n * PAGE_SIZE
    ensures pa % PAGE_SIZE == 0 && pa / PAGE_SIZE == first / PAGE_SIZE + n
    ensures pa < L0_SPAN ==> pa + PAGE_SIZE <= L0_SPAN
  {
  }

  /** The pages from the one the device starts in to the one it ends in, and no more. */
  lemma IoPagesLeast(pa: nat, size: nat)
    requires size > 0
    ensures IoPageCount(pa, size) == (pa + size - 1) / 4096 - pa / 4096 + 1
  {
  }

  lemma IoPagesCounted(pa: nat, size: nat, n: nat)
    ensures n * PAGE_SIZE < size + (pa - AlignDown(pa)) ==> n < IoPageCount(pa, size)
    ensures size + (pa - AlignDown(pa)) <= n * PAGE_SIZE < size + (pa - AlignDown(pa)) + PAGE_SIZE ==> n == IoPageCount(pa, size)
  {
  }

  /** The device regions `map_io_region` can serve, given frames enough. */
  predicate IoFits(pa: nat, size: nat)
  {
    && pa + size <= IO_PERIPHERALS_MAP_SIZE
    && (pa + size <= L0_SPAN || (size == 0 && pa % PAGE_SIZE == 0))
  }

  const IO_FIRST_PAGE: nat := IO_PERIPHERALS_MAP_OFFSET / PAGE_SIZE

  /** The page entries of an I/O mapping of n pages starting at page-aligned `pa`. */
  ghost predicate IoPagesMapped(before: map<nat, u64>, after: map<nat, u64>, pa: nat, n: nat)
    requires pa % PAGE_SIZE == 0
  {
    var first := IO_FIRST_PAGE + pa / PAGE_SIZE;
    && (forall v: nat | first <= v < first + n ::
          v in after && after[v] == LeafDescriptor(IO_INDEX, pa + (v - first) * PAGE_SIZE))
    && (forall v: nat | !(first <= v < first + n) :: (v in after <==> v in before) && (v in after ==> after[v] == before[v]))
  }

  lemma IoEntry(before: map<nat, u64>, after: map<nat, u64>, pa: nat, n: nat, target: nat)
    requires IoPagesMapped(before, after, AlignDown(pa), n)
    requires pa <= target < AlignDown(pa) + n * PAGE_SIZE
    ensures IO_FIRST_PAGE + target / PAGE_SIZE in after
    ensures after[IO_FIRST_PAGE + target / PAGE_SIZE] == LeafDescriptor(IO_INDEX, AlignDown(target))
  {
    hide Configured;
    var first, v := IO_FIRST_PAGE + AlignDown(pa) / PAGE_SIZE, IO_FIRST_PAGE + target / PAGE_SIZE;
    assert first <= v < first + n;
    assert AlignDown(pa) + (v - first) * PAGE_SIZE == AlignDown(target);
  }

  lemma IoPagesNone(before: map<nat, u64>, pa: nat)
    requires pa % PAGE_SIZE == 0
    ensures IoPagesMapped(before, before, pa, 0)
  {
  }

  lemma IoPagesStep(before: map<nat, u64>, after: map<nat, u64>, pa: nat, n: nat, d: u64)
    requires pa % PAGE_SIZE == 0 && IoPagesMapped(before, after, pa, n)
    requires d == LeafDescriptor(IO_INDEX, pa + n * PAGE_SIZE)
    ensures IoPagesMapped(before, after[IO_FIRST_PAGE + pa / PAGE_SIZE + n := d], pa, n + 1)
  {
    hide LeafDescriptor;
  }

  lemma IoPageIndices(pa: nat)
    requires pa < IO_PERIPHERALS_MAP_SIZE
    ensures Kernel(IO_PERIPHERALS_MAP_OFFSET + pa)
    ensures Index(IO_PERIPHERALS_MAP_OFFSET + pa, 0) != LINEAR_INDEX
    ensures Index(IO_PERIPHERALS_MAP_OFFSET + pa, 0) != HEAP_INDEX
    ensures Index(IO_PERIPHERALS_MAP_OFFSET + pa, 0) == IO_INDEX <==> pa < L0_SPAN
    ensures PageNumber(IO_PERIPHERALS_MAP_OFFSET + pa) == IO_FIRST_PAGE + pa / PAGE_SIZE
  {
  }

  lemma ZeroDetached(m: Memory, root: nat, node: map<seq<nat>, nat>, f: nat)
    requires Tree(m, root, node) && TableAt(m, f) && f !in node.Values
    ensures Tree(ZeroTable(m, f), root, node)
    ensures forall p, i: nat | p in node && i < ENTRIES :: Desc(ZeroTable(m, f), node[p], i) == Desc(m, node[p], i)
    ensures forall va: nat :: Walk(ZeroTable(m, f), root, 0, va) == Walk(m, root, 0, va)
  {
    DescAfterZero(m, f, root, 0);
    forall p, i: nat | p in node && i < ENTRIES
      ensures Desc(ZeroTable(m, f), node[p], i) == Desc(m, node[p], i)
    {
      assert node[p] in node.Values;
      DescAfterZero(m, f, node[p], i);
    }
    WriteOutsideTables(m, ZeroTable(m, f), root, node);
  }

  lemma StoreOutsideTables(m: Memory, root: nat, node: map<seq<nat>, nat>, f: nat, i: nat, v: u64)
    requires Tree(m, root, node) && TableAt(m, f) && f !in node.Values && i < ENTRIES
    ensures Tree(SetDesc(m, f, i, v), root, node) && SameTables(m, SetDesc(m, f, i, v), node)
    ensures forall va: nat :: Walk(SetDesc(m, f, i, v), root, 0, va) == Walk(m, root, 0, va)
  {
    forall p, j: nat | p in node && j < ENTRIES
      ensures Desc(SetDesc(m, f, i, v), node[p], j) == Desc(m, node[p], j)
    {
      assert node[p] in node.Values;
      DescAfterSet(m, f, i, v, node[p], j);
    }
    WriteOutsideTables(m, SetDesc(m, f, i, v), root, node);
  }

  ghost predicate SameTables(m: Memory, m': Memory, node: map<seq<nat>, nat>)
  {
    && Tables(m, node) && Tables(m', node)
    && forall p, i: nat | p in node && i < ENTRIES :: Desc(m', node[p], i) == Desc(m, node[p], i)
  }

  lemma NoBlocksAgree(m: Memory, m': Memory, node: map<seq<nat>, nat>)
    requires SameTables(m, m', node) && NoBlocks(m, node)
    ensures NoBlocks(m', node)
  {
  }

  lemma LinkValues(links: map<nat, nat>, linear: nat, heap: nat, io: nat, u1: nat)
    requires links == KernelLinks(linear, heap, io)
    ensures links.Values == {linear, heap, io} && (map[0 := u1]).Values == {u1}
  {
    assert links[LINEAR_INDEX] == linear && links[HEAP_INDEX] == heap && links[IO_INDEX] == io;
    assert (map[0 := u1])[0] == u1;
  }

  lemma NewValue<K, V>(m: map<K, V>, k: K, v: V)
    requires k !in m
    ensures m[k := v].Values == m.Values + {v}
  {
    assert m[k := v][k] == v;
    forall x | x in m.Values
      ensures x in m[k := v].Values
    {
      var k' :| k' in m && m[k'] == x;
      assert m[k := v][k'] == x;
    }
  }

  /** The frame a slot's table still has to come from. */
  ghost function Missing(node: map<seq<nat>, nat>, p: seq<nat>): nat
  {
    if p in node then 0 else 1
  }

  /** How many of the three tables below the root the walk of va still lacks. */
  ghost function MissingTables(node: map<seq<nat>, nat>, va: nat): nat
  {
    Missing(node, Path(va, 1)) + Missing(node, Path(va, 2)) + Missing(node, Path(va, 3))
  }

  lemma AtMostThree(node: map<seq<nat>, nat>, va: nat)
    ensures MissingTables(node, va) <= 3
  {
  }

  /** A new table at one path is no table at another. */
  lemma MissingElsewhere(before: map<seq<nat>, nat>, after: map<seq<nat>, nat>, p: seq<nat>, q: seq<nat>)
    requires after.Keys == before.Keys + {p} && |p| != |q|
    ensures Missing(after, q) == Missing(before, q)
  {
    assert q in after <==> q in after.Keys;
    assert q in before <==> q in before.Keys;
  }

  lemma PathHead(va: nat)
    ensures Path(va, 1) == [] + [Index(va, 0)] && Path(va, 2) == Path(va, 1) + [Index(va, 1)]
    ensures Path(va, 3) == Path(va, 2) + [Index(va, 2)]
    ensures Path(va, 2)[0] == Index(va, 0) && Path(va, 3)[0] == Index(va, 0)
  {
    assert Path(va, 0) == [];
  }

  class Mmu {
    const frames: BitMapFrameAllocator
    const phys: array<u64>
    var kernelTable: nat
    var userTable: nat
    ghost var node: map<seq<nat>, nat>
    ghost var userNode: map<seq<nat>, nat>
    ghost var pages: map<nat, u64>

    ghost function Repr(): set<object>
    {
      {this, phys, frames, frames.words}
    }

    /** Frames are pages of the modelled memory, reachable through the linear window. */
    ghost predicate Backed()
      reads frames, frames.words
    {
      && phys != frames.words
      && frames.Valid() && frames.frameSize == PAGE_SIZE
      && frames.start + frames.totalFrames * PAGE_SIZE <= 8 * phys.Length <= L0_SPAN
    }

    /** A frame address handed out by the allocator and not yet returned. */
    ghost predicate Owned(t: nat)
      reads frames
      requires frames.frameSize > 0
    {
      frames.start <= t && frames.FrameIndex(t) in frames.live && t == frames.FrameAddr(frames.FrameIndex(t))
    }

    ghost predicate OwnedTables()
      reads this, frames
      requires frames.frameSize > 0
    {
      && (forall p | p in node :: Owned(node[p]))
      && (forall p | p in userNode :: Owned(userNode[p]))
      && node.Values !! userNode.Values
    }

    ghost predicate TreesValid()
      reads this, phys
    {
      && kernelTable >= LINEAR_MAP_OFFSET && userTable >= LINEAR_MAP_OFFSET
      && Tree(phys[..], VirtToPhys(kernelTable), node)
      && Tree(phys[..], VirtToPhys(userTable), userNode)
      && NoBlocks(phys[..], node)
    }

    ghost predicate ViewsValid()
      reads this, phys
    {
      && (forall va | Kernel(va) :: Walk(phys[..], VirtToPhys(kernelTable), 0, va) == Abstract(pages, va))
      && (forall va: nat | va < KERNEL_BASE :: Walk(phys[..], VirtToPhys(userTable), 0, va) == UserAbstract(va))
    }

    ghost predicate Valid()
      reads Repr()
    {
      Backed() && OwnedTables() && TreesValid() && ViewsValid()
    }

    /** What the hardware makes of a kernel address. */
    ghost function Translate(va: nat): Translation
      reads this, phys
    {
      Walk(phys[..], VirtToPhys(kernelTable), 0, va)
    }

    /** A frame handed out for data: owned, and no part of either tree. */
    ghost predicate DataPage(f: nat)
      reads this, phys, frames
      requires frames.frameSize > 0
    {
      TableAt(phys[..], f) && f < ADDR_LIMIT && Owned(f) && f !in node.Values && f !in userNode.Values
    }

    /** Between two states only table frames were written, and every new table took a frame that was free. */
    ghost predicate OnlyTablesWritten(m: Memory, m': Memory, before: set<nat>, after: set<nat>, live0: set<nat>)
      requires frames.frameSize > 0
    {
      && Untouched(m, m', after) && before <= after
      && forall t | t in after - before :: frames.start <= t && frames.FrameIndex(t) !in live0
    }

    lemma OnlyTablesTrans(m: Memory, m': Memory, m'': Memory, a: set<nat>, b: set<nat>, c: set<nat>, l: set<nat>, l': set<nat>)
      requires frames.frameSize > 0 && l <= l'
      requires OnlyTablesWritten(m, m', a, b, l) && OnlyTablesWritten(m', m'', b, c, l')
      ensures OnlyTablesWritten(m, m'', a, c, l)
    {
      UntouchedTrans(m, m', m'', b, c);
      assert b + c == c;
      forall t | t in c - a
        ensures frames.start <= t && frames.FrameIndex(t) !in l
      {
        assert t in b - a || t in c - b;
      }
    }

    lemma NothingWritten(m: Memory, a: set<nat>, l: set<nat>)
      requires frames.frameSize > 0
      ensures OnlyTablesWritten(m, m, a, a, l)
    {
    }

    constructor (frames: BitMapFrameAllocator, phys: array<u64>)
      requires frames.Valid() && frames.frameSize == PAGE_SIZE && phys != frames.words
      requires frames.start + frames.totalFrames * PAGE_SIZE <= 8 * phys.Length <= L0_SPAN
      ensures this.frames == frames && this.phys == phys && Backed()
      ensures node == map[] && userNode == map[] && pages == map[]
    {
      this.frames := frames;
      this.phys := phys;
      kernelTable, userTable := NULL, NULL;
      node, userNode, pages := map[], map[], map[];
    }

    /** `alloc_page`: a frame, named by its linear-window address. */
    method AllocPage() returns (page: nat)
      requires Backed()
      modifies frames.words, frames`live
      ensures Backed()
      ensures page == NULL <==> old(frames.Free()) == {}
      ensures page == NULL ==> frames.live == old(frames.live)
      ensures page != NULL ==>
        && page >= LINEAR_MAP_OFFSET && TableAt(phys[..], VirtToPhys(page)) && VirtToPhys(page) < ADDR_LIMIT
        && Owned(VirtToPhys(page)) && frames.FrameIndex(VirtToPhys(page)) !in old(frames.live)
        && frames.live == old(frames.live) + {frames.FrameIndex(VirtToPhys(page))}
        && |frames.Free()| + 1 == |old(frames.Free())|
    {
      var ptr, frame := frames.AllocFrame();
      if ptr == NULL { return NULL; }
      frames.FrameIndexOfAddr(frame, 0);
      frames.FrameInRegion(frame);
      frames.FrameAligned(frame);
      page := PhysToVirt(ptr);
    }

    /** `dealloc_page`: returns a frame that is no table. */
    method DeallocPage(page: nat)
      requires Valid() && page >= LINEAR_MAP_OFFSET && Owned(VirtToPhys(page))
      requires VirtToPhys(page) !in node.Values && VirtToPhys(page) !in userNode.Values
      modifies frames.words, frames`live
      ensures Valid()
      ensures frames.live == old(frames.live) - {frames.FrameIndex(VirtToPhys(page))}
      ensures |frames.Free()| == |old(frames.Free())| + 1
    {
      frames.DeallocFrame(VirtToPhys(page));
    }

    // ----- PageTable -----

    method SetDescriptor(table: nat, index: nat, desc: u64)
      requires TableAt(phys[..], VirtToPhys(table)) && index < ENTRIES
      modifies phys
      ensures phys[..] == SetDesc(old(phys[..]), VirtToPhys(table), index, desc)
    {
      phys[VirtToPhys(table) / 8 + index] := desc;
    }

    method NewPageTable() returns (table: nat)
      requires Backed()
      modifies phys, frames.words, frames`live
      ensures Backed()
      ensures table == NULL <==> old(frames.Free()) == {}
      ensures table == NULL ==> frames.live == old(frames.live) && phys[..] == old(phys[..])
      ensures table != NULL ==>
        && table >= LINEAR_MAP_OFFSET && TableAt(old(phys[..]), VirtToPhys(table)) && VirtToPhys(table) < ADDR_LIMIT
        && Owned(VirtToPhys(table)) && frames.FrameIndex(VirtToPhys(table)) !in old(frames.live)
        && frames.live == old(frames.live) + {frames.FrameIndex(VirtToPhys(table))}
        && phys[..] == ZeroTable(old(phys[..]), VirtToPhys(table))
        && |frames.Free()| + 1 == |old(frames.Free())|
    {
      table := AllocPage();
      if table == NULL { return; }
      var base := VirtToPhys(table) / 8;
      for i := 0 to ENTRIES
        modifies phys
        invariant forall j | 0 <= j < phys.Length ::
                    phys[j] == if base <= j < base + i then 0 else old(phys[j])
      {
        phys[base + i] := 0;
      }
      assert phys[..] == ZeroTable(old(phys[..]), VirtToPhys(table));
    }

    /** An empty table in a frame no tree uses yet; no translation notices. */
    method NewDetachedTable() returns (table: nat)
      requires Valid()
      modifies phys, frames.words, frames`live
      ensures Valid()
      ensures table == NULL ==> phys[..] == old(phys[..])
      ensures table != NULL ==> Untouched(old(phys[..]), phys[..], {VirtToPhys(table)})
      ensures old(frames.live) <= frames.live
      ensures table == NULL <==> old(frames.Free()) == {}
      ensures table == NULL ==> frames.live == old(frames.live)
      ensures table != NULL ==>
        && DataPage(VirtToPhys(table)) && ZeroTable(phys[..], VirtToPhys(table)) == phys[..]
        && SameTables(old(phys[..]), phys[..], node)
        && frames.FrameIndex(VirtToPhys(table)) !in old(frames.live)
        && |frames.Free()| + 1 == |old(frames.Free())|
    {
      hide Walk, Linked, NoBlocks, And, Or, Abstract, UserAbstract, Unshared, PrefixClosed, Untouched;
      ghost var m, root, userRoot := phys[..], VirtToPhys(kernelTable), VirtToPhys(userTable);
      table := NewPageTable();
      if table == NULL { return; }
      ghost var f := VirtToPhys(table);
      assert f !in node.Values && f !in userNode.Values;
      ZeroDetached(m, root, node, f);
      ZeroDetached(m, userRoot, userNode, f);
      NoBlocksAgree(m, phys[..], node);
      ZeroTouchesOnly(m, f);
    }

    /** Everything `Valid` says about the tables, of a memory and node map still to be installed. */
    ghost predicate ViewsOf(m: Memory, node': map<seq<nat>, nat>)
      reads this
    {
      && Tree(m, VirtToPhys(kernelTable), node') && Tree(m, VirtToPhys(userTable), userNode) && NoBlocks(m, node')
      && (forall va | Kernel(va) :: Walk(m, VirtToPhys(kernelTable), 0, va) == Abstract(pages, va))
      && (forall va: nat | va < KERNEL_BASE :: Walk(m, VirtToPhys(userTable), 0, va) == UserAbstract(va))
    }

    lemma LinkEffect(p: seq<nat>, index: nat, f: nat)
      requires Valid() && p in node && |p| < 3 && index < ENTRIES
      requires Classify(Desc(phys[..], node[p], index), AsLevel(|p|)).Invalid?
      requires DataPage(f) && ZeroTable(phys[..], f) == phys[..]
      ensures Or(f, 3) == f + 3 && p + [index] !in node && TableAt(phys[..], node[p])
      ensures var m' := SetDesc(phys[..], node[p], index, f + 3);
              Untouched(phys[..], m', {node[p]}) && TableAt(m', node[p]) && Desc(m', node[p], index) == f + 3
      ensures node[p + [index] := f].Values == node.Values + {f}
    {
      hide Walk, Classify, PrefixClosed, Unshared, And, Or, OutputAddress, Linked, Abstract, UserAbstract, Untouched, ZeroTable;
      hide NoBlocks, TreesValid, ViewsValid;
      assert Tree(phys[..], VirtToPhys(kernelTable), node) by { KernelTree(); }
      TableDescriptorDecodes(f);
      AddTableKeepsTree(phys[..], VirtToPhys(kernelTable), node, p, index, f);
      DescAfterAdd(phys[..], node[p], index, f, node[p], index);
      SetTouchesOnly(phys[..], node[p], index, f + 3);
      NewValue(node, p + [index], f);
    }

    lemma KernelTree()
      requires Valid()
      ensures Tree(phys[..], VirtToPhys(kernelTable), node)
    {
    }

    lemma LinkKeepsViews(p: seq<nat>, index: nat, f: nat)
      requires Valid() && p in node && |p| < 3 && index < ENTRIES
      requires Classify(Desc(phys[..], node[p], index), AsLevel(|p|)).Invalid?
      requires DataPage(f) && ZeroTable(phys[..], f) == phys[..] && f + 3 < U64_LIMIT
      ensures ViewsOf(SetDesc(phys[..], node[p], index, f + 3), node[p + [index] := f])
    {
      hide Walk, Classify, PrefixClosed, Unshared, And, Or, OutputAddress, Linked, Abstract, UserAbstract, ZeroTable;
      AddTableKeepsViews(phys[..], VirtToPhys(kernelTable), node, VirtToPhys(userTable), userNode, p, index, f);
    }

    /** Links a detached empty table into an invalid slot. */
    method LinkTable(table: nat, index: nat, newTable: nat, ghost p: seq<nat>)
      requires Valid() && p in node && |p| < 3
      requires table == PhysToVirt(node[p]) && index < ENTRIES
      requires Classify(Desc(phys[..], node[p], index), AsLevel(|p|)).Invalid?
      requires DataPage(VirtToPhys(newTable)) && ZeroTable(phys[..], VirtToPhys(newTable)) == phys[..]
      modifies phys, `node
      ensures Valid()
      ensures Untouched(old(phys[..]), phys[..], {old(node[p])})
      ensures node == old(node)[p + [index] := VirtToPhys(newTable)]
      ensures node.Values == old(node.Values) + {VirtToPhys(newTable)} && p + [index] !in old(node)
    {
      hide Walk, Classify, And, Or, Linked, Abstract, UserAbstract, Untouched, ZeroTable, Tree, NoBlocks, SetDesc;
      hide BitMapFrameAllocator.Valid, Desc;
      LinkEffect(p, index, VirtToPhys(newTable));
      LinkKeepsViews(p, index, VirtToPhys(newTable));
      assert VirtToPhys(table) == node[p];
      SetDescriptor(table, index, Or(VirtToPhys(newTable), 3));
      node := node[p + [index] := VirtToPhys(newTable)];
    }

    /** Follows the table descriptor in a slot, building an empty table there first if the slot is invalid.
        The code's panic on any other kind of descriptor is unreachable. */
    method GetOrCreateNextLevelTable(table: nat, index: nat, level: Level, ghost p: seq<nat>) returns (next: nat)
      requires Valid() && p in node && |p| < 3 && level == AsLevel(|p|)
      requires table == PhysToVirt(node[p]) && index < ENTRIES && (p + [index])[0] != LINEAR_INDEX
      modifies phys, frames.words, frames`live, `node
      ensures Valid()
      ensures OnlyTablesWritten(old(phys[..]), phys[..], old(node.Values), node.Values, old(frames.live))
      ensures old(frames.live) <= frames.live
      ensures forall q | q in old(node) :: q in node && node[q] == old(node[q])
      ensures next == NULL <==> |old(frames.Free())| < Missing(old(node), p + [index])
      ensures next == NULL ==> frames.live == old(frames.live) && frames.Free() == {}
      ensures next != NULL ==> p + [index] in node && next == PhysToVirt(node[p + [index]])
      ensures next != NULL ==> node.Keys == old(node.Keys) + {p + [index]}
      ensures next != NULL ==> |frames.Free()| + Missing(old(node), p + [index]) == |old(frames.Free())|
    {
      hide Walk, Tree, NoBlocks, And, Or, Abstract, UserAbstract, OutputAddress, Untouched, ZeroTable;
      ghost var m, tables, live := phys[..], node.Values, frames.live;
      NothingWritten(m, tables, live);
      SlotKind(table, index, p);
      var kind := Classify(phys[VirtToPhys(table) / 8 + index], level);
      if kind.Invalid? {
        var newTable := NewDetachedTable();
        if newTable == NULL { return NULL; }
        ghost var mid, f := phys[..], VirtToPhys(newTable);
        assert node[p] in tables;
        ghost var node0 := node;
        LinkTable(table, index, newTable, p);
        UntouchedTrans(m, mid, phys[..], {f}, {node[p]});
        UntouchedWeaken(m, phys[..], {f} + {node[p]}, node.Values);
        assert node[p] == node0[p];
        SlotKind(table, index, p);
      } else if !kind.Table? {
        assert false;
      }
      next := PhysToVirt(OutputAddress(phys[VirtToPhys(table) / 8 + index]));
    }

    lemma SlotKind(table: nat, index: nat, p: seq<nat>)
      requires Valid() && p in node && |p| < 3
      requires table == PhysToVirt(node[p]) && index < ENTRIES && (p + [index])[0] != LINEAR_INDEX
      ensures TableAt(phys[..], VirtToPhys(table)) && VirtToPhys(table) / 8 + index < phys.Length
      ensures phys[VirtToPhys(table) / 8 + index] == Desc(phys[..], node[p], index)
      ensures var d := Desc(phys[..], node[p], index); var kind := Classify(d, AsLevel(|p|));
              && (kind.Invalid? || kind.Table?)
              && (kind.Table? <==> p + [index] in node)
              && (kind.Table? ==> node[p + [index]] == OutputAddress(d))
    {
      assert Linked(phys[..], node, p, index);
    }

    /** The windows that are there from the start: linear, cached; user, device memory. Both by blocks that can be executed. */
    lemma WindowsTranslate(a: nat)
      requires Valid()
      ensures 0xffff_8000_0000_0000 <= a < 0xffff_8080_0000_0000 ==> Translate(a) == Mapped(a - 0xffff_8000_0000_0000, 0x709)
      ensures a < 0x80_0000_0000 ==> Walk(phys[..], VirtToPhys(userTable), 0, a) == Mapped(a, 0x701)
    {
      hide Walk, Tree, NoBlocks, Index;
      WindowOffset(a);
    }

    /** What the kernel calls a page is that page: its linear-window address leads to the frame. */
    lemma PageReadable(p: nat)
      requires Valid() && p < 0x80_0000_0000
      ensures Translate(PhysToVirt(p)) == Mapped(p, 0x709) && VirtToPhys(PhysToVirt(p)) == p
    {
      hide Walk, Tree, NoBlocks;
      WindowsTranslate(PhysToVirt(p));
    }

    /** The walks of a memory are those of an abstract address space. */
    ghost predicate Shows(m: Memory, pages': map<nat, u64>)
      reads this
    {
      forall a | Kernel(a) :: Walk(m, VirtToPhys(kernelTable), 0, a) == Abstract(pages', a)
    }

    ghost predicate PageMapsTo(page: nat, pa: nat, attrs: nat)
      reads this, phys
    {
      forall a: nat | a / 4096 == page :: Translate(a) == Mapped(pa + a % 4096, attrs)
    }

    /** Every kernel address, but for those of one page when it was mapped, translates as before. */
    ghost predicate OthersKeep(m: Memory, mapped: bool, page: nat)
      reads this, phys
    {
      forall a: nat | Kernel(a) && (!mapped || a / 4096 != page) :: Translate(a) == Walk(m, VirtToPhys(kernelTable), 0, a)
    }

    lemma NowShows()
      requires Valid()
      ensures Shows(phys[..], pages)
    {
      hide Walk, Tree, NoBlocks;
    }

    lemma StillKept(m: Memory, page: nat)
      requires Valid() && Shows(m, pages)
      ensures OthersKeep(m, false, page)
    {
      hide Walk, Tree, NoBlocks, Abstract;
    }

    lemma PageReached(m: Memory, before: map<nat, u64>, va: nat, pa: u64)
      requires Valid() && Kernel(va) && Index(va, 0) != LINEAR_INDEX && pa % PAGE_SIZE == 0
      requires Index(va, 0) == HEAP_INDEX || Index(va, 0) == IO_INDEX
      requires Shows(m, before) && SetsPage(before, pages, PageNumber(va), LeafDescriptor(Index(va, 0), pa))
      ensures pa < 0x1_0000_0000_0000 ==> PageMapsTo(va / 4096, pa, PageAttributes(va))
      ensures OthersKeep(m, true, va / 4096)
    {
      hide Walk, Tree, NoBlocks, Leaf, LeafDescriptor, Index;
      RegionsByAddress(va);
      forall a: nat | pa < 0x1_0000_0000_0000 && a / 4096 == va / 4096
        ensures Translate(a) == Mapped(pa + a % 4096, PageAttributes(va))
      {
        SamePageSameIndices(va, a);
        LeafAttributes(Index(va, 0), pa, a);
      }
    }

    /** Maps one page. Whatever the outcome, the walk of every kernel address equals the abstract map,
        in which at most the entry of this page has changed. */
    method MapPage(va: u64, pa: u64) returns (r: Outcome)
      requires Valid()
      modifies phys, frames.words, frames`live, `node, `pages
      ensures Valid()
      ensures OnlyTablesWritten(old(phys[..]), phys[..], old(node.Values), node.Values, old(frames.live))
      ensures old(frames.live) <= frames.live
      ensures r == TodoUser <==> va < KERNEL_BASE
      ensures r == PanicLinear <==> Kernel(va) && Index(va, 0) == LINEAR_INDEX
      ensures r == PanicUnsupported <==>
              Kernel(va) && Index(va, 0) != LINEAR_INDEX && Index(va, 0) != HEAP_INDEX && Index(va, 0) != IO_INDEX
      ensures r == PanicUnaligned <==>
              Kernel(va) && (Index(va, 0) == HEAP_INDEX || Index(va, 0) == IO_INDEX) && pa % PAGE_SIZE != 0
      ensures r == OutOfFrames <==>
              && Kernel(va) && (Index(va, 0) == HEAP_INDEX || Index(va, 0) == IO_INDEX) && pa % PAGE_SIZE == 0
              && |old(frames.Free())| < MissingTables(old(node), va)
      ensures r != PanicRange && (r == OutOfFrames ==> frames.Free() == {})
      ensures r == Done ==> |frames.Free()| + MissingTables(old(node), va) == |old(frames.Free())|
      ensures r !in {Done, OutOfFrames} ==> frames.Free() == old(frames.Free())
      ensures r == Done ==>
        && Or(pa, 3) == pa + 3
        && SetsPage(old(pages), pages, PageNumber(va), LeafDescriptor(Index(va, 0), pa))
      ensures r != Done ==> pages == old(pages)
      ensures r == Done && pa < 0x1_0000_0000_0000 ==> PageMapsTo(va / 4096, pa, PageAttributes(va))
      ensures OthersKeep(old(phys[..]), r == Done, va / 4096)
    {
      hide Walk, Tree, Tables, NoBlocks, And, Or, Index, Abstract, UserAbstract, Linked, Configured, Untouched;
      hide PageMapsTo, OthersKeep;
      ghost var m, before := phys[..], pages;
      assert Shows(m, before) by { NowShows(); }
      hide Shows;
      StillKept(m, va / 4096);
      NothingWritten(m, node.Values, frames.live);
      if va < KERNEL_BASE { return TodoUser; }
      var index0 := Index(va, 0);
      if index0 == LINEAR_INDEX { return PanicLinear; }
      if index0 != HEAP_INDEX && index0 != IO_INDEX { return PanicUnsupported; }
      if pa % PAGE_SIZE != 0 { return PanicUnaligned; }

      var desc := PageEntry(index0, pa);
      var level3 := LeafTable(va);
      StillKept(m, va / 4096);
      if level3 == NULL { return OutOfFrames; }
      ghost var mid := phys[..];
      WriteLeaf(level3, va, desc);
      PageReached(m, before, va, pa);
      UntouchedTrans(m, mid, phys[..], node.Values, node.Values);
      assert node.Values + node.Values == node.Values;
      r := Done;
    }

    /** The leaf descriptor of a heap or I/O page, built by the setters. */
    method PageEntry(index0: nat, pa: u64) returns (desc: u64)
      requires pa % PAGE_SIZE == 0
      ensures Or(pa, 3) == pa + 3 && desc == LeafDescriptor(index0, pa) && And(desc, 3) == 3
    {
      hide And, Or;
      var mem := if index0 == HEAP_INDEX then NormalWriteBack else DeviceNgnRnE;
      var entry := new EntryDescriptor.Page(pa);
      entry.SetShareability(InnerShareable);
      entry.SetAccessed(true);
      entry.SetExecuteNever(true);
      entry.SetMemAttrIndex(mem);
      ConfiguredEntry(pa, 3, true, mem);
      desc := entry.value;
    }

    /** The last-level table for `va`, reached through three levels, each built on demand. */
    method LeafTable(va: u64) returns (level3: nat)
      requires Valid() && Index(va, 0) != LINEAR_INDEX
      modifies phys, frames.words, frames`live, `node
      ensures Valid()
      ensures OnlyTablesWritten(old(phys[..]), phys[..], old(node.Values), node.Values, old(frames.live))
      ensures old(frames.live) <= frames.live
      ensures level3 == NULL <==> |old(frames.Free())| < MissingTables(old(node), va)
      ensures level3 == NULL ==> frames.Free() == {}
      ensures level3 != NULL ==> Path(va, 3) in node && level3 == PhysToVirt(node[Path(va, 3)])
      ensures level3 != NULL ==> |frames.Free()| + MissingTables(old(node), va) == |old(frames.Free())|
    {
      hide Walk, Tree, Tables, NoBlocks, And, Or, Index, Abstract, UserAbstract, Linked, OnlyTablesWritten, Missing;
      hide OwnedTables, TreesValid, ViewsValid, BitMapFrameAllocator.Valid;
      ghost var node0 := node;
      assert [] in node && PhysToVirt(node[[]]) == kernelTable by { RootTable(); }
      PathHead(va);
      ghost var m0, t0, l0 := phys[..], node.Values, frames.live;
      var level1 := GetOrCreateNextLevelTable(kernelTable, Index(va, 0), Level0, []);
      if level1 == NULL { return NULL; }
      MissingElsewhere(node0, node, Path(va, 1), Path(va, 2));
      MissingElsewhere(node0, node, Path(va, 1), Path(va, 3));
      ghost var node1 := node;
      ghost var m1, t1, l1 := phys[..], node.Values, frames.live;
      var level2 := GetOrCreateNextLevelTable(level1, Index(va, 1), Level1, Path(va, 1));
      OnlyTablesTrans(m0, m1, phys[..], t0, t1, node.Values, l0, l1);
      if level2 == NULL { return NULL; }
      MissingElsewhere(node1, node, Path(va, 2), Path(va, 3));
      ghost var m2, t2, l2 := phys[..], node.Values, frames.live;
      level3 := GetOrCreateNextLevelTable(level2, Index(va, 2), Level2, Path(va, 2));
      OnlyTablesTrans(m0, m2, phys[..], t0, t2, node.Values, l0, l2);
    }

    lemma RootTable()
      requires Valid()
      ensures [] in node && PhysToVirt(node[[]]) == kernelTable
    {
    }

    /** The last store of `map_page`. */
    method WriteLeaf(level3: nat, va: u64, desc: u64)
      requires Valid() && Kernel(va) && Index(va, 0) != LINEAR_INDEX && And(desc, 3) == 3
      requires Path(va, 3) in node && level3 == PhysToVirt(node[Path(va, 3)])
      modifies phys, `pages
      ensures Valid() && pages == old(pages)[PageNumber(va) := desc]
      ensures Untouched(old(phys[..]), phys[..], node.Values)
    {
      hide Walk, Tree, And, Or, Leaf, Untouched, NoBlocks;
      SetTouchesOnly(phys[..], node[Path(va, 3)], Index(va, 3), desc);
      UntouchedWeaken(phys[..], SetDesc(phys[..], node[Path(va, 3)], Index(va, 3), desc), {node[Path(va, 3)]}, node.Values);
      SetLeafKeepsViews(phys[..], VirtToPhys(kernelTable), node, VirtToPhys(userTable), userNode, va, desc);
      SetDescriptor(level3, Index(va, 3), desc);
      pages := pages[PageNumber(va) := desc];
      forall va' | Kernel(va') && PageNumber(va') == PageNumber(va)
        ensures Index(va', 0) != LINEAR_INDEX
      {
        SamePageSameIndices(va, va');
      }
      assert ViewsValid();
    }

    // ----- setup_page_tables -----

    /** The table of identity-mapped 1 GiB blocks both halves of the address space start from. */
    method FillWithBlocks(table: nat, mem: MemAttr)
      requires TableAt(phys[..], VirtToPhys(table))
      modifies phys
      ensures phys[..] == FillBlocks(old(phys[..]), VirtToPhys(table), mem)
    {
      var base := VirtToPhys(table) / 8;
      for index := 0 to ENTRIES
        modifies phys
        invariant forall j | 0 <= j < phys.Length ::
                    phys[j] == if base <= j < base + index then BlockEntry(j - base, mem) else old(phys[j])
      {
        var desc := BlockDescriptor(index, mem);
        phys[base + index] := desc;
      }
      assert phys[..] == FillBlocks(old(phys[..]), VirtToPhys(table), mem);
    }

    method BlockDescriptor(index: nat, mem: MemAttr) returns (desc: u64)
      requires index < ENTRIES
      ensures desc == BlockEntry(index, mem)
    {
      hide And, Or;
      BlockEntryMeaning(index, mem);
      var entry := new EntryDescriptor.BlockLevel1(index * GIB);
      entry.SetShareability(InnerShareable);
      entry.SetAccessed(true);
      entry.SetExecuteNever(false);
      entry.SetMemAttrIndex(mem);
      desc := entry.value;
    }

    ghost predicate FreshTable(t: nat, live: set<nat>)
      reads phys, frames
      requires frames.frameSize > 0
    {
      TableAt(phys[..], t) && t < ADDR_LIMIT && Owned(t) && frames.FrameIndex(t) !in live
    }

    /** The two root tables, and the user half: one entry of identity-mapped device memory. */
    method SetupUser() returns (ok: bool, user0: nat, kernel0: nat, user1: nat)
      requires Backed()
      modifies phys, frames.words, frames`live
      ensures Backed() && old(frames.live) <= frames.live
      ensures !ok ==> frames.Free() == {}
      ensures ok <==> |old(frames.Free())| >= 3
      ensures ok ==> |frames.Free()| + 3 == |old(frames.Free())|
      ensures ok ==>
        && user0 >= LINEAR_MAP_OFFSET && kernel0 >= LINEAR_MAP_OFFSET
        && FreshTable(VirtToPhys(user0), old(frames.live)) && FreshTable(VirtToPhys(kernel0), old(frames.live))
        && FreshTable(VirtToPhys(user1), old(frames.live)) && user0 != kernel0
        && VirtToPhys(user0) != VirtToPhys(user1) && VirtToPhys(kernel0) != VirtToPhys(user1)
        && phys[..] == UserImage(old(phys[..]), VirtToPhys(user0), VirtToPhys(kernel0), VirtToPhys(user1))
    {
      hide Or, ZeroTable, FillBlocks, SetDesc;
      ok, user0, kernel0, user1 := false, NULL, NULL, NULL;
      user0 := NewPageTable();
      if user0 == NULL { return; }
      kernel0 := NewPageTable();
      if kernel0 == NULL { return; }
      user1 := NewPageTable();
      if user1 == NULL { return; }
      FillWithBlocks(user1, DeviceNgnRnE);
      TableDescriptorDecodes(VirtToPhys(user1));
      SetDescriptor(user0, 0, Or(VirtToPhys(user1), 3));
      ok := true;
    }

    /** The kernel half: the linear window, and empty tables for the heap and the I/O region. */
    method SetupKernel(kernel0: nat) returns (ok: bool, linear: nat, heap: nat, io: nat)
      requires Backed() && TableAt(phys[..], VirtToPhys(kernel0)) && Owned(VirtToPhys(kernel0))
      modifies phys, frames.words, frames`live
      ensures Backed() && old(frames.live) <= frames.live
      ensures !ok ==> frames.Free() == {}
      ensures ok <==> |old(frames.Free())| >= 3
      ensures ok ==> |frames.Free()| + 3 == |old(frames.Free())|
      ensures ok ==>
        && FreshTable(VirtToPhys(linear), old(frames.live)) && FreshTable(VirtToPhys(heap), old(frames.live))
        && FreshTable(VirtToPhys(io), old(frames.live)) && VirtToPhys(linear) != VirtToPhys(heap)
        && VirtToPhys(linear) != VirtToPhys(io) && VirtToPhys(heap) != VirtToPhys(io)
        && phys[..] == KernelImage(old(phys[..]), VirtToPhys(kernel0), VirtToPhys(linear), VirtToPhys(heap), VirtToPhys(io))
    {
      hide Or, ZeroTable, FillBlocks, SetDesc;
      ok, linear, heap, io := false, NULL, NULL, NULL;
      linear := NewPageTable();
      if linear == NULL { return; }
      heap := NewPageTable();
      if heap == NULL { return; }
      io := NewPageTable();
      if io == NULL { return; }
      TableDescriptorDecodes(VirtToPhys(linear));
      TableDescriptorDecodes(VirtToPhys(heap));
      TableDescriptorDecodes(VirtToPhys(io));
      SetDescriptor(kernel0, LINEAR_INDEX, Or(VirtToPhys(linear), 3));
      SetDescriptor(kernel0, HEAP_INDEX, Or(VirtToPhys(heap), 3));
      SetDescriptor(kernel0, IO_INDEX, Or(VirtToPhys(io), 3));
      FillWithBlocks(linear, NormalWriteBack);
      ok := true;
    }

    /** The memory side of setup: six frames, linked into two trees. */
    method BuildTables() returns (ok: bool, user0: nat, kernel0: nat, ghost u1: nat, ghost linear: nat, ghost heap: nat, ghost io: nat)
      requires Backed()
      modifies phys, frames.words, frames`live
      ensures Backed() && old(frames.live) <= frames.live
      ensures !ok ==> frames.Free() == {}
      ensures ok <==> |old(frames.Free())| >= 6
      ensures ok ==> |frames.Free()| + 6 == |old(frames.Free())|
      ensures ok ==>
        && user0 >= LINEAR_MAP_OFFSET && kernel0 >= LINEAR_MAP_OFFSET
        && {VirtToPhys(kernel0), linear, heap, io} !! {VirtToPhys(user0), u1}
        && (forall t | t in {VirtToPhys(kernel0), linear, heap, io, VirtToPhys(user0), u1} :: Owned(t))
        && BuiltTree(phys[..], VirtToPhys(user0), map[0 := u1], 0, DeviceNgnRnE)
        && BuiltTree(phys[..], VirtToPhys(kernel0), KernelLinks(linear, heap, io), LINEAR_INDEX, NormalWriteBack)
    {
      hide UserImage, KernelImage, BlockEntry, Or, And, BuiltTree, KernelLinks;
      ghost var m := phys[..];
      u1, linear, heap, io := 0, 0, 0, 0;
      var user1, linear1, heap1, io1;
      ok, user0, kernel0, user1 := SetupUser();
      if !ok { return; }
      ok, linear1, heap1, io1 := SetupKernel(kernel0);
      if !ok { return; }
      u1, linear, heap, io := VirtToPhys(user1), VirtToPhys(linear1), VirtToPhys(heap1), VirtToPhys(io1);
      SetupBuilds(m, VirtToPhys(user0), VirtToPhys(kernel0), u1, linear, heap, io);
    }

    /** Builds both address spaces: afterwards user addresses below 512 GiB are identity-mapped device
        memory, the linear window maps physical memory from zero, and nothing else is mapped. */
    method SetupPageTables() returns (ok: bool)
      requires Backed()
      modifies this, phys, frames.words, frames`live
      ensures old(frames.live) <= frames.live
      ensures ok ==> Valid() && pages == map[]
      ensures !ok ==> frames.Free() == {}
      ensures ok <==> |old(frames.Free())| >= 6
      ensures ok ==> |frames.Free()| + 6 == |old(frames.Free())|
    {
      hide BlockEntry, Or, And, BuiltTree, BuiltNodes, KernelLinks, TreesValid, ViewsValid;
      var user0, kernel0;
      ghost var u1, linear, heap, io;
      ok, user0, kernel0, u1, linear, heap, io := BuildTables();
      if !ok { return; }
      kernelTable, userTable := kernel0, user0;
      ghost var links := KernelLinks(linear, heap, io);
      node, userNode := BuiltNodes(VirtToPhys(kernel0), links), BuiltNodes(VirtToPhys(user0), map[0 := u1]);
      pages := map[];
      SetupViews(links, u1);
      SetupOwned(VirtToPhys(kernel0), linear, heap, io, VirtToPhys(user0), u1);
    }

    lemma SetupOwned(k0: nat, linear: nat, heap: nat, io: nat, u0: nat, u1: nat)
      requires frames.frameSize > 0 && {k0, linear, heap, io} !! {u0, u1}
      requires forall t | t in {k0, linear, heap, io, u0, u1} :: Owned(t)
      requires node == BuiltNodes(k0, KernelLinks(linear, heap, io)) && userNode == BuiltNodes(u0, map[0 := u1])
      ensures OwnedTables()
    {
      hide BuiltNodes;
      BuiltNodesValues(k0, KernelLinks(linear, heap, io));
      BuiltNodesValues(u0, map[0 := u1]);
      LinkValues(KernelLinks(linear, heap, io), linear, heap, io, u1);
      forall p | p in node
        ensures Owned(node[p])
      {
        assert node[p] in node.Values;
      }
      forall p | p in userNode
        ensures Owned(userNode[p])
      {
        assert userNode[p] in userNode.Values;
      }
    }

    lemma SetupViews(links: map<nat, nat>, u1: nat)
      requires BuiltTree(phys[..], VirtToPhys(kernelTable), links, LINEAR_INDEX, NormalWriteBack)
      requires BuiltTree(phys[..], VirtToPhys(userTable), map[0 := u1], 0, DeviceNgnRnE)
      requires kernelTable >= LINEAR_MAP_OFFSET && userTable >= LINEAR_MAP_OFFSET && pages == map[]
      requires node == BuiltNodes(VirtToPhys(kernelTable), links)
      requires userNode == BuiltNodes(VirtToPhys(userTable), map[0 := u1])
      ensures TreesValid() && ViewsValid()
    {
      hide BuiltTree, Walk, Linked, BuiltNodes, Unshared, PrefixClosed;
      var k0, u0 := VirtToPhys(kernelTable), VirtToPhys(userTable);
      BuiltIsTree(phys[..], k0, links, LINEAR_INDEX, NormalWriteBack);
      BuiltIsTree(phys[..], u0, map[0 := u1], 0, DeviceNgnRnE);
      forall p, i: nat | p in node && i < ENTRIES
        ensures Classify(Desc(phys[..], node[p], i), AsLevel(|p|)).Block? ==> p != [] && p[0] == LINEAR_INDEX
      {
        BuiltLinked(phys[..], k0, links, LINEAR_INDEX, NormalWriteBack, p, i);
      }
      forall va: nat
        ensures Kernel(va) ==> Walk(phys[..], k0, 0, va) == Abstract(pages, va)
        ensures Walk(phys[..], u0, 0, va) == UserAbstract(va)
      {
        BuiltTranslation(phys[..], k0, links, LINEAR_INDEX, NormalWriteBack, va);
        BuiltTranslation(phys[..], u0, map[0 := u1], 0, DeviceNgnRnE, va);
      }
    }

    // ----- what the CPU does with a mapped address -----

    method LoadWord(va: nat) returns (v: u64)
      requires Translate(va).Mapped? && Translate(va).pa / 8 < phys.Length
      ensures v == phys[Translate(va).pa / 8]
    {
      var t := Walk(phys[..], VirtToPhys(kernelTable), 0, va);
      v := phys[t.pa / 8];
    }

    /** A store to a data page: no table, hence no translation, can notice it. */
    method StoreWord(va: nat, v: u64)
      requires Valid() && Translate(va).Mapped? && DataPage(AlignDown(Translate(va).pa))
      modifies phys
      ensures Valid() && forall f | old(DataPage(f)) :: DataPage(f)
      ensures phys[..] == SetDesc(old(phys[..]), old(AlignDown(Translate(va).pa)), old(Translate(va).pa % PAGE_SIZE / 8), v)
    {
      hide Walk, Tree, NoBlocks, Abstract, UserAbstract;
      var t := Walk(phys[..], VirtToPhys(kernelTable), 0, va);
      ghost var f, i := AlignDown(t.pa), t.pa % PAGE_SIZE / 8;
      WordOfPage(t.pa);
      hide AlignDown;
      StoreKeepsViews(f, i, v);
      phys[t.pa / 8] := v;
    }

    lemma StoreKeepsViews(f: nat, i: nat, v: u64)
      requires Valid() && DataPage(f) && i < ENTRIES
      ensures ViewsOf(SetDesc(phys[..], f, i, v), node)
    {
      hide Walk, Tree, NoBlocks, Abstract, UserAbstract;
      StoreOutsideTables(phys[..], VirtToPhys(kernelTable), node, f, i, v);
      StoreOutsideTables(phys[..], VirtToPhys(userTable), userNode, f, i, v);
      NoBlocksAgree(phys[..], SetDesc(phys[..], f, i, v), node);
    }

    // ----- map_io_region -----

    /** Every byte of the device is reached at its fixed offset, uncached and never executable. */
    ghost predicate IoWindow(pa: nat, size: nat)
      reads this, phys
    {
      forall a: nat | IO_PERIPHERALS_MAP_OFFSET + pa <= a < IO_PERIPHERALS_MAP_OFFSET + pa + size ::
        Translate(a) == Mapped(a - IO_PERIPHERALS_MAP_OFFSET, 0x0040_0000_0000_0703)
    }

    /** Maps a device's registers at a fixed offset. The region documented as 16 TiB is served by a
        single level-0 entry, so with three free frames a page the mapping goes through exactly when it ends
        within 512 GiB. */
    method MapIoRegion(pa: u64, size: u64) returns (r: Outcome, va: nat)
      requires Valid()
      modifies phys, frames.words, frames`live, `node, `pages
      ensures Valid()
      ensures old(frames.live) <= frames.live
      ensures r == PanicRange <==> pa + size > IO_PERIPHERALS_MAP_SIZE
      ensures r in {Done, PanicRange, PanicUnsupported, OutOfFrames}
      ensures r == OutOfFrames ==> frames.Free() == {} && |old(frames.Free())| < 3 * IoPageCount(pa, size)
      ensures |old(frames.Free())| <= |frames.Free()| + 3 * IoPageCount(pa, size)
      ensures r == PanicUnsupported ==> !IoFits(pa, size)
      ensures r == Done ==> IoFits(pa, size)
      ensures |old(frames.Free())| >= 3 * IoPageCount(pa, size) ==> (r == Done <==> IoFits(pa, size))
      ensures r == Done ==>
        && va == 0xffff_d000_0000_0000 + pa
        && IoPagesMapped(old(pages), pages, AlignDown(pa), IoPageCount(pa, size))
        && IoWindow(pa, size)
    {
      hide Valid, IoPagesMapped, IoWindow, IoPageCount;
      va := IO_PERIPHERALS_MAP_OFFSET + pa;
      if IO_PERIPHERALS_MAP_OFFSET + pa + size > IO_PERIPHERALS_MAP_OFFSET + IO_PERIPHERALS_MAP_SIZE {
        return PanicRange, va;
      }
      var paAligned := AlignDown(pa);
      var vaAligned := IO_PERIPHERALS_MAP_OFFSET + paAligned;
      var sizeAdjusted := size + (pa - paAligned);
      var offset := 0;
      ghost var n := 0;
      IoPagesNone(pages, paAligned);
      while offset < sizeAdjusted
        invariant Valid() && offset == n * PAGE_SIZE && offset < sizeAdjusted + PAGE_SIZE
        invariant old(frames.live) <= frames.live && |old(frames.Free())| <= |frames.Free()| + 3 * n
        invariant IoPagesMapped(old(pages), pages, paAligned, n)
        invariant n > 0 ==> paAligned + offset <= L0_SPAN
      {
        IoPagesCounted(pa, size, n);
        r := MapIoPage(vaAligned + offset, paAligned + offset, paAligned, n, old(pages));
        if r != Done { return; }
        offset := offset + PAGE_SIZE;
        n := n + 1;
      }
      r := Done;
      IoPagesCounted(pa, size, n);
      IoTranslations(pa, size, n, old(pages));
    }

    /** One turn of the loop: the n-th page of a device that starts at `first`. */
    method MapIoPage(va: nat, pa: nat, ghost first: nat, ghost n: nat, ghost before: map<nat, u64>) returns (r: Outcome)
      requires Valid() && va == IO_PERIPHERALS_MAP_OFFSET + pa && pa == first + n * PAGE_SIZE < IO_PERIPHERALS_MAP_SIZE
      requires first % PAGE_SIZE == 0 && IoPagesMapped(before, pages, first, n)
      modifies phys, frames.words, frames`live, `node, `pages
      ensures Valid() && old(frames.live) <= frames.live && r in {Done, PanicUnsupported, OutOfFrames}
      ensures r == PanicUnsupported <==> pa >= L0_SPAN
      ensures r == OutOfFrames ==> frames.Free() == {} && |old(frames.Free())| < 3
      ensures |old(frames.Free())| <= |frames.Free()| + 3
      ensures r == Done ==> pa + PAGE_SIZE <= L0_SPAN && IoPagesMapped(before, pages, first, n + 1)
    {
      hide Valid, And, Or, LeafDescriptor, Index, IoPagesMapped, MissingTables, OnlyTablesWritten, PageNumber, Kernel;
      IoPageIndices(pa);
      NthPage(first, n, pa);
      AtMostThree(node, va);
      ghost var mid := pages;
      r := MapPage(va, pa);
      if r == Done { IoPagesStep(before, mid, first, n, LeafDescriptor(IO_INDEX, pa)); }
    }

    lemma IoTranslations(pa: nat, size: nat, n: nat, before: map<nat, u64>)
      requires Valid() && (pa + size <= L0_SPAN || size == 0)
      requires IoPagesMapped(before, pages, AlignDown(pa), n) && pa - AlignDown(pa) + size <= n * PAGE_SIZE
      ensures IoWindow(pa, size)
    {
      hide Walk, Tree, And, Or, Leaf, Configured, Index, NoBlocks;
      forall a: nat | IO_PERIPHERALS_MAP_OFFSET + pa <= a < IO_PERIPHERALS_MAP_OFFSET + pa + size
        ensures Translate(a) == Mapped(a - IO_PERIPHERALS_MAP_OFFSET, 0x0040_0000_0000_0703)
      {
        var target := a - IO_PERIPHERALS_MAP_OFFSET;
        IoPageIndices(target);
        IoEntry(before, pages, pa, n, target);
        LeafMapsRequestedAddress(IO_INDEX, AlignDown(target), a);
        assert a % PAGE_SIZE == target % PAGE_SIZE;
      }
    }
  }
}
