/** The four-level hardware walk over raw physical memory, and what keeps the
    tables in that memory an unshared tree (src/arch/arm64/mm/mmu/mod.rs).

    Physical memory is a sequence of 64-bit words; word w lives at address 8w. */
module PageWalk {
  import opened Bits
  import opened Descriptors

  type Memory = seq<u64>

  const LEVELS: nat := 4

  /** Level-0 index of a region, and what one level-0 entry spans. */
  const L0_SPAN: nat := 0x80_0000_0000
  const KERNEL_BASE: nat := 0xffff_0000_0000_0000
  const LINEAR_MAP_OFFSET: nat := 0xffff_8000_0000_0000
  const HEAP_MAP_OFFSET: nat := 0xffff_a000_0000_0000
  const IO_PERIPHERALS_MAP_OFFSET: nat := 0xffff_d000_0000_0000
  const IO_PERIPHERALS_MAP_SIZE: nat := 0x0000_1000_0000_0000
  const LINEAR_INDEX: nat := 256
  const HEAP_INDEX: nat := 320
  const IO_INDEX: nat := 416

  /** `level_N_index`: nine address bits per level. */
  function Index(va: nat, level: nat): (i: nat)
    ensures i < ENTRIES
  {
    if level == 0 then va / 0x80_0000_0000 % 512
    else if level == 1 then va / 0x4000_0000 % 512
    else if level == 2 then va / 0x20_0000 % 512
    else va / 0x1000 % 512
  }

  /** The first k indices of an address: where in the tree its walk stands after k steps. */
  function Path(va: nat, k: nat): (p: seq<nat>)
    ensures |p| == k
  {
    if k == 0 then [] else Path(va, k - 1) + [Index(va, k - 1)]
  }

  function AsLevel(k: nat): Level
  {
    if k == 0 then Level0 else if k == 1 then Level1 else if k == 2 then Level2 else Level3
  }

  predicate TableAt(m: Memory, t: nat)
  {
    t % PAGE_SIZE == 0 && t / 8 + ENTRIES <= |m|
  }

  function Desc(m: Memory, t: nat, i: nat): u64
    requires TableAt(m, t) && i < ENTRIES
  {
    m[t / 8 + i]
  }

  /** What the hardware finds: nothing, or an output address together with the descriptor's other bits. */
  datatype Translation = Fault | Mapped(pa: nat, attrs: nat)

  function Leaf(d: u64, va: nat, span: nat): Translation
    requires span > 0
  {
    AndBound(d, ADDR_MASK);
    Mapped(OutputAddress(d) + va % span, d - OutputAddress(d))
  }

  function Walk(m: Memory, t: nat, k: nat, va: nat): Translation
    requires k < LEVELS
    decreases LEVELS - k
  {
    if !TableAt(m, t) then Fault
    else
      var d := Desc(m, t, Index(va, k));
      match Classify(d, AsLevel(k))
      case Table => if k < 3 then Walk(m, OutputAddress(d), k + 1, va) else Fault
      case Block => Leaf(d, va, if k == 1 then GIB else 0x20_0000)
      case Page => Leaf(d, va, PAGE_SIZE)
      case _ => Fault
  }

  // ----- the tree -----

  /** Slot i of the table at path p holds a table descriptor exactly when the tree goes on
      below it, and then points at the table that continues it. */
  ghost predicate Linked(m: Memory, node: map<seq<nat>, nat>, p: seq<nat>, i: nat)
    requires p in node && |p| < LEVELS && TableAt(m, node[p]) && i < ENTRIES
  {
    var kind := Classify(Desc(m, node[p], i), AsLevel(|p|));
    && !kind.PanicBlock?
    && (kind.Table? <==> p + [i] in node)
    && (kind.Table? ==> node[p + [i]] == OutputAddress(Desc(m, node[p], i)))
  }

  ghost predicate Tables(m: Memory, node: map<seq<nat>, nat>)
  {
    forall p | p in node :: |p| < LEVELS && TableAt(m, node[p]) && node[p] < ADDR_LIMIT
  }

  ghost predicate Unshared(node: map<seq<nat>, nat>)
  {
    forall p, q | p in node && q in node && node[p] == node[q] :: p == q
  }

  ghost predicate PrefixClosed(node: map<seq<nat>, nat>)
  {
    forall p, i: nat | p + [i] in node :: p in node
  }

  /** The table frames form a tree in which no frame is reached along two paths. */
  ghost predicate Tree(m: Memory, root: nat, node: map<seq<nat>, nat>)
  {
    && [] in node && node[[]] == root
    && Tables(m, node) && Unshared(node) && PrefixClosed(node)
    && (forall p, i: nat | p in node && i < ENTRIES :: Linked(m, node, p, i))
  }

  /** Two memories agree on every table slot except slot i of the table at path p. */
  ghost predicate AgreeExcept(m: Memory, m': Memory, node: map<seq<nat>, nat>, p: seq<nat>, i: nat)
    requires Tables(m, node)
  {
    && |m'| == |m|
    && forall q, j: nat | q in node && j < ENTRIES && !(q == p && j == i) ::
         Desc(m', node[q], j) == Desc(m, node[q], j)
  }

  predicate PassesThrough(va: nat, p: seq<nat>, i: nat)
  {
    Path(va, |p|) == p && Index(va, |p|) == i
  }

  /** A change confined to one slot is invisible to every walk that does not read the slot. */
  lemma {:induction false} WalkUnaffected(m: Memory, m': Memory, root: nat, node: map<seq<nat>, nat>,
                                          k: nat, va: nat, p: seq<nat>, i: nat)
    requires Tree(m, root, node) && AgreeExcept(m, m', node, p, i)
    requires k < LEVELS && Path(va, k) in node && !PassesThrough(va, p, i)
    ensures Walk(m', node[Path(va, k)], k, va) == Walk(m, node[Path(va, k)], k, va)
    decreases LEVELS - k
  {
    var q, j := Path(va, k), Index(va, k);
    assert Linked(m, node, q, j);
    assert Desc(m', node[q], j) == Desc(m, node[q], j);
    if Classify(Desc(m, node[q], j), AsLevel(k)).Table? && k < 3 {
      assert Path(va, k + 1) == q + [j];
      WalkUnaffected(m, m', root, node, k + 1, va, p, i);
    }
  }

  /** Where the walk first leaves the tree it faults, so a missing table means unmapped. */
  lemma {:induction false} WalkOffTree(m: Memory, root: nat, node: map<seq<nat>, nat>, k: nat, va: nat, n: nat)
    requires Tree(m, root, node) && k <= n < LEVELS
    requires Path(va, k) in node && Path(va, n) in node
    ensures Walk(m, node[Path(va, k)], k, va) == Walk(m, node[Path(va, n)], n, va)
    decreases n - k
  {
    if k < n {
      var q, j := Path(va, k), Index(va, k);
      PathInTree(node, va, k + 1, n);
      assert Path(va, k + 1) == q + [j];
      assert Linked(m, node, q, j);
      WalkOffTree(m, root, node, k + 1, va, n);
    }
  }

  lemma {:induction false} PathInTree(node: map<seq<nat>, nat>, va: nat, k: nat, n: nat)
    requires PrefixClosed(node) && k <= n && Path(va, n) in node
    ensures Path(va, k) in node
    decreases n - k
  {
    if k < n {
      assert Path(va, n) == Path(va, n - 1) + [Index(va, n - 1)];
      PathInTree(node, va, k, n - 1);
    }
  }

  // ----- the two updates `map_page` makes -----

  function ZeroTable(m: Memory, t: nat): Memory
    requires TableAt(m, t)
  {
    m[..t / 8] + seq(ENTRIES, _ => 0) + m[t / 8 + ENTRIES..]
  }

  function SetDesc(m: Memory, t: nat, i: nat, d: u64): Memory
    requires TableAt(m, t) && i < ENTRIES
  {
    m[t / 8 + i := d]
  }

  /** Distinct tables occupy disjoint words. */
  lemma SlotsDisjoint(t: nat, i: nat, t': nat, i': nat)
    requires t % PAGE_SIZE == 0 && t' % PAGE_SIZE == 0 && i < ENTRIES && i' < ENTRIES
    ensures t / 8 + i == t' / 8 + i' <==> t == t' && i == i'
  {
    var a, b := t / PAGE_SIZE, t' / PAGE_SIZE;
    assert t / 8 == 512 * a && t' / 8 == 512 * b;
    assert a < b ==> 512 * a + i < 512 * b + i';
    assert b < a ==> 512 * b + i' < 512 * a + i;
  }

  lemma WordRangesDisjoint(t: nat, t': nat)
    requires t % PAGE_SIZE == 0 && t' % PAGE_SIZE == 0
    ensures t < t' ==> t / 8 + ENTRIES <= t' / 8
    ensures t' < t ==> t' / 8 + ENTRIES <= t / 8
  {
    assert t / 8 == ENTRIES * (t / PAGE_SIZE) && t' / 8 == ENTRIES * (t' / PAGE_SIZE);
  }

  lemma DescAfterSet(m: Memory, t: nat, i: nat, d: u64, t': nat, i': nat)
    requires TableAt(m, t) && i < ENTRIES && TableAt(m, t') && i' < ENTRIES
    ensures |SetDesc(m, t, i, d)| == |m|
    ensures Desc(SetDesc(m, t, i, d), t', i') == if t == t' && i == i' then d else Desc(m, t', i')
  {
    SlotsDisjoint(t, i, t', i');
  }

  lemma DescAfterZero(m: Memory, t: nat, t': nat, i': nat)
    requires TableAt(m, t) && TableAt(m, t') && i' < ENTRIES
    ensures |ZeroTable(m, t)| == |m|
    ensures Desc(ZeroTable(m, t), t', i') == if t == t' then 0 else Desc(m, t', i')
  {
    WordRangesDisjoint(t, t');
  }

  function Page(m: Memory, f: nat): seq<u64>
    requires TableAt(m, f)
  {
    m[f / 8..f / 8 + ENTRIES]
  }

  /** Only frames in `written` differ between the two memories. */
  ghost predicate Untouched(m: Memory, m': Memory, written: set<nat>)
  {
    |m'| == |m| && forall f: nat | TableAt(m, f) && f !in written :: Page(m', f) == Page(m, f)
  }

  lemma SetTouchesOnly(m: Memory, t: nat, i: nat, d: u64)
    requires TableAt(m, t) && i < ENTRIES
    ensures Untouched(m, SetDesc(m, t, i, d), {t})
  {
    forall f: nat | TableAt(m, f) && f != t
      ensures Page(SetDesc(m, t, i, d), f) == Page(m, f)
    {
      WordRangesDisjoint(t, f);
    }
  }

  lemma ZeroTouchesOnly(m: Memory, t: nat)
    requires TableAt(m, t)
    ensures Untouched(m, ZeroTable(m, t), {t})
  {
    forall f: nat | TableAt(m, f) && f != t
      ensures Page(ZeroTable(m, t), f) == Page(m, f)
    {
      WordRangesDisjoint(t, f);
    }
  }

  lemma UntouchedTrans(m: Memory, m': Memory, m'': Memory, s: set<nat>, s': set<nat>)
    requires Untouched(m, m', s) && Untouched(m', m'', s')
    ensures Untouched(m, m'', s + s')
  {
  }

  lemma UntouchedWeaken(m: Memory, m': Memory, s: set<nat>, s': set<nat>)
    requires Untouched(m, m', s) && s <= s'
    ensures Untouched(m, m', s')
  {
  }

  function AddTable(m: Memory, t: nat, i: nat, f: nat): Memory
    requires TableAt(m, t) && i < ENTRIES && TableAt(m, f) && f < ADDR_LIMIT
  {
    SetDesc(ZeroTable(m, f), t, i, f + 3)
  }

  lemma ZeroIsInvalid(level: Level)
    ensures Classify(0, level).Invalid?
  {
  }

  lemma DescAfterAdd(m: Memory, t: nat, i: nat, f: nat, t': nat, i': nat)
    requires TableAt(m, t) && i < ENTRIES && TableAt(m, f) && f < ADDR_LIMIT && TableAt(m, t') && i' < ENTRIES
    requires f != t
    ensures |AddTable(m, t, i, f)| == |m|
    ensures Desc(AddTable(m, t, i, f), t', i') ==
            if t' == t && i' == i then f + 3 else if t' == f then 0 else Desc(m, t', i')
  {
    DescAfterZero(m, f, t', i');
    DescAfterSet(ZeroTable(m, f), t, i, f + 3, t', i');
  }

  lemma AppendInjective(p: seq<nat>, i: nat, q: seq<nat>, j: nat)
    requires p + [i] == q + [j]
    ensures p == q && i == j
  {
    assert p == (p + [i])[..|p|] == (q + [j])[..|q|] == q;
    assert i == (p + [i])[|p|] == (q + [j])[|q|] == j;
  }

  /** A new path below an existing one, with a frame of its own, keeps the map of frames a tree. */
  lemma ExtendNodes(node: map<seq<nat>, nat>, p: seq<nat>, i: nat, f: nat)
    requires Unshared(node) && PrefixClosed(node) && p in node && p + [i] !in node && f !in node.Values
    ensures Unshared(node[p + [i] := f]) && PrefixClosed(node[p + [i] := f])
    ensures forall j: nat :: p + [i] + [j] !in node
  {
    var node' := node[p + [i] := f];
    assert forall q | q in node :: node[q] in node.Values;
    forall q, j: nat | q + [j] in node'
      ensures q in node'
    {
      if q + [j] == p + [i] { AppendInjective(p, i, q, j); }
    }
    assert Unshared(node');
  }

  lemma AddTableLinks(m: Memory, root: nat, node: map<seq<nat>, nat>, p: seq<nat>, i: nat, f: nat, q: seq<nat>, j: nat)
    requires Tree(m, root, node) && p in node && |p| < 3 && i < ENTRIES
    requires p + [i] !in node && TableAt(m, f) && f < ADDR_LIMIT && f !in node.Values
    requires q in node[p + [i] := f] && j < ENTRIES
    ensures TableAt(AddTable(m, node[p], i, f), node[p + [i] := f][q])
    ensures Linked(AddTable(m, node[p], i, f), node[p + [i] := f], q, j)
  {
    hide And, Or, OutputAddress, ZeroTable, SetDesc, AddTable;
    ExtendNodes(node, p, i, f);
    DescAfterAdd(m, node[p], i, f, node[p + [i] := f][q], j);
    if q == p + [i] {
      assert q !in node;
      assert q + [j] != p + [i];
      ZeroIsInvalid(AsLevel(|q|));
    } else {
      assert Linked(m, node, q, j);
      assert node[q] in node.Values;
      if q + [j] == p + [i] {
        AppendInjective(p, i, q, j);
        TableDescriptorDecodes(f);
      } else {
        assert node[q] == node[p] ==> q == p;
        assert q == p ==> j != i;
      }
    }
  }

  /** Hanging a zeroed table in an invalid slot extends the tree by one node ... */
  lemma AddTableKeepsTree(m: Memory, root: nat, node: map<seq<nat>, nat>, p: seq<nat>, i: nat, f: nat)
    requires Tree(m, root, node) && p in node && |p| < 3 && i < ENTRIES
    requires Classify(Desc(m, node[p], i), AsLevel(|p|)).Invalid?
    requires TableAt(m, f) && f < ADDR_LIMIT && f !in node.Values
    ensures p + [i] !in node
    ensures Tree(AddTable(m, node[p], i, f), root, node[p + [i] := f])
    ensures AgreeExcept(m, AddTable(m, node[p], i, f), node, p, i)
  {
    var m', node' := AddTable(m, node[p], i, f), node[p + [i] := f];
    assert Linked(m, node, p, i);
    ExtendNodes(node, p, i, f);
    DescAfterAdd(m, node[p], i, f, node[p], i);
    forall q, j: nat | q in node && j < ENTRIES && !(q == p && j == i)
      ensures Desc(m', node[q], j) == Desc(m, node[q], j)
    {
      assert node[q] in node.Values;
      DescAfterAdd(m, node[p], i, f, node[q], j);
    }
    forall q, j: nat | q in node' && j < ENTRIES
      ensures Linked(m', node', q, j)
    {
      AddTableLinks(m, root, node, p, i, f, q, j);
    }
  }

  /** ... and changes no translation at all. */
  lemma AddTableKeepsWalks(m: Memory, root: nat, node: map<seq<nat>, nat>, p: seq<nat>, i: nat, f: nat, va: nat)
    requires Tree(m, root, node) && p in node && |p| < 3 && i < ENTRIES
    requires Classify(Desc(m, node[p], i), AsLevel(|p|)).Invalid?
    requires TableAt(m, f) && f < ADDR_LIMIT && f !in node.Values
    ensures Walk(AddTable(m, node[p], i, f), root, 0, va) == Walk(m, root, 0, va)
  {
    var m', node' := AddTable(m, node[p], i, f), node[p + [i] := f];
    AddTableKeepsTree(m, root, node, p, i, f);
    if PassesThrough(va, p, i) {
      WalkOffTree(m, root, node, 0, va, |p|);
      assert Path(va, |p| + 1) == p + [i];
      WalkOffTree(m', root, node', 0, va, |p| + 1);
      DescAfterAdd(m, node[p], i, f, f, Index(va, |p| + 1));
      ZeroIsInvalid(AsLevel(|p| + 1));
    } else {
      WalkUnaffected(m, m', root, node, 0, va, p, i);
    }
  }

  /** Writing a page descriptor in a last-level slot keeps the tree and redirects exactly the
      addresses whose walk ends in that slot. */
  lemma SetLeafKeepsTree(m: Memory, root: nat, node: map<seq<nat>, nat>, p: seq<nat>, i: nat, d: u64)
    requires Tree(m, root, node) && p in node && |p| == 3 && i < ENTRIES && And(d, 3) == 3
    ensures Tree(SetDesc(m, node[p], i, d), root, node)
    ensures AgreeExcept(m, SetDesc(m, node[p], i, d), node, p, i)
  {
    var m' := SetDesc(m, node[p], i, d);
    forall q, j: nat | q in node && j < ENTRIES
      ensures Desc(m', node[q], j) == (if q == p && j == i then d else Desc(m, node[q], j)) && Linked(m', node, q, j)
    {
      DescAfterSet(m, node[p], i, d, node[q], j);
      assert Linked(m, node, q, j);
      assert q == p ==> p + [j] !in node;
    }
  }

  lemma SetLeafRedirects(m: Memory, root: nat, node: map<seq<nat>, nat>, p: seq<nat>, i: nat, d: u64, va: nat)
    requires Tree(m, root, node) && p in node && |p| == 3 && i < ENTRIES && And(d, 3) == 3
    ensures Walk(SetDesc(m, node[p], i, d), root, 0, va) ==
            if PassesThrough(va, p, i) then Leaf(d, va, PAGE_SIZE) else Walk(m, root, 0, va)
  {
    var m' := SetDesc(m, node[p], i, d);
    SetLeafKeepsTree(m, root, node, p, i, d);
    if PassesThrough(va, p, i) {
      WalkOffTree(m', root, node, 0, va, 3);
      DescAfterSet(m, node[p], i, d, node[p], i);
    } else {
      WalkUnaffected(m, m', root, node, 0, va, p, i);
    }
  }

  /** Memory outside the tables is of no concern to the walk. */
  lemma WriteOutsideTables(m: Memory, m': Memory, root: nat, node: map<seq<nat>, nat>)
    requires Tree(m, root, node) && |m'| == |m|
    requires forall q, j: nat | q in node && j < ENTRIES :: Desc(m', node[q], j) == Desc(m, node[q], j)
    ensures Tree(m', root, node)
    ensures forall va: nat :: Walk(m', root, 0, va) == Walk(m, root, 0, va)
  {
    forall q, j: nat | q in node && j < ENTRIES
      ensures Linked(m', node, q, j)
    {
      assert Linked(m, node, q, j);
    }
    forall va: nat
      ensures Walk(m', root, 0, va) == Walk(m, root, 0, va)
    {
      var nowhere := Path(0, LEVELS);
      assert nowhere !in node;
      assert !PassesThrough(va, nowhere, ENTRIES);
      WalkUnaffected(m, m', root, node, 0, va, nowhere, ENTRIES);
    }
  }

  // ----- addresses and pages -----

  predicate Kernel(va: nat)
  {
    KERNEL_BASE <= va < U64_LIMIT
  }

  function PageNumber(va: nat): nat
  {
    va / PAGE_SIZE
  }

  /** Within the kernel half, the four indices and the page number determine each other. */
  lemma IndicesMakePage(va: nat)
    requires Kernel(va)
    ensures Path(va, 3) == [Index(va, 0), Index(va, 1), Index(va, 2)]
    ensures PageNumber(va) == 0xffff * 0x10_0000_0000
            + Index(va, 0) * 0x800_0000 + Index(va, 1) * 0x4_0000 + Index(va, 2) * 0x200 + Index(va, 3)
  {
    assert Path(va, 3) == Path(va, 2) + [Index(va, 2)];
    assert Path(va, 2) == Path(va, 1) + [Index(va, 1)];
    assert Path(va, 1) == Path(va, 0) + [Index(va, 0)];
    var x := PageNumber(va);
    assert va / 0x20_0000 == x / 512 && va / 0x4000_0000 == x / 512 / 512 && va / 0x80_0000_0000 == x / 512 / 512 / 512;
    assert x / 512 / 512 / 512 / 512 == 0xffff;
  }

  lemma SamePageSameIndices(va: nat, va': nat)
    requires PageNumber(va) == PageNumber(va')
    ensures Index(va, 0) == Index(va', 0) && Index(va, 1) == Index(va', 1)
    ensures Index(va, 2) == Index(va', 2) && Index(va, 3) == Index(va', 3)
  {
    var x, y := PageNumber(va), PageNumber(va');
    assert va / 0x20_0000 == x / 512 && va / 0x4000_0000 == x / 0x4_0000 && va / 0x80_0000_0000 == x / 0x800_0000;
    assert va' / 0x20_0000 == y / 512 && va' / 0x4000_0000 == y / 0x4_0000 && va' / 0x80_0000_0000 == y / 0x800_0000;
  }

  /** A walk ends in the slot of `va` exactly when it is for the same page. */
  lemma SamePage(va: nat, va': nat)
    requires Kernel(va) && Kernel(va')
    ensures PassesThrough(va', Path(va, 3), Index(va, 3)) <==> PageNumber(va') == PageNumber(va)
  {
    IndicesMakePage(va);
    IndicesMakePage(va');
    if PageNumber(va') == PageNumber(va) {
      SamePageSameIndices(va, va');
    }
  }

  // ----- the tables `setup_page_tables` leaves behind -----

  /** Slot i of a level-1 table of 1 GiB blocks that maps offset i GiB to physical i GiB. */
  function BlockEntry(i: nat, mem: MemAttr): u64
    requires i < ENTRIES
  {
    i * GIB + EntryAttrs(1, false, mem)
  }

  lemma BlockEntryMeaning(i: nat, mem: MemAttr)
    requires i < ENTRIES
    ensures Or(i * GIB, 1) == i * GIB + 1 && Configured(i * GIB + 1, false, mem) == BlockEntry(i, mem)
    ensures OutputAddress(BlockEntry(i, mem)) == i * GIB && Classify(BlockEntry(i, mem), Level1).Block?
  {
    hide And, Or, Configured, OutputAddress;
    assert i * GIB % PAGE_SIZE == 0 && i * GIB < ADDR_LIMIT;
    ConfiguredEntry(i * GIB, 1, false, mem);
    ExactEntry(i * GIB, 1, false, mem);
  }

  function FillBlocks(m: Memory, t: nat, mem: MemAttr): Memory
    requires TableAt(m, t)
  {
    m[..t / 8] + seq(ENTRIES, i requires 0 <= i < ENTRIES => BlockEntry(i, mem)) + m[t / 8 + ENTRIES..]
  }

  lemma DescAfterFill(m: Memory, t: nat, mem: MemAttr, t': nat, i': nat)
    requires TableAt(m, t) && TableAt(m, t') && i' < ENTRIES
    ensures |FillBlocks(m, t, mem)| == |m|
    ensures Desc(FillBlocks(m, t, mem), t', i') == if t == t' then BlockEntry(i', mem) else Desc(m, t', i')
  {
    WordRangesDisjoint(t, t');
  }

  /** Memory after the user half has been set up: a root with one entry, over a full table of blocks. */
  function UserImage(m: Memory, u0: nat, k0: nat, u1: nat): Memory
    requires TableAt(m, u0) && TableAt(m, k0) && TableAt(m, u1) && u1 < ADDR_LIMIT
  {
    var zeroed := ZeroTable(ZeroTable(ZeroTable(m, u0), k0), u1);
    SetDesc(FillBlocks(zeroed, u1, DeviceNgnRnE), u0, 0, u1 + 3)
  }

  lemma UserImageDesc(m: Memory, u0: nat, k0: nat, u1: nat, t: nat, i: nat)
    requires TableAt(m, u0) && TableAt(m, k0) && TableAt(m, u1) && TableAt(m, t) && u1 < ADDR_LIMIT && i < ENTRIES
    requires u0 != k0 && u0 != u1 && k0 != u1
    ensures |UserImage(m, u0, k0, u1)| == |m|
    ensures Desc(UserImage(m, u0, k0, u1), t, i) ==
            if t == u0 then (if i == 0 then u1 + 3 else 0)
            else if t == k0 then 0 else if t == u1 then BlockEntry(i, DeviceNgnRnE) else Desc(m, t, i)
  {
    hide BlockEntry, SetDesc, ZeroTable, FillBlocks;
    var m1 := ZeroTable(m, u0);
    DescAfterZero(m, u0, t, i);
    var m2 := ZeroTable(m1, k0);
    DescAfterZero(m1, k0, t, i);
    var m3 := ZeroTable(m2, u1);
    DescAfterZero(m2, u1, t, i);
    var m4 := FillBlocks(m3, u1, DeviceNgnRnE);
    DescAfterFill(m3, u1, DeviceNgnRnE, t, i);
    DescAfterSet(m4, u0, 0, u1 + 3, t, i);
  }

  /** Memory after the kernel half: three entries, the first over a full table of blocks. */
  function KernelImage(m: Memory, k0: nat, linear: nat, heap: nat, io: nat): Memory
    requires TableAt(m, k0) && TableAt(m, linear) && TableAt(m, heap) && TableAt(m, io)
    requires linear < ADDR_LIMIT && heap < ADDR_LIMIT && io < ADDR_LIMIT
  {
    var zeroed := ZeroTable(ZeroTable(ZeroTable(m, linear), heap), io);
    var linked := SetDesc(SetDesc(SetDesc(zeroed, k0, LINEAR_INDEX, linear + 3), k0, HEAP_INDEX, heap + 3), k0, IO_INDEX, io + 3);
    FillBlocks(linked, linear, NormalWriteBack)
  }

  lemma KernelImageDesc(m: Memory, k0: nat, linear: nat, heap: nat, io: nat, t: nat, i: nat)
    requires TableAt(m, k0) && TableAt(m, linear) && TableAt(m, heap) && TableAt(m, io) && TableAt(m, t) && i < ENTRIES
    requires linear < ADDR_LIMIT && heap < ADDR_LIMIT && io < ADDR_LIMIT
    requires k0 != linear && k0 != heap && k0 != io && linear != heap && linear != io && heap != io
    ensures |KernelImage(m, k0, linear, heap, io)| == |m|
    ensures Desc(KernelImage(m, k0, linear, heap, io), t, i) ==
            if t == k0 then
              (if i == LINEAR_INDEX then linear + 3 else if i == HEAP_INDEX then heap + 3
               else if i == IO_INDEX then io + 3 else Desc(m, k0, i))
            else if t == linear then BlockEntry(i, NormalWriteBack)
            else if t == heap || t == io then 0 else Desc(m, t, i)
  {
    hide BlockEntry, SetDesc, ZeroTable, FillBlocks;
    var m1 := ZeroTable(m, linear);
    DescAfterZero(m, linear, t, i);
    var m2 := ZeroTable(m1, heap);
    DescAfterZero(m1, heap, t, i);
    var m3 := ZeroTable(m2, io);
    DescAfterZero(m2, io, t, i);
    var m4 := SetDesc(m3, k0, LINEAR_INDEX, linear + 3);
    DescAfterSet(m3, k0, LINEAR_INDEX, linear + 3, t, i);
    var m5 := SetDesc(m4, k0, HEAP_INDEX, heap + 3);
    DescAfterSet(m4, k0, HEAP_INDEX, heap + 3, t, i);
    var m6 := SetDesc(m5, k0, IO_INDEX, io + 3);
    DescAfterSet(m5, k0, IO_INDEX, io + 3, t, i);
    DescAfterFill(m6, linear, NormalWriteBack, t, i);
  }

  /** A level-0 table with the given links over a level-1 table of blocks and empty level-1 tables. */
  ghost predicate BuiltTree(m: Memory, root: nat, links: map<nat, nat>, blockIndex: nat, mem: MemAttr)
  {
    && TableAt(m, root) && root < ADDR_LIMIT && blockIndex in links && root !in links.Values
    && (forall i | i in links :: i < ENTRIES && TableAt(m, links[i]) && links[i] < ADDR_LIMIT)
    && (forall i, j | i in links && j in links && links[i] == links[j] :: i == j)
    && (forall i: nat | i < ENTRIES :: Desc(m, root, i) == if i in links then links[i] + 3 else 0)
    && (forall i, j: nat | i in links && j < ENTRIES ::
          Desc(m, links[i], j) == if i == blockIndex then BlockEntry(j, mem) else 0)
  }

  function KernelLinks(linear: nat, heap: nat, io: nat): map<nat, nat>
  {
    map[LINEAR_INDEX := linear, HEAP_INDEX := heap, IO_INDEX := io]
  }

  /** Setting up one half after the other leaves both halves built. */
  lemma SetupBuilds(m: Memory, u0: nat, k0: nat, u1: nat, linear: nat, heap: nat, io: nat)
    requires TableAt(m, u0) && TableAt(m, k0) && TableAt(m, u1) && TableAt(m, linear) && TableAt(m, heap) && TableAt(m, io)
    requires u0 < ADDR_LIMIT && k0 < ADDR_LIMIT && u1 < ADDR_LIMIT
    requires linear < ADDR_LIMIT && heap < ADDR_LIMIT && io < ADDR_LIMIT
    requires u0 != k0 && u0 != u1 && k0 != u1 && linear != heap && linear != io && heap != io
    requires linear != u0 && linear != k0 && linear != u1
    requires heap != u0 && heap != k0 && heap != u1
    requires io != u0 && io != k0 && io != u1
    ensures var m' := UserImage(m, u0, k0, u1);
            && |m'| == |m| && TableAt(m', k0)
            && var m'' := KernelImage(m', k0, linear, heap, io);
               BuiltTree(m'', u0, map[0 := u1], 0, DeviceNgnRnE)
               && BuiltTree(m'', k0, KernelLinks(linear, heap, io), LINEAR_INDEX, NormalWriteBack)
  {
    hide BlockEntry, UserImage, KernelImage;
    UserImageDesc(m, u0, k0, u1, u0, 0);
    var m' := UserImage(m, u0, k0, u1);
    KernelImageDesc(m', k0, linear, heap, io, k0, 0);
    var m'' := KernelImage(m', k0, linear, heap, io);
    var userLinks, kernelLinks := map[0 := u1], KernelLinks(linear, heap, io);
    assert userLinks.Values == {u1} && kernelLinks.Values == {linear, heap, io} by {
      assert userLinks[0] == u1;
      assert kernelLinks[LINEAR_INDEX] == linear && kernelLinks[HEAP_INDEX] == heap && kernelLinks[IO_INDEX] == io;
    }
    forall t, i: nat | t in {u0, k0, u1, linear, heap, io} && i < ENTRIES
      ensures Desc(m'', t, i) ==
              if t == u0 then (if i == 0 then u1 + 3 else 0)
              else if t == k0 then (if i in kernelLinks then kernelLinks[i] + 3 else 0)
              else if t == u1 then BlockEntry(i, DeviceNgnRnE)
              else if t == linear then BlockEntry(i, NormalWriteBack) else 0
    {
      UserImageDesc(m, u0, k0, u1, t, i);
      KernelImageDesc(m', k0, linear, heap, io, t, i);
    }
  }

  ghost function BuiltNodes(root: nat, links: map<nat, nat>): map<seq<nat>, nat>
  {
    map[[] := root] + map i | i in links :: [i] := links[i]
  }

  lemma BuiltNodesDomain(root: nat, links: map<nat, nat>, p: seq<nat>)
    ensures p in BuiltNodes(root, links) <==> p == [] || (|p| == 1 && p[0] in links)
    ensures p in BuiltNodes(root, links) ==> BuiltNodes(root, links)[p] == if p == [] then root else links[p[0]]
  {
    var children := map i | i in links :: [i] := links[i];
    if |p| == 1 && p[0] in links {
      assert p == [p[0]];
      assert p in children;
    }
    if p in children {
      var i :| i in links && [i] == p;
      assert p[0] == i;
    }
  }

  lemma BuiltNodesValues(root: nat, links: map<nat, nat>)
    ensures BuiltNodes(root, links).Values == {root} + links.Values
  {
    var node := BuiltNodes(root, links);
    BuiltNodesDomain(root, links, []);
    assert node[[]] == root;
    forall i | i in links
      ensures links[i] in node.Values
    {
      BuiltNodesDomain(root, links, [i]);
      assert node[[i]] == links[i];
    }
    forall p | p in node
      ensures node[p] in {root} + links.Values
    {
      BuiltNodesDomain(root, links, p);
    }
  }

  lemma BuiltNodesShape(root: nat, links: map<nat, nat>)
    requires root !in links.Values
    requires forall i, j | i in links && j in links && links[i] == links[j] :: i == j
    ensures Unshared(BuiltNodes(root, links)) && PrefixClosed(BuiltNodes(root, links))
  {
    var node := BuiltNodes(root, links);
    assert forall i | i in links :: links[i] in links.Values;
    forall p, i: nat | p + [i] in node
      ensures p in node
    {
      BuiltNodesDomain(root, links, p + [i]);
      assert |p + [i]| == 1;
      assert p == [];
    }
    forall p, q | p in node && q in node && node[p] == node[q]
      ensures p == q
    {
      BuiltNodesDomain(root, links, p);
      BuiltNodesDomain(root, links, q);
      if |p| == 1 && |q| == 1 { assert p == [p[0]] && q == [q[0]]; }
    }
  }

  lemma BuiltRootSlot(m: Memory, root: nat, links: map<nat, nat>, b: nat, mem: MemAttr, i: nat)
    requires BuiltTree(m, root, links, b, mem) && i < ENTRIES
    ensures var kind := Classify(Desc(m, root, i), Level0);
            (kind.Table? <==> i in links) && (kind.Invalid? <==> i !in links)
    ensures i in links ==> OutputAddress(Desc(m, root, i)) == links[i]
  {
    hide And, Or, OutputAddress, BlockEntry, Classify;
    ZeroIsInvalid(Level0);
    assert Desc(m, root, i) == if i in links then links[i] + 3 else 0;
    if i in links {
      TableDescriptorDecodes(links[i]);
      assert Classify(links[i] + 3, Level0).Table?;
    }
  }

  lemma BuiltChildSlot(m: Memory, root: nat, links: map<nat, nat>, b: nat, mem: MemAttr, i: nat, j: nat)
    requires BuiltTree(m, root, links, b, mem) && i in links && j < ENTRIES
    ensures Classify(Desc(m, links[i], j), Level1) == if i == b then Block else Invalid
  {
    hide And, Or, OutputAddress, BlockEntry;
    ZeroIsInvalid(Level1);
    BlockEntryMeaning(j, mem);
  }

  lemma BuiltLinked(m: Memory, root: nat, links: map<nat, nat>, b: nat, mem: MemAttr, p: seq<nat>, i: nat)
    requires BuiltTree(m, root, links, b, mem) && p in BuiltNodes(root, links) && i < ENTRIES
    ensures |p| < 3 && TableAt(m, BuiltNodes(root, links)[p]) && BuiltNodes(root, links)[p] < ADDR_LIMIT
    ensures Linked(m, BuiltNodes(root, links), p, i)
    ensures Classify(Desc(m, BuiltNodes(root, links)[p], i), AsLevel(|p|)).Block? ==> p != [] && p[0] == b
  {
    hide And, Or, BlockEntry, OutputAddress, BuiltNodes, Classify;
    BuiltNodesDomain(root, links, p);
    BuiltNodesDomain(root, links, p + [i]);
    assert (p + [i])[|p|] == i;
    if p == [] {
      BuiltRootSlot(m, root, links, b, mem, i);
    } else {
      BuiltChildSlot(m, root, links, b, mem, p[0], i);
    }
  }

  lemma BuiltIsTree(m: Memory, root: nat, links: map<nat, nat>, b: nat, mem: MemAttr)
    requires BuiltTree(m, root, links, b, mem)
    ensures Tree(m, root, BuiltNodes(root, links))
  {
    var node := BuiltNodes(root, links);
    BuiltNodesDomain(root, links, []);
    BuiltNodesShape(root, links);
    forall p, i: nat | p in node && i < ENTRIES
      ensures |p| < 3 && TableAt(m, node[p]) && node[p] < ADDR_LIMIT && Linked(m, node, p, i)
    {
      BuiltLinked(m, root, links, b, mem, p, i);
    }
    forall p | p in node
      ensures |p| < LEVELS && TableAt(m, node[p]) && node[p] < ADDR_LIMIT
    {
      BuiltLinked(m, root, links, b, mem, p, 0);
    }
  }

  /** Such a tree maps the span of its block entry onto physical memory from zero, and nothing else. */
  lemma BuiltTranslation(m: Memory, root: nat, links: map<nat, nat>, b: nat, mem: MemAttr, va: nat)
    requires BuiltTree(m, root, links, b, mem)
    ensures Walk(m, root, 0, va) ==
            if Index(va, 0) == b then Mapped(va % L0_SPAN, EntryAttrs(1, false, mem)) else Fault
  {
    hide And, Or;
    var i, j := Index(va, 0), Index(va, 1);
    ZeroIsInvalid(Level0);
    ZeroIsInvalid(Level1);
    if i in links {
      TableDescriptorDecodes(links[i]);
      BlockEntryMeaning(j, mem);
      BlockOffset(va);
      assert Walk(m, root, 0, va) == Walk(m, links[i], 1, va);
    }
  }

  lemma BlockOffset(va: nat)
    ensures Index(va, 1) * GIB + va % GIB == va % L0_SPAN
  {
  }
}
