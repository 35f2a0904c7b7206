/** The heap's bookkeeping as a value: blocks carved out of the mapped range, and the free lists whose
    links live inside the free blocks themselves (src/mm/heap_allocator.rs). */
module HeapLists {
  import opened Arithmetic
  import opened Basics
  import opened Bits
  import opened Descriptors
  import opened PageWalk
  import opened FrameAllocator

  const MIN_BLOCK_SIZE: nat := 16
  const HEAD_COUNT: nat := 9
  const NIL: nat := 0

  datatype Layout = Layout(size: nat, align: nat)

  /** What `core::alloc::Layout` guarantees. */
  ghost predicate ValidLayout(l: Layout)
  {
    (exists a: nat :: l.align == Pow2(a)) && l.size < 0x8000_0000_0000_0000
  }

  function Max(a: nat, b: nat): nat
  {
    if a >= b then a else b
  }

  function DoubleUntil(p: nat, n: nat): nat
    requires p > 0
    decreases n - p
  {
    if p >= n then p else DoubleUntil(2 * p, n)
  }

  function NextPowerOfTwo(n: nat): nat
  {
    DoubleUntil(1, n)
  }

  function TrailingZeros(x: nat): nat
  {
    if x == 0 || x % 2 == 1 then 0 else 1 + TrailingZeros(x / 2)
  }

  function Needed(l: Layout): nat
  {
    Max(Max(l.size, l.align), MIN_BLOCK_SIZE)
  }

  function BlockSize(l: Layout): nat
  {
    NextPowerOfTwo(Needed(l))
  }

  function HeadIndex(l: Layout): int
  {
    TrailingZeros(BlockSize(l)) - 4
  }

  function Pages(l: Layout): nat
  {
    (l.size + PAGE_SIZE - 1) / PAGE_SIZE
  }

  /** No page is granted that the size does not reach into. */
  lemma PagesLeast(l: Layout)
    ensures l.size <= 4096 * Pages(l) && (l.size > 0 ==> 4096 * (Pages(l) - 1) < l.size)
    ensures l.size == 0 ==> Pages(l) == 0
  {
  }

  /** Block size of list k. */
  function ClassSize(k: nat): nat
  {
    Pow2(k + 4)
  }

  /** Bytes an allocation occupies: its size class, or whole pages. */
  function Granted(l: Layout): nat
  {
    if HeadIndex(l) < HEAD_COUNT then BlockSize(l) else Pages(l) * PAGE_SIZE
  }

  lemma {:induction false} DoubleUntilIsPow2(j: nat, n: nat) returns (k: nat)
    requires j > 0 ==> Pow2(j - 1) < n
    ensures k >= j && DoubleUntil(Pow2(j), n) == Pow2(k) && Pow2(k) >= n && (k > 0 ==> k == j || Pow2(k - 1) < n)
    ensures k > 0 && k == j ==> Pow2(k - 1) < n
    decreases n - Pow2(j)
  {
    if Pow2(j) >= n {
      k := j;
    } else {
      k := DoubleUntilIsPow2(j + 1, n);
    }
  }

  lemma {:induction false} TrailingZerosOfPow2(k: nat)
    ensures TrailingZeros(Pow2(k)) == k
  {
    if k > 0 { TrailingZerosOfPow2(k - 1); }
  }

  lemma ClassSizes()
    ensures Pow2(4) == 16 && Pow2(12) == PAGE_SIZE && ClassSize(0) == 16 && ClassSize(8) == PAGE_SIZE
  {
    Pow2Of12();
    assert Pow2(4) == 16;
  }

  /** The size class is the least power of two, at least 16, that fits size and alignment;
      it is served from a list exactly when it is at most one page. */
  lemma ClassOfLayout(l: Layout)
    requires ValidLayout(l)
    ensures 0 <= HeadIndex(l) && BlockSize(l) == ClassSize(HeadIndex(l))
    ensures l.size <= BlockSize(l) && l.align <= BlockSize(l)
    ensures BlockSize(l) == MIN_BLOCK_SIZE || BlockSize(l) < 2 * Needed(l)
    ensures HeadIndex(l) < HEAD_COUNT <==> Needed(l) <= PAGE_SIZE
  {
    var n := Needed(l);
    ClassSizes();
    var k := DoubleUntilIsPow2(0, n);
    TrailingZerosOfPow2(k);
    assert Pow2(3) == 8;
    if k < 4 { Pow2Monotone(k, 3); }
    if k <= 12 { Pow2Monotone(k, 12); } else { Pow2Monotone(12, k - 1); }
    if k == 4 { assert Pow2(k) == 16; }
  }

  /** A power of two divides every larger one, so class alignment implies the requested alignment. */
  lemma {:induction false} Pow2Divides(a: nat, b: nat, x: nat)
    requires a <= b && x % Pow2(b) == 0
    ensures x % Pow2(a) == 0
    decreases b
  {
    if a < b {
      var q := x / Pow2(b);
      assert x == q * Pow2(b) == 2 * q * Pow2(b - 1);
      MultipleMod(2 * q, Pow2(b - 1));
      Pow2Divides(a, b - 1, x);
    }
  }

  // ----- the state -----

  /** Where a block is: on the list of a class, retired after a multi-page release, handed out for a
      layout, or in transit between two of these. */
  datatype Place = Free(k: nat) | Retired | Live(layout: Layout) | Loose

  datatype Block = Block(size: nat, place: Place)

  /** Mapped bytes, memory words, list heads, and the ghost record of every block ever carved. */
  datatype State = State(
    size: nat,
    mem: map<nat, u64>,
    heads: seq<nat>,
    multi: nat,
    blocks: map<nat, Block>,
    free: seq<seq<nat>>,
    retired: seq<nat>)

  /** Blocks lie in the mapped heap and never overlap. */
  ghost predicate Disjoint(blocks: map<nat, Block>, size: nat)
  {
    && (forall b | b in blocks :: HEAP_MAP_OFFSET <= b && b % 16 == 0 && 16 <= blocks[b].size
                                  && b + blocks[b].size <= HEAP_MAP_OFFSET + size)
    && (forall b, c | b in blocks && c in blocks && b < c :: b + blocks[b].size <= c)
  }

  lemma BlockBounds(blocks: map<nat, Block>, size: nat, b: nat)
    requires Disjoint(blocks, size) && b in blocks
    ensures HEAP_MAP_OFFSET <= b && b % 16 == 0 && 16 <= blocks[b].size && b + blocks[b].size <= HEAP_MAP_OFFSET + size
  {
  }

  ghost predicate WordsMapped(mem: map<nat, u64>, size: nat)
  {
    size <= L0_SPAN && forall w: nat | HEAP_MAP_OFFSET <= w < HEAP_MAP_OFFSET + size && w % 8 == 0 :: w in mem
  }

  function First(list: seq<nat>): nat
  {
    if list == [] then NIL else list[0]
  }

  ghost predicate LinkAt(mem: map<nat, u64>, list: seq<nat>, offset: nat, i: nat)
    requires i < |list|
  {
    list[i] + offset in mem && mem[list[i] + offset] == First(list[i + 1..])
  }

  /** The links stored in the blocks of a list, at `offset` bytes into each, spell out the list:
      following them from the head visits each block once and ends. */
  ghost predicate Chained(mem: map<nat, u64>, head: nat, list: seq<nat>, offset: nat)
  {
    head == First(list) && NoRepeats(list) && forall i: nat | i < |list| :: LinkAt(mem, list, offset, i)
  }

  ghost predicate Chains(mem: map<nat, u64>, heads: seq<nat>, free: seq<seq<nat>>)
  {
    |heads| == HEAD_COUNT == |free| && forall k | 0 <= k < HEAD_COUNT :: Chained(mem, heads[k], free[k], 0)
  }

  /** List k holds exactly the blocks placed there. */
  ghost predicate FreeListed(free: seq<seq<nat>>, blocks: map<nat, Block>)
  {
    forall k: nat, b: nat | k < |free| :: b in free[k] <==> b in blocks && blocks[b].place == Free(k)
  }

  ghost predicate RetiredListed(mem: map<nat, u64>, retired: seq<nat>, blocks: map<nat, Block>)
  {
    && (forall b: nat :: b in retired <==> b in blocks && blocks[b].place.Retired?)
    && (forall b | b in retired :: b in mem && mem[b] * PAGE_SIZE == blocks[b].size)
  }

  /** A live block is as large and as aligned as its layout asks. */
  ghost predicate Serves(b: nat, n: nat, l: Layout)
  {
    && ValidLayout(l) && 0 < l.align <= PAGE_SIZE && n == Granted(l) && l.size <= n && b % l.align == 0
    && (HeadIndex(l) < HEAD_COUNT ==> HeadIndex(l) >= 0 && n == ClassSize(HeadIndex(l)) && b % ClassSize(HeadIndex(l)) == 0)
    && (HeadIndex(l) >= HEAD_COUNT ==> n > PAGE_SIZE)
  }

  ghost predicate WellPlaced(b: nat, block: Block)
  {
    match block.place
    case Free(k) => k < HEAD_COUNT && block.size == ClassSize(k) && b % ClassSize(k) == 0
    case Retired => block.size > PAGE_SIZE
    case Live(l) => Serves(b, block.size, l)
    case Loose => true
  }

  ghost predicate AllWellPlaced(blocks: map<nat, Block>)
  {
    forall b | b in blocks :: WellPlaced(b, blocks[b])
  }

  ghost predicate Core(s: State)
  {
    && Disjoint(s.blocks, s.size) && WordsMapped(s.mem, s.size)
    && Chains(s.mem, s.heads, s.free) && FreeListed(s.free, s.blocks)
    && Chained(s.mem, s.multi, s.retired, 8) && RetiredListed(s.mem, s.retired, s.blocks)
    && AllWellPlaced(s.blocks)
  }

  /** No block is ever lost: between operations each is on its list, retired or live. */
  ghost predicate Inv(s: State)
  {
    Core(s) && forall b | b in s.blocks :: !s.blocks[b].place.Loose?
  }

  /** The state between taking block x from one place and putting it in another. */
  ghost predicate InvBut(s: State, x: nat)
  {
    Core(s) && forall b | b in s.blocks :: s.blocks[b].place.Loose? <==> b == x
  }

  function Empty(): State
  {
    State(0, map[], seq(HEAD_COUNT, _ => NIL), NIL, map[], seq(HEAD_COUNT, _ => []), [])
  }

  lemma EmptyInv()
    ensures Inv(Empty())
  {
  }

  function Put(s: State, b: nat, place: Place): State
    requires b in s.blocks
  {
    s.(blocks := s.blocks[b := s.blocks[b].(place := place)])
  }

  // ----- what a call does to all blocks -----

  /** Every block that was there still is, in the same place; x may have moved. */
  ghost predicate OthersStay(s0: State, s: State, x: nat)
  {
    forall b | b in s0.blocks && b != x :: b in s.blocks && s.blocks[b] == s0.blocks[b]
  }

  /** The first block of list k went to an owner; no other list changed. */
  ghost predicate Taken(s0: State, s: State, k: nat, addr: nat)
  {
    && k < |s0.free| && s0.free[k] != [] && addr == s0.free[k][0]
    && s.free == s0.free[k := s0.free[k][1..]] && s.retired == s0.retired
  }

  /** A block went back: to the front of the list of its class, or of the multi-page list. */
  ghost predicate Returned(s0: State, s: State, l: Layout, addr: nat)
  {
    && addr in s0.blocks && addr in s.blocks && s.blocks[addr].size == s0.blocks[addr].size
    && if HeadIndex(l) < HEAD_COUNT
       then 0 <= HeadIndex(l) < |s0.free| && s.free == s0.free[HeadIndex(l) := [addr] + s0.free[HeadIndex(l)]] && s.retired == s0.retired
            && s.blocks[addr].place == Place.Free(HeadIndex(l))
       else s.free == s0.free && s.retired == [addr] + s0.retired && s.blocks[addr].place == Retired
  }

  // ----- lists -----

  lemma LinkAfterPush(mem: map<nat, u64>, head: u64, list: seq<nat>, offset: nat, b: nat, i: nat)
    requires Chained(mem, head, list, offset) && b !in list && i <= |list|
    ensures LinkAt(mem[b + offset := head], [b] + list, offset, i)
  {
    if i > 0 {
      hide First;
      assert LinkAt(mem, list, offset, i - 1);
      assert ([b] + list)[i] == list[i - 1] && list[i - 1] in list;
      assert ([b] + list)[i + 1..] == list[i..];
    } else {
      assert ([b] + list)[1..] == list;
    }
  }

  lemma DistinctPush(list: seq<nat>, b: nat)
    requires b !in list && NoRepeats(list)
    ensures NoRepeats([b] + list)
  {
    forall i, j | 0 <= i < j < |[b] + list|
      ensures ([b] + list)[i] != ([b] + list)[j]
    {
      assert ([b] + list)[j] == list[j - 1] && list[j - 1] in list;
    }
  }

  lemma ChainedPush(mem: map<nat, u64>, head: u64, list: seq<nat>, offset: nat, b: nat)
    requires Chained(mem, head, list, offset) && b !in list
    ensures Chained(mem[b + offset := head], b, [b] + list, offset)
  {
    hide LinkAt, NoRepeats;
    DistinctPush(list, b);
    var mem', list' := mem[b + offset := head], [b] + list;
    forall i: nat | i < |list'|
      ensures LinkAt(mem', list', offset, i)
    {
      LinkAfterPush(mem, head, list, offset, b, i);
    }
  }

  lemma ChainedElsewhere(mem: map<nat, u64>, head: nat, list: seq<nat>, offset: nat, w: nat, v: u64)
    requires Chained(mem, head, list, offset)
    requires forall x | x in list :: x + offset != w
    ensures Chained(mem[w := v], head, list, offset)
  {
    hide First, NoRepeats;
    var mem' := mem[w := v];
    forall i: nat | i < |list|
      ensures LinkAt(mem', list, offset, i)
    {
      assert list[i] in list && LinkAt(mem, list, offset, i);
    }
  }

  lemma ChainedGrow(mem: map<nat, u64>, mem': map<nat, u64>, head: nat, list: seq<nat>, offset: nat)
    requires Chained(mem, head, list, offset)
    requires forall w | w in mem :: w in mem' && mem'[w] == mem[w]
    ensures Chained(mem', head, list, offset)
  {
    hide First, NoRepeats;
    forall i: nat | i < |list|
      ensures LinkAt(mem', list, offset, i)
    {
      assert LinkAt(mem, list, offset, i);
    }
  }

  lemma ChainedPop(mem: map<nat, u64>, head: nat, list: seq<nat>, offset: nat)
    requires Chained(mem, head, list, offset) && list != []
    ensures list[0] == head && head + offset in mem && Chained(mem, mem[head + offset], list[1..], offset)
    ensures head !in list[1..]
  {
    var t := list[1..];
    assert LinkAt(mem, list, offset, 0) && list[0] == head;
    hide First;
    forall i: nat | i < |t|
      ensures LinkAt(mem, t, offset, i)
    {
      assert LinkAt(mem, list, offset, i + 1);
      assert t[i] == list[i + 1] && t[i + 1..] == list[i + 2..];
    }
  }

  /** Two words of different blocks are different words. */
  lemma OtherBlock(blocks: map<nat, Block>, size: nat, b: nat, c: nat, i: nat, j: nat)
    requires Disjoint(blocks, size) && b in blocks && c in blocks && b != c && i < blocks[b].size && j < blocks[c].size
    ensures b + i != c + j
  {
  }

  /** A word inside a block that is on no list can be overwritten: no list notices. This is why live
      blocks may be written freely by their owners. */
  lemma WriteInside(s: State, b: nat, i: nat, v: u64)
    requires Core(s) && b in s.blocks && i < s.blocks[b].size && !s.blocks[b].place.Retired? && !s.blocks[b].place.Free?
    ensures Core(s.(mem := s.mem[b + i := v]))
  {
    hide AllWellPlaced, Chained;
    var mem' := s.mem[b + i := v];
    forall k | 0 <= k < HEAD_COUNT
      ensures Chained(mem', s.heads[k], s.free[k], 0)
    {
      forall x | x in s.free[k]
        ensures x + 0 != b + i
      {
        OtherBlock(s.blocks, s.size, b, x, i, 0);
      }
      ChainedElsewhere(s.mem, s.heads[k], s.free[k], 0, b + i, v);
    }
    forall x | x in s.retired
      ensures x + 8 != b + i && x != b + i
    {
      OtherBlock(s.blocks, s.size, b, x, i, 8);
      OtherBlock(s.blocks, s.size, b, x, i, 0);
    }
    ChainedElsewhere(s.mem, s.multi, s.retired, 8, b + i, v);
  }

  lemma HeadFits(s: State, k: nat)
    requires Core(s) && k < HEAD_COUNT
    ensures |s.heads| == |s.free| == HEAD_COUNT && s.heads[k] < U64_LIMIT && s.multi < U64_LIMIT
    ensures s.heads[k] == NIL <==> s.free[k] == []
  {
    hide AllWellPlaced;
    assert Chained(s.mem, s.heads[k], s.free[k], 0);
    if s.free[k] != [] {
      assert s.free[k][0] in s.free[k];
      BlockBounds(s.blocks, s.size, s.free[k][0]);
    }
    if s.retired != [] {
      assert s.retired[0] in s.retired;
      BlockBounds(s.blocks, s.size, s.retired[0]);
    }
  }

  // ----- the steps -----

  /** Moving a block between places that no list records. */
  lemma PutCore(s: State, b: nat, place: Place)
    requires Core(s) && b in s.blocks && WellPlaced(b, s.blocks[b].(place := place))
    requires !s.blocks[b].place.Free? && !s.blocks[b].place.Retired? && !place.Free? && !place.Retired?
    ensures Core(Put(s, b, place))
  {
    hide Chained, Serves, ClassSize, Chains, WellPlaced;
    var blocks' := Put(s, b, place).blocks;
    assert Disjoint(blocks', s.size) by { hide AllWellPlaced, FreeListed, RetiredListed, WordsMapped; }
    assert FreeListed(s.free, blocks') by { hide AllWellPlaced, Disjoint, RetiredListed, WordsMapped; }
    assert RetiredListed(s.mem, s.retired, blocks') by { hide AllWellPlaced, FreeListed, Disjoint, WordsMapped; }
  }

  /** A live block leaves its owner. */
  lemma ReleaseInv(s: State, b: nat)
    requires Inv(s) && b in s.blocks && s.blocks[b].place.Live?
    ensures InvBut(Put(s, b, Loose), b)
  {
    hide Core;
    PutCore(s, b, Loose);
  }

  /** A loose block goes to a new owner it serves. */
  lemma GrantInv(s: State, b: nat, l: Layout)
    requires InvBut(s, b) && b in s.blocks && Serves(b, s.blocks[b].size, l)
    ensures Inv(Put(s, b, Live(l)))
  {
    hide Core, Serves;
    PutCore(s, b, Live(l));
  }

  function Carve(s: State, b: nat, n: nat): State
  {
    s.(blocks := s.blocks[b := Block.Block(n, Loose)])
  }

  /** A new block beyond all others. */
  lemma CarveInv(s: State, b: nat, n: nat)
    requires Inv(s) && HEAP_MAP_OFFSET <= b && b % 16 == 0 && 16 <= n && b + n <= HEAP_MAP_OFFSET + s.size
    requires forall c | c in s.blocks :: c + s.blocks[c].size <= b
    ensures InvBut(Carve(s, b, n), b) && b !in s.blocks
  {
    hide Chained, Chains, Serves, ClassSize;
  }

  function Push(s: State, k: nat, b: nat): State
    requires b in s.blocks && k < HEAD_COUNT == |s.heads| == |s.free| && s.heads[k] < U64_LIMIT
  {
    Put(s, b, Free(k)).(mem := s.mem[b := s.heads[k]], heads := s.heads[k := b], free := s.free[k := [b] + s.free[k]])
  }

  /** A loose block goes on the list of its class. */
  lemma PushInv(s: State, k: nat, b: nat)
    requires InvBut(s, b) && b in s.blocks && k < HEAD_COUNT
    requires s.blocks[b].size == ClassSize(k) && b % ClassSize(k) == 0
    ensures |s.heads| == |s.free| == HEAD_COUNT && s.heads[k] < U64_LIMIT && Inv(Push(s, k, b))
  {
    hide Chained, Serves, ClassSize, First;
    HeadFits(s, k);
    WriteInside(s, b, 0, s.heads[k]);
    ChainedPush(s.mem, s.heads[k], s.free[k], 0, b);
    var s' := Push(s, k, b);
    PutSpace(s, b, Free(k));
    assert FreeListed(s'.free, s'.blocks) by { hide AllWellPlaced, Disjoint, RetiredListed, WordsMapped, Chains; }
    assert RetiredListed(s'.mem, s'.retired, s'.blocks) by { hide AllWellPlaced, Disjoint, FreeListed, WordsMapped, Chains; }
    assert AllWellPlaced(s'.blocks) by { hide Disjoint, FreeListed, RetiredListed, WordsMapped, Chains; }
    hide FreeListed, Disjoint, RetiredListed, AllWellPlaced;
  }

  /** Blocks occupy the same words wherever they are placed. */
  lemma PutSpace(s: State, b: nat, place: Place)
    requires b in s.blocks && Disjoint(s.blocks, s.size)
    ensures Disjoint(Put(s, b, place).blocks, s.size)
  {
  }

  function Pop(s: State, k: nat): State
    requires k < HEAD_COUNT == |s.heads| == |s.free| && s.heads[k] in s.mem && s.heads[k] in s.blocks && s.free[k] != []
  {
    Put(s, s.heads[k], Loose).(heads := s.heads[k := s.mem[s.heads[k]]], free := s.free[k := s.free[k][1..]])
  }

  /** The first block of a nonempty list comes off, aligned to and of its class size. */
  lemma PopInv(s: State, k: nat)
    requires Inv(s) && k < HEAD_COUNT && s.heads[k] != NIL
    ensures |s.heads| == |s.free| == HEAD_COUNT && s.heads[k] in s.mem && s.heads[k] in s.blocks && s.free[k] != []
    ensures InvBut(Pop(s, k), s.heads[k])
    ensures s.blocks[s.heads[k]].size == ClassSize(k) && s.heads[k] % ClassSize(k) == 0
  {
    hide Chained, Serves, ClassSize;
    HeadFits(s, k);
    var b, list := s.heads[k], s.free[k];
    ChainedPop(s.mem, b, list, 0);
    assert list == [b] + list[1..];
    assert b in list;
    assert WellPlaced(b, s.blocks[b]);
    var s' := Pop(s, k);
    PutSpace(s, b, Loose);
    assert FreeListed(s'.free, s'.blocks) by { hide AllWellPlaced, Disjoint, RetiredListed, WordsMapped, Chains; }
    hide FreeListed, Disjoint;
  }

  function Retire(s: State, b: nat, pages: u64): State
    requires b in s.blocks && s.multi < U64_LIMIT
  {
    Put(s, b, Retired).(mem := s.mem[b := pages][b + 8 := s.multi], multi := b, retired := [b] + s.retired)
  }

  /** A loose multi-page block is retired. */
  lemma RetireInv(s: State, b: nat, pages: u64)
    requires InvBut(s, b) && b in s.blocks && s.blocks[b].size > PAGE_SIZE && pages * PAGE_SIZE == s.blocks[b].size
    ensures s.multi < U64_LIMIT && Inv(Retire(s, b, pages))
  {
    hide Chained, Serves, ClassSize, Chains, Disjoint, WordsMapped, FreeListed, RetiredListed;
    HeadFits(s, 0);
    WriteInside(s, b, 0, pages);
    var s1 := s.(mem := s.mem[b := pages]);
    WriteInside(s1, b, 8, s.multi);
    assert b !in s.retired by { NotRetired(s, b); }
    ChainedPush(s1.mem, s.multi, s.retired, 8, b);
    RetiredAfter(s, b, pages);
    FreeAfter(s, b);
  }

  lemma NotRetired(s: State, b: nat)
    requires RetiredListed(s.mem, s.retired, s.blocks) && b in s.blocks && !s.blocks[b].place.Retired?
    ensures b !in s.retired
  {
  }

  lemma FreeAfter(s: State, b: nat)
    requires FreeListed(s.free, s.blocks) && b in s.blocks && s.blocks[b].place.Loose?
    requires Disjoint(s.blocks, s.size)
    ensures FreeListed(s.free, Put(s, b, Retired).blocks) && Disjoint(Put(s, b, Retired).blocks, s.size)
  {
    PutSpace(s, b, Retired);
    hide Disjoint;
  }

  lemma RetiredAfter(s: State, b: nat, pages: u64)
    requires InvBut(s, b) && b in s.blocks && pages * PAGE_SIZE == s.blocks[b].size && s.multi < U64_LIMIT
    ensures RetiredListed(s.mem[b := pages][b + 8 := s.multi], [b] + s.retired, Put(s, b, Retired).blocks)
  {
    hide Chained, Serves, ClassSize, Chains, FreeListed, AllWellPlaced;
    forall x | x in s.retired
      ensures x != b && x != b + 8
    {
      OtherBlock(s.blocks, s.size, b, x, 8, 0);
    }
  }

  /** More mapped memory, the old words unchanged. */
  lemma GrowInv(s: State, size: nat, mem: map<nat, u64>)
    requires Inv(s) && s.size <= size && WordsMapped(mem, size)
    requires forall w | w in s.mem :: w in mem && mem[w] == s.mem[w]
    ensures Inv(s.(size := size, mem := mem))
  {
    hide AllWellPlaced, Chained;
    forall k | 0 <= k < HEAD_COUNT
      ensures Chained(mem, s.heads[k], s.free[k], 0)
    {
      ChainedGrow(s.mem, mem, s.heads[k], s.free[k], 0);
    }
    ChainedGrow(s.mem, mem, s.multi, s.retired, 8);
  }

  // ----- what the owners of live blocks see -----

  ghost function LiveMap(s: State): map<nat, Layout>
  {
    map b | b in s.blocks && s.blocks[b].place.Live? :: s.blocks[b].place.layout
  }

  lemma LiveBlock(s: State, c: nat)
    requires Inv(s) && c in LiveMap(s)
    ensures c in s.blocks && s.blocks[c].size == Granted(LiveMap(s)[c]) && LiveMap(s)[c].size <= s.blocks[c].size
    ensures c % LiveMap(s)[c].align == 0
  {
    hide Granted, ClassSize, Chains, Chained, FreeListed, RetiredListed;
    assert WellPlaced(c, s.blocks[c]);
  }

  /** Live blocks are as large and aligned as asked, inside the heap, and pairwise disjoint. */
  lemma LiveBlocksServe(s: State, b: nat, c: nat)
    requires Inv(s) && b in LiveMap(s) && c in LiveMap(s) && b != c
    ensures LiveMap(s)[b].size <= Granted(LiveMap(s)[b]) && b % LiveMap(s)[b].align == 0
    ensures HEAP_MAP_OFFSET <= b && b + Granted(LiveMap(s)[b]) <= HEAP_MAP_OFFSET + s.size
    ensures b + Granted(LiveMap(s)[b]) <= c || c + Granted(LiveMap(s)[c]) <= b
  {
    hide Granted, ClassSize, Chains, Chained, FreeListed, RetiredListed;
    LiveBlock(s, b);
    LiveBlock(s, c);
  }

  /** No free block overlaps a live one. */
  lemma FreeBlocksApart(s: State, k: nat, b: nat, c: nat)
    requires Inv(s) && k < HEAD_COUNT && b in s.free[k] && c in LiveMap(s)
    ensures b + ClassSize(k) <= c || c + Granted(LiveMap(s)[c]) <= b
  {
    hide Granted, ClassSize, Chained, RetiredListed, Serves;
    LiveBlock(s, c);
    assert s.blocks[b].place == Free(k);
    assert WellPlaced(b, s.blocks[b]);
  }

  /** Every word of every live block reads as before. */
  ghost predicate ContentsKept(s: State, mem': map<nat, u64>)
  {
    forall b, w: nat | b in LiveMap(s) && b <= w < b + s.blocks[b].size && w % 8 == 0 ::
      w in s.mem && w in mem' && mem'[w] == s.mem[w]
  }

  lemma WriteKeepsContents(s: State, b: nat, i: nat, v: u64)
    requires Core(s) && b in s.blocks && i < s.blocks[b].size && !s.blocks[b].place.Live?
    ensures ContentsKept(s, s.mem[b + i := v])
  {
    hide Chained, Chains, AllWellPlaced, FreeListed, RetiredListed;
    forall c, w: nat | c in LiveMap(s) && c <= w < c + s.blocks[c].size && w % 8 == 0
      ensures w in s.mem && w != b + i
    {
      OtherBlock(s.blocks, s.size, b, c, i, w - c);
    }
  }

  lemma PutKeepsLive(s: State, b: nat, place: Place)
    requires b in s.blocks && !s.blocks[b].place.Live? && !place.Live?
    ensures LiveMap(Put(s, b, place)) == LiveMap(s)
  {
  }

  lemma SameBlocksSameLive(s: State, s': State)
    requires s'.blocks == s.blocks
    ensures LiveMap(s') == LiveMap(s)
  {
  }

  lemma PushKeepsLive(s: State, k: nat, b: nat)
    requires InvBut(s, b) && b in s.blocks && k < HEAD_COUNT == |s.heads| == |s.free| && s.heads[k] < U64_LIMIT
    ensures LiveMap(Push(s, k, b)) == LiveMap(s) && ContentsKept(s, Push(s, k, b).mem)
  {
    assert 16 <= s.blocks[b].size;
    hide Core, LiveMap, ContentsKept;
    WriteKeepsContents(s, b, 0, s.heads[k]);
    PutKeepsLive(s, b, Place.Free(k));
    SameBlocksSameLive(Put(s, b, Place.Free(k)), Push(s, k, b));
  }

  lemma GrowKeeps(s: State, size: nat, mem: map<nat, u64>)
    requires Inv(s) && forall w | w in s.mem :: w in mem && mem[w] == s.mem[w]
    ensures LiveMap(s.(size := size, mem := mem)) == LiveMap(s) && ContentsKept(s, mem)
  {
    hide Chained, Chains, AllWellPlaced, FreeListed, RetiredListed;
  }

  lemma KeptTrans(s: State, s': State, mem'': map<nat, u64>)
    requires ContentsKept(s, s'.mem) && ContentsKept(s', mem'') && LiveMap(s') == LiveMap(s)
    requires forall b | b in s.blocks :: b in s'.blocks && s'.blocks[b] == s.blocks[b]
    ensures ContentsKept(s, mem'')
  {
    forall b, w: nat | b in LiveMap(s) && b <= w < b + s.blocks[b].size && w % 8 == 0
      ensures w in s.mem && w in mem'' && mem''[w] == s.mem[w]
    {
      assert b in LiveMap(s');
    }
  }

  lemma CarveKeepsLive(s: State, b: nat, n: nat)
    requires b !in s.blocks && Disjoint(s.blocks, s.size) && WordsMapped(s.mem, s.size)
    ensures LiveMap(Carve(s, b, n)) == LiveMap(s) && ContentsKept(s, s.mem)
  {
  }

  /** Sixteen-byte blocks up to whole pages: each class tiles a page. */
  lemma ClassTilesPage(k: nat)
    requires k < HEAD_COUNT
    ensures 16 <= ClassSize(k) <= PAGE_SIZE && PAGE_SIZE % ClassSize(k) == 0
  {
    ClassSizes();
    Pow2Add(k + 4, 8 - k);
    MultipleMod(Pow2(8 - k), ClassSize(k));
    Pow2Monotone(4, k + 4);
    Pow2Monotone(k + 4, 12);
  }

  lemma AddMultiples(x: nat, y: nat, c: nat)
    requires c > 0 && x % c == 0 && y % c == 0
    ensures (x + y) % c == 0
  {
    assert x + y == (x / c + y / c) * c;
    MultipleMod(x / c + y / c, c);
  }

  lemma NextMultipleFits(x: nat, t: nat, c: nat)
    requires c > 0 && x % c == 0 && t % c == 0 && x < t
    ensures x + c <= t && (x + c) % c == 0
  {
    var q, n := x / c, t / c;
    assert x == q * c && t == n * c;
    MulCancel(q, n, c);
    MulLe(q + 1, n, c);
    assert (q + 1) * c == x + c;
    MultipleMod(q + 1, c);
  }

  /** A block carved at a multiple of its size is aligned to its class and fits in the page. */
  lemma CarveStep(k: nat, page: nat, offset: nat)
    requires k < HEAD_COUNT && page % PAGE_SIZE == 0 && offset < PAGE_SIZE && offset % ClassSize(k) == 0
    ensures (page + offset) % ClassSize(k) == 0 && (page + offset) % 16 == 0
    ensures offset + ClassSize(k) <= PAGE_SIZE && (offset + ClassSize(k)) % ClassSize(k) == 0
  {
    ClassSizes();
    ClassTilesPage(k);
    Pow2Divides(k + 4, 12, page);
    AddMultiples(page, offset, ClassSize(k));
    Pow2Divides(4, k + 4, page + offset);
    NextMultipleFits(offset, PAGE_SIZE, ClassSize(k));
  }

  /** Below `end`, a page holds a free block of class k at every multiple of the class size. */
  ghost predicate Tiled(blocks: map<nat, Block>, page: nat, k: nat, end: nat)
  {
    forall o: nat | o < end && o % ClassSize(k) == 0 ::
      page + o in blocks && blocks[page + o] == Block.Block(ClassSize(k), Free(k))
  }

  // ----- handing out and taking back -----

  lemma AlignmentOfClass(k: nat, addr: nat, l: Layout)
    requires ValidLayout(l) && addr % ClassSize(k) == 0 && l.align <= ClassSize(k)
    ensures l.align > 0 && addr % l.align == 0
  {
    var a: nat :| l.align == Pow2(a);
    if a > k + 4 {
      Pow2Monotone(k + 5, a);
    } else {
      Pow2Divides(a, k + 4, addr);
    }
  }

  /** A block of the class chosen for a layout serves it. */
  lemma ClassServes(k: nat, addr: nat, l: Layout)
    requires ValidLayout(l) && l.align <= PAGE_SIZE && k < HEAD_COUNT && k == HeadIndex(l) && addr % ClassSize(k) == 0
    ensures Serves(addr, ClassSize(k), l)
  {
    hide HeadIndex, BlockSize;
    ClassOfLayout(l);
    AlignmentOfClass(k, addr, l);
  }

  /** So do whole pages, for a layout above the largest class. */
  lemma PagesServe(addr: nat, l: Layout)
    requires ValidLayout(l) && l.align <= PAGE_SIZE && HeadIndex(l) >= HEAD_COUNT && addr % PAGE_SIZE == 0
    ensures Pages(l) >= 2 && Serves(addr, Pages(l) * PAGE_SIZE, l)
  {
    hide HeadIndex, BlockSize;
    ClassOfLayout(l);
    ClassSizes();
    AlignmentOfClass(8, addr, l);
  }

  lemma GrantLive(s: State, b: nat, l: Layout)
    requires b in s.blocks && !s.blocks[b].place.Live?
    ensures b !in LiveMap(s) && LiveMap(Put(s, b, Live(l))) == LiveMap(s)[b := l]
  {
  }

  lemma ReleaseLive(s: State, b: nat)
    requires b in LiveMap(s)
    ensures LiveMap(Put(s, b, Loose)) == LiveMap(s) - {b}
  {
  }

  lemma NothingWrittenKeeps(s: State)
    requires Disjoint(s.blocks, s.size) && WordsMapped(s.mem, s.size)
    ensures ContentsKept(s, s.mem)
  {
  }

  lemma RetireKeeps(s: State, b: nat, pages: u64)
    requires InvBut(s, b) && b in s.blocks && s.blocks[b].size > PAGE_SIZE && s.multi < U64_LIMIT
    ensures LiveMap(Retire(s, b, pages)) == LiveMap(s) && ContentsKept(s, Retire(s, b, pages).mem)
  {
    hide Chained, Chains, AllWellPlaced, FreeListed, RetiredListed;
    forall c, w: nat | c in LiveMap(s) && c <= w < c + s.blocks[c].size && w % 8 == 0
      ensures w in s.mem && w != b && w != b + 8
    {
      OtherBlock(s.blocks, s.size, b, c, 0, w - c);
      OtherBlock(s.blocks, s.size, b, c, 8, w - c);
    }
    PutKeepsLive(s, b, Retired);
    SameBlocksSameLive(Put(s, b, Retired), Retire(s, b, pages));
  }
}
