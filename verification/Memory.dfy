/** Free memory as memory regions minus reservations (src/mm/memory.rs). */
module Memory {
  import opened Basics

  const SLOTS: nat := 32

  datatype Region = Region(addr: nat, size: nat)
  {
    function End(): nat
    {
      addr + size
    }
  }

  const NONE: Region := Region(0, 0)

  predicate In(x: nat, p: Region)
  {
    p.addr <= x < p.End()
  }

  ghost predicate Covered(s: seq<Region>, x: nat)
  {
    exists p | p in s :: In(x, p)
  }

  predicate Apart(p: Region, q: Region)
  {
    p.size == 0 || q.size == 0 || p.End() <= q.addr || q.End() <= p.addr
  }

  ghost predicate Disjoint(s: seq<Region>)
  {
    forall i, j | 0 <= i < j < |s| :: Apart(s[i], s[j])
  }

  ghost predicate Cross(a: seq<Region>, b: seq<Region>)
  {
    forall x, y | x in a && y in b :: Apart(x, y)
  }

  ghost predicate Clean(p: Region, rs: seq<Region>)
  {
    forall x: nat | In(x, p) :: !Covered(rs, x)
  }

  /** `region_diff`: what is left of a region in front of a reservation (or behind it), and a second piece behind. */
  function RegionDiff(m: Region, r: Region): (Region, Region)
  {
    if r.End() <= m.addr || m.End() <= r.addr then (m, NONE)
    else if r.addr <= m.addr && r.End() < m.End() then (Region(r.End(), m.size - (r.End() - m.addr)), NONE)
    else if r.addr <= m.addr then (NONE, NONE)
    else if m.End() <= r.End() then (Region(m.addr, r.addr - m.addr), NONE)
    else (Region(m.addr, r.addr - m.addr), Region(r.End(), m.End() - r.End()))
  }

  /** One region against all reservations: what stays in its slot, and the pieces split off on the way. */
  function Process(m: Region, rs: seq<Region>): (Region, seq<Region>)
    decreases |rs|
  {
    if rs == [] then (m, [])
    else
      var (head, tail) := RegionDiff(m, rs[0]);
      var (last, more) := Process(head, rs[1..]);
      (last, (if tail.size != 0 then [tail] else []) + more)
  }

  /** One round over the slots: nonzero entries are counted, and the first `skip` of them left alone. */
  function Round(ms: seq<Region>, skip: nat, rs: seq<Region>): (r: (seq<Region>, seq<Region>))
    ensures |r.0| == |ms|
    decreases |ms|
  {
    if ms == [] then ([], [])
    else if ms[0].size == 0 then
      var (rest, more) := Round(ms[1..], skip, rs);
      ([ms[0]] + rest, more)
    else if skip > 0 then
      var (rest, more) := Round(ms[1..], skip - 1, rs);
      ([ms[0]] + rest, more)
    else
      var (head, tails) := Process(ms[0], rs);
      var (rest, more) := Round(ms[1..], 0, rs);
      ([head] + rest, tails + more)
  }

  function Zeros(n: nat): seq<Region>
  {
    seq(n, _ => NONE)
  }

  /** `mem[index..32].copy_from_slice(&new[0..32 - index])`, from a zeroed array of 32. */
  function Append(ms: seq<Region>, index: nat, new_: seq<Region>): (r: seq<Region>)
    requires |ms| == SLOTS && index <= SLOTS && |new_| <= SLOTS
    ensures |r| == SLOTS
  {
    ms[..index] + (new_ + Zeros(SLOTS - |new_|))[..SLOTS - index]
  }

  /** The rounds: None when more pieces split off in one round than the scratch array holds. */
  function Rounds(ms: seq<Region>, index: nat, skip: nat, rs: seq<Region>): (r: Option<seq<Region>>)
    requires |ms| == SLOTS
    ensures r.Some? ==> |r.value| == SLOTS
    decreases if index <= SLOTS then SLOTS - index else 0
  {
    var (ms', more) := Round(ms, skip, rs);
    if |more| > SLOTS then None
    else if |more| == 0 || index >= SLOTS then Some(ms')
    else Rounds(Append(ms', index, more), index + |more|, index, rs)
  }

  function FirstEmpty(ms: seq<Region>): (k: nat)
    ensures k <= |ms|
  {
    if ms == [] || ms[0].size == 0 then 0 else 1 + FirstEmpty(ms[1..])
  }

  function NonZero(rs: seq<Region>): seq<Region>
  {
    if rs == [] then [] else (if rs[0].size != 0 then [rs[0]] else []) + NonZero(rs[1..])
  }

  function Reservations(reserved: seq<Region>, kernel: Region): seq<Region>
  {
    NonZero(reserved) + [kernel]
  }

  function Available(mem: seq<Region>, reserved: seq<Region>, kernel: Region): Option<seq<Region>>
    requires |mem| == SLOTS
  {
    Rounds(mem, FirstEmpty(mem), 0, Reservations(reserved, kernel))
  }

  // ----- the method -----

  ghost predicate FallingSizes(s: seq<Region>)
  {
    forall i, j | 0 <= i < j < |s| :: s[i].size >= s[j].size
  }

  function Insert(s: seq<Region>, p: Region): seq<Region>
  {
    if s == [] || p.size >= s[0].size then [p] + s else [s[0]] + Insert(s[1..], p)
  }

  function Sort(s: seq<Region>): seq<Region>
  {
    if s == [] then [] else Insert(Sort(s[1..]), s[0])
  }

  lemma ConsFalls(p: Region, t: seq<Region>)
    requires FallingSizes(t) && forall k | 0 <= k < |t| :: p.size >= t[k].size
    ensures FallingSizes([p] + t) && multiset([p] + t) == multiset{p} + multiset(t)
  {
  }

  lemma {:induction false} InsertSorts(s: seq<Region>, p: Region)
    requires FallingSizes(s)
    ensures FallingSizes(Insert(s, p)) && multiset(Insert(s, p)) == multiset(s) + multiset{p}
    decreases |s|
  {
    if s == [] || p.size >= s[0].size {
    } else {
      InsertSorts(s[1..], p);
      assert s == [s[0]] + s[1..];
      var t := Insert(s[1..], p);
      assert Insert(s, p) == [s[0]] + t;
      forall k | 0 <= k < |t|
        ensures s[0].size >= t[k].size
      {
        assert t[k] in multiset(t);
        if t[k] != p { assert t[k] in s[1..]; }
      }
      ConsFalls(s[0], t);
    }
  }

  lemma {:induction false} SortSorts(s: seq<Region>)
    ensures FallingSizes(Sort(s)) && multiset(Sort(s)) == multiset(s)
    decreases |s|
  {
    if s != [] {
      SortSorts(s[1..]);
      InsertSorts(Sort(s[1..]), s[0]);
      assert s == [s[0]] + s[1..];
    }
  }

  /** The inner loop of a round. */
  method TrimRegion(m: Region, reservations: seq<Region>, scratch: seq<Region>) returns (left: Region, scratch': seq<Region>)
    ensures left == Process(m, reservations).0 && scratch' == scratch + Process(m, reservations).1
  {
    left, scratch' := m, scratch;
    var k := 0;
    assert reservations[0..] == reservations;
    while k < |reservations|
      invariant k <= |reservations|
      invariant Process(left, reservations[k..]).0 == Process(m, reservations).0
      invariant scratch' + Process(left, reservations[k..]).1 == scratch + Process(m, reservations).1
    {
      var (head, tail) := RegionDiff(left, reservations[k]);
      assert reservations[k..][1..] == reservations[k + 1..];
      left := head;
      if tail.size != 0 { scratch' := scratch' + [tail]; }
      k := k + 1;
    }
  }

  /** One slot of a round: its new content, the pieces split off, and how many slots are still to be skipped. */
  function Slot(m: Region, skip: nat, rs: seq<Region>): (Region, seq<Region>, nat)
  {
    if m.size == 0 then (m, [], skip)
    else if skip > 0 then (m, [], skip - 1)
    else var (head, tails) := Process(m, rs); (head, tails, 0)
  }

  lemma RoundStep(done: seq<Region>, scratch: seq<Region>, ms: seq<Region>, i: nat, skip: nat, rs: seq<Region>)
    requires i < |ms|
    ensures var (m, tails, skip') := Slot(ms[i], skip, rs);
      && done + Round(ms[i..], skip, rs).0 == (done + [m]) + Round(ms[i + 1..], skip', rs).0
      && scratch + Round(ms[i..], skip, rs).1 == (scratch + tails) + Round(ms[i + 1..], skip', rs).1
  {
    hide Process;
    var (m, tails, skip') := Slot(ms[i], skip, rs);
    assert ms[i..][1..] == ms[i + 1..] && ms[i..][0] == ms[i];
    var (rest, more) := Round(ms[i + 1..], skip', rs);
    assert [] + more == more;
    assert Round(ms[i..], skip, rs) == ([m] + rest, tails + more);
    assert done + ([m] + rest) == (done + [m]) + rest;
    assert scratch + (tails + more) == (scratch + tails) + more;
  }

  method OneRound(ms: seq<Region>, skip: nat, reservations: seq<Region>) returns (ms': seq<Region>, scratch: seq<Region>)
    ensures (ms', scratch) == Round(ms, skip, reservations)
  {
    hide Round, Process;
    ms', scratch := [], [];
    var i, toSkip: nat := 0, skip;
    assert ms[0..] == ms && [] + Round(ms, skip, reservations).0 == Round(ms, skip, reservations).0;
    assert [] + Round(ms, skip, reservations).1 == Round(ms, skip, reservations).1;
    while i < |ms|
      invariant i <= |ms|
      invariant ms' + Round(ms[i..], toSkip, reservations).0 == Round(ms, skip, reservations).0
      invariant scratch + Round(ms[i..], toSkip, reservations).1 == Round(ms, skip, reservations).1
    {
      RoundStep(ms', scratch, ms, i, toSkip, reservations);
      var m := ms[i];
      if m.size != 0 {
        if toSkip > 0 {
          toSkip := toSkip - 1;
        } else {
          m, scratch := TrimRegion(m, reservations, scratch);
        }
      }
      assert scratch + [] == scratch;
      ms' := ms' + [m];
      i := i + 1;
    }
    RoundEnd(toSkip, reservations);
    assert ms[i..] == [] && ms' + [] == ms' && scratch + [] == scratch;
  }

  lemma RoundEnd(skip: nat, rs: seq<Region>)
    ensures Round([], skip, rs) == ([], [])
  {
  }

  method CalcAvailableMem(mem0: seq<Region>, reserved: seq<Region>, kernel: Region) returns (r: Option<seq<Region>>)
    requires |mem0| == SLOTS
    ensures r.Some? <==> Available(mem0, reserved, kernel).Some?
    ensures r.Some? ==> FallingSizes(r.value) && multiset(r.value) == multiset(Available(mem0, reserved, kernel).value)
  {
    var reservations := Reservations(reserved, kernel);
    var mem, skip: nat, index: nat := mem0, 0, FirstEmpty(mem0);
    while true
      invariant |mem| == SLOTS && Rounds(mem, index, skip, reservations) == Available(mem0, reserved, kernel)
      decreases if index <= SLOTS then SLOTS - index else 0
    {
      var scratch;
      mem, scratch := OneRound(mem, skip, reservations);
      if |scratch| > SLOTS { return None; }
      if |scratch| == 0 || index >= SLOTS { break; }
      mem := Append(mem, index, scratch);
      skip := index;
      index := index + |scratch|;
    }
    SortSorts(mem);
    r := Some(Sort(mem));
  }

  // ----- always: disjoint parts of the memory given -----

  predicate Inside(q: Region, p: Region)
  {
    q.size == 0 || (p.addr <= q.addr && q.End() <= p.End())
  }

  ghost predicate Within(s: seq<Region>, ms: seq<Region>)
  {
    forall q | q in s :: q.size == 0 || exists p | p in ms :: p.size != 0 && Inside(q, p)
  }

  ghost predicate AllInside(s: seq<Region>, p: Region)
  {
    forall q | q in s :: Inside(q, p)
  }

  lemma DisjointConcat(a: seq<Region>, b: seq<Region>)
    requires Disjoint(a) && Disjoint(b) && Cross(a, b)
    ensures Disjoint(a + b)
  {
    forall i, j | 0 <= i < j < |a + b|
      ensures Apart((a + b)[i], (a + b)[j])
    {
      if i < |a| <= j { assert a[i] in a && b[j - |a|] in b; }
    }
  }

  lemma DiffParts(m: Region, r: Region)
    ensures var (h, t) := RegionDiff(m, r); Inside(h, m) && Inside(t, m) && Apart(h, t)
    ensures var (h, t) := RegionDiff(m, r); forall x: nat :: In(x, h) || In(x, t) <==> In(x, m) && !In(x, r)
  {
  }

  lemma {:induction false} ProcessParts(m: Region, rs: seq<Region>)
    ensures var (h, ts) := Process(m, rs); Inside(h, m) && AllInside(ts, m) && Disjoint(ts) && Cross([h], ts)
    decreases |rs|
  {
    hide RegionDiff;
    if rs != [] {
      var (head, tail) := RegionDiff(m, rs[0]);
      DiffParts(m, rs[0]);
      ProcessParts(head, rs[1..]);
      var (h, ts) := Process(head, rs[1..]);
      if tail.size != 0 {
        assert Cross([tail], ts) && Apart(h, tail) by { ApartInside(head, tail, h, ts); }
        DisjointConcat([tail], ts);
      } else {
        assert [] + ts == ts;
      }
    }
  }

  lemma ApartInside(head: Region, tail: Region, h: Region, ts: seq<Region>)
    requires Apart(head, tail) && Inside(h, head) && AllInside(ts, head)
    requires head.size == 0 ==> h.size == 0 && forall q | q in ts :: q.size == 0
    ensures Cross([tail], ts) && Apart(h, tail)
  {
  }

  /** A round leaves disjoint parts of disjoint regions, in the slots and in the scratch array together. */
  lemma {:induction false} RoundParts(ms: seq<Region>, skip: nat, rs: seq<Region>)
    requires Disjoint(ms)
    ensures var (ms', more) := Round(ms, skip, rs);
      && Disjoint(ms') && Disjoint(more) && Cross(ms', more) && Within(ms', ms) && Within(more, ms)
    decreases |ms|
  {
    hide Process, Disjoint, Within, Cross;
    if ms == [] {
      EmptyParts();
    } else {
      TailDisjoint(ms);
      var (m, tails, skip') := Slot(ms[0], skip, rs);
      SlotParts(ms[0], skip, rs);
      RoundParts(ms[1..], skip', rs);
      var (rest, more) := Round(ms[1..], skip', rs);
      ConsParts(ms, m, tails, rest, more);
      assert [] + more == more;
    }
  }

  lemma EmptyParts()
    ensures Disjoint([]) && Cross([], []) && Within([], [])
  {
  }

  lemma TailDisjoint(ms: seq<Region>)
    requires Disjoint(ms) && ms != []
    ensures Disjoint(ms[1..]) && forall q | q in ms[1..] :: Apart(ms[0], q)
  {
  }

  lemma SlotParts(m: Region, skip: nat, rs: seq<Region>)
    ensures var (h, ts, _) := Slot(m, skip, rs); Inside(h, m) && AllInside(ts, m) && Disjoint(ts) && Cross([h], ts)
  {
    ProcessParts(m, rs);
  }

  /** Parts of one region and parts of the others do not meet. */
  lemma PartsApart(m: Region, ms: seq<Region>, q: Region, x: Region)
    requires Inside(q, m) && (forall p | p in ms :: Apart(m, p)) && Within([x], ms)
    ensures Apart(q, x)
  {
    assert x in [x];
    if q.size != 0 && x.size != 0 {
      var p :| p in ms && p.size != 0 && Inside(x, p);
      assert Apart(m, p);
    }
  }

  lemma ConsParts(ms: seq<Region>, m: Region, tails: seq<Region>, rest: seq<Region>, more: seq<Region>)
    requires Disjoint(ms) && ms != [] && Inside(m, ms[0]) && AllInside(tails, ms[0]) && Disjoint(tails) && Cross([m], tails)
    requires Disjoint(rest) && Disjoint(more) && Cross(rest, more) && Within(rest, ms[1..]) && Within(more, ms[1..])
    ensures Disjoint([m] + rest) && Disjoint(tails + more) && Cross([m] + rest, tails + more)
    ensures Within([m] + rest, ms) && Within(tails + more, ms)
  {
    TailDisjoint(ms);
    forall q, x | q in [m] + tails && x in rest + more
      ensures Apart(q, x) && Apart(x, q)
    {
      assert Within([x], ms[1..]);
      PartsApart(ms[0], ms[1..], q, x);
    }
    DisjointConcat([m], rest);
    DisjointConcat(tails, more);
    forall q | q in ([m] + tails) + (rest + more)
      ensures q.size == 0 || exists p | p in ms :: p.size != 0 && Inside(q, p)
    {
      if q.size != 0 {
        if q in rest + more {
          var p :| p in ms[1..] && p.size != 0 && Inside(q, p);
          assert p in ms;
        } else {
          assert ms[0] in ms && Inside(q, ms[0]);
        }
      }
    }
  }

  lemma WithinTrans(a: seq<Region>, b: seq<Region>, c: seq<Region>)
    requires Within(a, b) && Within(b, c)
    ensures Within(a, c)
  {
    forall q | q in a && q.size != 0
      ensures exists p | p in c :: p.size != 0 && Inside(q, p)
    {
      var m :| m in b && m.size != 0 && Inside(q, m);
      var p :| p in c && p.size != 0 && Inside(m, p);
      assert Inside(q, p);
    }
  }

  lemma AppendParts(ms: seq<Region>, index: nat, more: seq<Region>, all: seq<Region>)
    requires |ms| == SLOTS && index <= SLOTS && |more| <= SLOTS
    requires Disjoint(ms) && Disjoint(more) && Cross(ms, more) && Within(ms, all) && Within(more, all)
    ensures Disjoint(Append(ms, index, more)) && Within(Append(ms, index, more), all)
  {
    var added := (more + Zeros(SLOTS - |more|))[..SLOTS - index];
    forall i, j | 0 <= i < j < |added|
      ensures Apart(added[i], added[j])
    {
    }
    forall x, y | x in ms[..index] && y in added
      ensures Apart(x, y)
    {
      assert x in ms && (y in more || y == NONE);
    }
    DisjointConcat(ms[..index], added);
    forall q | q in Append(ms, index, more) && q.size != 0
      ensures exists p | p in all :: p.size != 0 && Inside(q, p)
    {
      assert q in ms || q in more;
    }
  }

  /** Whatever the reservations: what is returned are pairwise disjoint parts of the memory, as long as the memory
      regions were disjoint. */
  lemma {:induction false} RoundsParts(ms: seq<Region>, index: nat, skip: nat, rs: seq<Region>, all: seq<Region>)
    requires |ms| == SLOTS && Disjoint(ms) && Within(ms, all)
    ensures var r := Rounds(ms, index, skip, rs); r.Some? ==> Disjoint(r.value) && Within(r.value, all)
    decreases if index <= SLOTS then SLOTS - index else 0
  {
    hide Round, Disjoint, Within, Cross, Append;
    RoundParts(ms, skip, rs);
    var (ms', more) := Round(ms, skip, rs);
    WithinTrans(ms', ms, all);
    WithinTrans(more, ms, all);
    if 0 < |more| <= SLOTS && index < SLOTS {
      AppendParts(ms', index, more, all);
      RoundsParts(Append(ms', index, more), index + |more|, index, rs, all);
    }
  }

  /** Always: what is handed out are disjoint parts of the memory given. */
  lemma AvailableParts(mem: seq<Region>, reserved: seq<Region>, kernel: Region)
    requires |mem| == SLOTS && Disjoint(mem)
    ensures var r := Available(mem, reserved, kernel); r.Some? ==> Disjoint(r.value) && Within(r.value, mem)
  {
    assert Within(mem, mem) by {
      forall q | q in mem && q.size != 0
        ensures exists p | p in mem :: p.size != 0 && Inside(q, p)
      {
        assert Inside(q, q);
      }
    }
    RoundsParts(mem, FirstEmpty(mem), 0, Reservations(reserved, kernel), mem);
  }
}
