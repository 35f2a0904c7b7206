/** When what `calc_available_mem` returns is exactly memory minus reservations (src/mm/memory.rs): a condition on
    the rounds that is necessary and sufficient, and a condition on the arguments that implies it. */
module MemoryExact {
  import opened Basics
  import opened Memory

  // ----- coverage -----

  lemma {:induction false} ProcessCovers(m: Region, rs: seq<Region>, x: nat)
    ensures var (h, ts) := Process(m, rs);
      && (In(x, h) || Covered(ts, x) ==> In(x, m)) && (In(x, m) && !Covered(rs, x) ==> In(x, h) || Covered(ts, x))
      && (In(x, h) ==> !Covered(rs, x))
    decreases |rs|
  {
    hide RegionDiff;
    if rs != [] {
      var (head, tail) := RegionDiff(m, rs[0]);
      DiffParts(m, rs[0]);
      ProcessCovers(head, rs[1..], x);
      var (h, ts) := Process(head, rs[1..]);
      CoveredCons(rs[0], rs[1..], x);
      assert rs == [rs[0]] + rs[1..];
      CoveredCons(tail, ts, x);
      assert [] + ts == ts;
    }
  }

  lemma CoveredCons(p: Region, s: seq<Region>, x: nat)
    ensures Covered([p] + s, x) <==> In(x, p) || Covered(s, x)
  {
    if In(x, p) { assert p in [p] + s; }
    if Covered(s, x) {
      var q :| q in s && In(x, q);
      assert q in [p] + s;
    }
  }

  lemma {:induction false} CoveredConcat(a: seq<Region>, b: seq<Region>, x: nat)
    ensures Covered(a + b, x) <==> Covered(a, x) || Covered(b, x)
    decreases |a|
  {
    if a == [] {
      assert a + b == b;
    } else {
      assert a + b == [a[0]] + (a[1..] + b) && a == [a[0]] + a[1..];
      CoveredCons(a[0], a[1..] + b, x);
      CoveredCons(a[0], a[1..], x);
      CoveredConcat(a[1..], b, x);
    }
  }

  /** A round loses only reserved bytes, and adds none. */
  lemma {:induction false} RoundCovers(ms: seq<Region>, skip: nat, rs: seq<Region>, x: nat)
    ensures var (ms', more) := Round(ms, skip, rs);
      && (Covered(ms', x) || Covered(more, x) ==> Covered(ms, x))
      && (Covered(ms, x) && !Covered(rs, x) ==> Covered(ms', x) || Covered(more, x))
    decreases |ms|
  {
    hide Process, Covered;
    if ms != [] {
      var (m, tails, skip') := Slot(ms[0], skip, rs);
      ProcessCovers(ms[0], rs, x);
      RoundCovers(ms[1..], skip', rs, x);
      var (rest, more) := Round(ms[1..], skip', rs);
      assert ms == [ms[0]] + ms[1..];
      CoveredCons(ms[0], ms[1..], x);
      CoveredCons(m, rest, x);
      CoveredConcat(tails, more, x);
      assert [] + more == more;
      NothingCovered(x);
    }
  }

  lemma NothingCovered(x: nat)
    ensures !Covered([], x)
  {
  }

  // ----- what a round leaves alone -----

  /** How many slots in use come before slot i. */
  function Rank(ms: seq<Region>, i: nat): (r: nat)
    requires i <= |ms|
    ensures r <= i
  {
    if i == 0 then 0 else (if ms[0].size != 0 then 1 else 0) + Rank(ms[1..], i - 1)
  }

  /** A slot in use that the skip passes over. */
  predicate Skipped(ms: seq<Region>, skip: nat, i: nat)
    requires i < |ms|
  {
    ms[i].size != 0 && Rank(ms, i) < skip
  }

  /** A round leaves the skipped slots as they are and rids every other slot of its reserved bytes. */
  lemma {:induction false} RoundCleans(ms: seq<Region>, skip: nat, rs: seq<Region>, i: nat)
    requires i < |ms|
    ensures var ms' := Round(ms, skip, rs).0;
      (if Skipped(ms, skip, i) then ms'[i] == ms[i] else Clean(ms'[i], rs)) && Inside(ms'[i], ms[i])
    ensures ms[i].size == 0 ==> Round(ms, skip, rs).0[i].size == 0
    decreases |ms|
  {
    hide Process;
    SlotParts(ms[0], skip, rs);
    var (m, tails, skip') := Slot(ms[0], skip, rs);
    if i == 0 {
      if ms[0].size != 0 && skip == 0 {
        forall x: nat | In(x, m)
          ensures !Covered(rs, x)
        {
          ProcessCovers(ms[0], rs, x);
        }
      }
    } else {
      RoundCleans(ms[1..], skip', rs, i - 1);
    }
  }

  // ----- the condition on the rounds -----

  ghost predicate Reserved(q: Region, rs: seq<Region>)
  {
    forall x: nat | In(x, q) :: Covered(rs, x)
  }

  /** What does not find its way from one round to the next: slots overwritten, and pieces for which there is no slot. */
  function Dropped(ms: seq<Region>, index: nat, more: seq<Region>): seq<Region>
    requires |ms| == SLOTS
  {
    if more == [] then []
    else if index >= SLOTS then more
    else ms[index..] + more[Min(|more|, SLOTS - index)..]
  }

  ghost predicate SkipsClean(ms: seq<Region>, skip: nat, rs: seq<Region>)
  {
    forall i | 0 <= i < |ms| && Skipped(ms, skip, i) :: Clean(ms[i], rs)
  }

  ghost predicate DropsReserved(ms: seq<Region>, index: nat, more: seq<Region>, rs: seq<Region>)
    requires |ms| == SLOTS
  {
    forall q | q in Dropped(ms, index, more) :: Reserved(q, rs)
  }

  /** In every round: whatever the skip passes over holds no reserved byte, and whatever is dropped no free one. */
  ghost predicate Faultless(ms: seq<Region>, index: nat, skip: nat, rs: seq<Region>)
    requires |ms| == SLOTS
    decreases if index <= SLOTS then SLOTS - index else 0
  {
    var (ms', more) := Round(ms, skip, rs);
    && SkipsClean(ms, skip, rs) && DropsReserved(ms', index, more, rs)
    && (0 < |more| <= SLOTS && index < SLOTS ==> Faultless(Append(ms', index, more), index + |more|, index, rs))
  }

  lemma AppendCovers(ms: seq<Region>, index: nat, more: seq<Region>, x: nat)
    requires |ms| == SLOTS && index < SLOTS && 0 < |more| <= SLOTS
    ensures Covered(Append(ms, index, more), x) ==> Covered(ms, x) || Covered(more, x)
    ensures Covered(ms, x) || Covered(more, x) ==> Covered(Append(ms, index, more), x) || Covered(Dropped(ms, index, more), x)
  {
    var n := Min(|more|, SLOTS - index);
    var pad := Zeros(SLOTS - index - n);
    assert (more + Zeros(SLOTS - |more|))[..SLOTS - index] == more[..n] + pad;
    assert ms == ms[..index] + ms[index..] && more == more[..n] + more[n..];
    CoveredConcat(ms[..index], ms[index..], x);
    CoveredConcat(more[..n], more[n..], x);
    CoveredConcat(ms[..index], more[..n] + pad, x);
    CoveredConcat(more[..n], pad, x);
    CoveredConcat(ms[index..], more[n..], x);
    assert !Covered(pad, x);
  }

  lemma ReservedCovers(s: seq<Region>, rs: seq<Region>, x: nat)
    requires (forall q | q in s :: Reserved(q, rs)) && Covered(s, x)
    ensures Covered(rs, x)
  {
    var q :| q in s && In(x, q);
    assert Reserved(q, rs);
  }

  lemma AllClean(s: seq<Region>, rs: seq<Region>, x: nat)
    requires forall i | 0 <= i < |s| :: Clean(s[i], rs)
    ensures Covered(s, x) ==> !Covered(rs, x)
  {
  }

  /** The condition is enough. */
  lemma {:induction false} FaultlessExact(ms: seq<Region>, index: nat, skip: nat, rs: seq<Region>, x: nat)
    requires |ms| == SLOTS && Faultless(ms, index, skip, rs) && Rounds(ms, index, skip, rs).Some?
    ensures Covered(Rounds(ms, index, skip, rs).value, x) <==> Covered(ms, x) && !Covered(rs, x)
    decreases if index <= SLOTS then SLOTS - index else 0
  {
    hide Round, Covered, Append, Clean, Skipped, Reserved;
    var (ms', more) := Round(ms, skip, rs);
    RoundCovers(ms, skip, rs, x);
    forall i | 0 <= i < SLOTS
      ensures Clean(ms'[i], rs)
    {
      RoundCleans(ms, skip, rs, i);
    }
    AllClean(ms', rs, x);
    NothingCovered(x);
    if Covered(Dropped(ms', index, more), x) { ReservedCovers(Dropped(ms', index, more), rs, x); }
    if 0 < |more| && index < SLOTS {
      AppendCovers(ms', index, more, x);
      FaultlessExact(Append(ms', index, more), index + |more|, index, rs, x);
    }
  }

  /** From the second round on, nothing is in use beyond `index`. */
  ghost predicate Bounded(ms: seq<Region>, index: nat, skip: nat)
  {
    skip == 0 || forall i | index <= i < |ms| :: ms[i].size == 0
  }

  /** What is skipped once is skipped for ever. */
  lemma {:induction false} SkippedStays(ms: seq<Region>, index: nat, skip: nat, rs: seq<Region>, i: nat)
    requires |ms| == SLOTS && i < SLOTS && i < index && Skipped(ms, skip, i) && Rounds(ms, index, skip, rs).Some?
    ensures Rounds(ms, index, skip, rs).value[i] == ms[i]
    decreases if index <= SLOTS then SLOTS - index else 0
  {
    hide Round, Rank;
    RoundCleans(ms, skip, rs, i);
    var (ms', more) := Round(ms, skip, rs);
    if 0 < |more| && index < SLOTS {
      var next := Append(ms', index, more);
      assert next[i] == ms'[i];
      SkippedStays(next, index + |more|, index, rs, i);
    }
  }

  /** A byte that went in or came out wrongly. */
  ghost predicate Wrong(before: seq<Region>, after: seq<Region>, rs: seq<Region>, x: nat)
  {
    !(Covered(after, x) <==> Covered(before, x) && !Covered(rs, x))
  }

  lemma HalvesApart(s: seq<Region>, k: nat)
    requires Disjoint(s) && k <= |s|
    ensures Cross(s[..k], s[k..])
  {
    forall x, y | x in s[..k] && y in s[k..]
      ensures Apart(x, y)
    {
      var i :| 0 <= i < k && s[i] == x;
      var j :| k <= j < |s| && s[j] == y;
      assert Apart(s[i], s[j]);
    }
  }

  lemma ApartFrom(a: seq<Region>, q: Region, x: nat)
    requires In(x, q) && forall p | p in a :: Apart(p, q)
    ensures !Covered(a, x)
  {
  }

  /** A byte of a dropped piece is nowhere in what goes on. */
  lemma DroppedGone(ms: seq<Region>, index: nat, more: seq<Region>, q: Region, x: nat)
    requires |ms| == SLOTS && index < SLOTS && 0 < |more| <= SLOTS && Disjoint(ms) && Disjoint(more) && Cross(ms, more)
    requires q in Dropped(ms, index, more) && In(x, q)
    ensures (Covered(ms, x) || Covered(more, x)) && !Covered(Append(ms, index, more), x)
  {
    var n := Min(|more|, SLOTS - index);
    var pad := Zeros(SLOTS - index - n);
    DroppedApart(ms, index, more, q);
    hide Disjoint, Cross, Dropped;
    ApartFrom(ms[..index], q, x);
    ApartFrom(more[..n], q, x);
    assert !Covered(pad, x);
    assert (more + Zeros(SLOTS - |more|))[..SLOTS - index] == more[..n] + pad;
    AppendIs(ms, index, more, n, pad);
    hide Covered, Append;
    CoveredConcat(more[..n], pad, x);
    CoveredConcat(ms[..index], more[..n] + pad, x);
    CoveredBy(ms, more, q, x);
  }

  lemma DroppedApart(ms: seq<Region>, index: nat, more: seq<Region>, q: Region)
    requires |ms| == SLOTS && index < SLOTS && 0 < |more| <= SLOTS && Disjoint(ms) && Disjoint(more) && Cross(ms, more)
    requires q in Dropped(ms, index, more)
    ensures q in ms || q in more
    ensures forall p | p in ms[..index] || p in more[..Min(|more|, SLOTS - index)] :: Apart(p, q)
  {
    var n := Min(|more|, SLOTS - index);
    assert q in ms[index..] || q in more[n..];
    HalvesApart(ms, index);
    HalvesApart(more, n);
    hide Disjoint;
    forall p | p in ms[..index] || p in more[..n]
      ensures Apart(p, q)
    {
      if q in ms[index..] {
        assert q in ms;
        if p !in ms[..index] { assert p in more && Apart(q, p); }
      } else {
        assert q in more;
        if p in ms[..index] { assert p in ms; }
      }
    }
  }

  lemma CoveredBy(a: seq<Region>, b: seq<Region>, q: Region, x: nat)
    requires (q in a || q in b) && In(x, q)
    ensures Covered(a, x) || Covered(b, x)
  {
  }

  lemma AppendIs(ms: seq<Region>, index: nat, more: seq<Region>, n: nat, pad: seq<Region>)
    requires |ms| == SLOTS && index < SLOTS && 0 < |more| <= SLOTS && n <= |more|
    requires (more + Zeros(SLOTS - |more|))[..SLOTS - index] == more[..n] + pad
    ensures Append(ms, index, more) == ms[..index] + (more[..n] + pad)
  {
  }

  lemma {:induction false} RoundsShrink(ms: seq<Region>, index: nat, skip: nat, rs: seq<Region>, x: nat)
    requires |ms| == SLOTS && Rounds(ms, index, skip, rs).Some? && Covered(Rounds(ms, index, skip, rs).value, x)
    ensures Covered(ms, x)
    decreases if index <= SLOTS then SLOTS - index else 0
  {
    hide Round, Covered, Append;
    RoundCovers(ms, skip, rs, x);
    var (ms', more) := Round(ms, skip, rs);
    if 0 < |more| && index < SLOTS {
      RoundsShrink(Append(ms', index, more), index + |more|, index, rs, x);
      AppendCovers(ms', index, more, x);
    }
  }

  lemma AppendBounded(ms: seq<Region>, index: nat, more: seq<Region>)
    requires |ms| == SLOTS && index < SLOTS && 0 < |more| <= SLOTS
    ensures Bounded(Append(ms, index, more), index + |more|, index)
  {
  }

  /** The condition is necessary: a skipped reserved byte is handed out, a dropped free byte is lost. */
  lemma {:induction false} FaultyWrong(ms: seq<Region>, index: nat, skip: nat, rs: seq<Region>) returns (x: nat)
    requires |ms| == SLOTS && Disjoint(ms) && Bounded(ms, index, skip)
    requires !Faultless(ms, index, skip, rs) && Rounds(ms, index, skip, rs).Some?
    ensures Wrong(ms, Rounds(ms, index, skip, rs).value, rs, x)
    decreases if index <= SLOTS then SLOTS - index else 0
  {
    var (ms', more) := Round(ms, skip, rs);
    NextRound(ms, ms', more, index, skip, rs);
    hide *;
    if !SkipsClean(ms, skip, rs) {
      x := SkippedWrong(ms, index, skip, rs);
    } else if !DropsReserved(ms', index, more, rs) {
      x := DroppedWrong(ms, index, skip, rs);
    } else {
      var next := Append(ms', index, more);
      RoundParts(ms, skip, rs);
      AppendParts(ms', index, more, ms);
      AppendBounded(ms', index, more);
      x := FaultyWrong(next, index + |more|, index, rs);
      WrongLater(ms, ms', more, next, index, skip, rs, x);
    }
  }

  /** One round and the rest. */
  lemma NextRound(ms: seq<Region>, ms': seq<Region>, more: seq<Region>, index: nat, skip: nat, rs: seq<Region>)
    requires |ms| == SLOTS && Round(ms, skip, rs) == (ms', more) && Rounds(ms, index, skip, rs).Some?
    ensures |more| <= SLOTS
    ensures Faultless(ms, index, skip, rs) <==>
              && SkipsClean(ms, skip, rs) && DropsReserved(ms', index, more, rs)
              && (0 < |more| && index < SLOTS ==> Faultless(Append(ms', index, more), index + |more|, index, rs))
    ensures 0 < |more| && index < SLOTS ==> Rounds(ms, index, skip, rs) == Rounds(Append(ms', index, more), index + |more|, index, rs)
  {
  }

  /** A byte that goes wrong in a later round has gone wrong altogether. */
  lemma WrongLater(ms: seq<Region>, ms': seq<Region>, more: seq<Region>, next: seq<Region>, index: nat, skip: nat, rs: seq<Region>, x: nat)
    requires |ms| == SLOTS && Round(ms, skip, rs) == (ms', more) && 0 < |more| <= SLOTS && index < SLOTS
    requires next == Append(ms', index, more) && Rounds(next, index + |more|, index, rs).Some?
    requires Wrong(next, Rounds(next, index + |more|, index, rs).value, rs, x)
    ensures Wrong(ms, Rounds(next, index + |more|, index, rs).value, rs, x)
  {
    hide Round, Append, Covered, Rounds;
    if Covered(Rounds(next, index + |more|, index, rs).value, x) {
      RoundsShrink(next, index + |more|, index, rs, x);
    } else {
      AppendCovers(ms', index, more, x);
      RoundCovers(ms, skip, rs, x);
    }
  }

  lemma SkippedWrong(ms: seq<Region>, index: nat, skip: nat, rs: seq<Region>) returns (x: nat)
    requires |ms| == SLOTS && Bounded(ms, index, skip) && !SkipsClean(ms, skip, rs) && Rounds(ms, index, skip, rs).Some?
    ensures Wrong(ms, Rounds(ms, index, skip, rs).value, rs, x)
  {
    hide Rounds, Rank;
    var i :| 0 <= i < |ms| && Skipped(ms, skip, i) && !Clean(ms[i], rs);
    SkippedStays(ms, index, skip, rs, i);
    x :| In(x, ms[i]) && Covered(rs, x);
    assert ms[i] in Rounds(ms, index, skip, rs).value;
  }

  lemma DroppedWrong(ms: seq<Region>, index: nat, skip: nat, rs: seq<Region>) returns (x: nat)
    requires |ms| == SLOTS && Disjoint(ms) && Rounds(ms, index, skip, rs).Some?
    requires var (ms', more) := Round(ms, skip, rs); !DropsReserved(ms', index, more, rs)
    ensures Wrong(ms, Rounds(ms, index, skip, rs).value, rs, x)
  {
    var (ms', more) := Round(ms, skip, rs);
    var q :| q in Dropped(ms', index, more) && !Reserved(q, rs);
    x :| In(x, q) && !Covered(rs, x);
    RoundParts(ms, skip, rs);
    RoundCovers(ms, skip, rs, x);
    hide Round, Append, Disjoint, Within;
    if index < SLOTS {
      DroppedGone(ms', index, more, q, x);
      if Covered(Rounds(ms, index, skip, rs).value, x) { RoundsShrink(Append(ms', index, more), index + |more|, index, rs, x); }
    } else {
      forall p | p in ms'
        ensures Apart(p, q)
      {
      }
      ApartFrom(ms', q, x);
      CoveredBy(ms', more, q, x);
    }
  }

  lemma ReservationsCover(reserved: seq<Region>, kernel: Region, x: nat)
    ensures Covered(Reservations(reserved, kernel), x) <==> Covered(reserved, x) || In(x, kernel)
  {
    CoveredConcat(NonZero(reserved), [kernel], x);
    NonZeroCovers(reserved, x);
    assert Covered([kernel], x) <==> In(x, kernel) by { if In(x, kernel) { assert kernel in [kernel]; } }
  }

  lemma {:induction false} NonZeroCovers(rs: seq<Region>, x: nat)
    ensures Covered(NonZero(rs), x) <==> Covered(rs, x)
    decreases |rs|
  {
    if rs != [] {
      NonZeroCovers(rs[1..], x);
      assert rs == [rs[0]] + rs[1..];
      CoveredCons(rs[0], rs[1..], x);
      if rs[0].size != 0 { CoveredCons(rs[0], NonZero(rs[1..]), x); } else { assert [] + NonZero(rs[1..]) == NonZero(rs[1..]); }
    }
  }

  /** Exactly the bytes of memory that are neither reserved nor the kernel's. */
  ghost predicate Exact(r: seq<Region>, mem: seq<Region>, reserved: seq<Region>, kernel: Region)
  {
    forall x: nat :: Covered(r, x) <==> Covered(mem, x) && !Covered(reserved, x) && !In(x, kernel)
  }

  /** For disjoint memory regions, any reservations and any kernel: the result is exactly memory minus reservations if
      and only if no round skips a slot with a reserved byte or drops a piece with a free one. */
  lemma AvailableExactIff(mem: seq<Region>, reserved: seq<Region>, kernel: Region)
    requires |mem| == SLOTS && Disjoint(mem)
    ensures var r := Available(mem, reserved, kernel);
            r.Some? ==> (Exact(r.value, mem, reserved, kernel) <==>
                         Faultless(mem, FirstEmpty(mem), 0, Reservations(reserved, kernel)))
  {
    hide Faultless, Rounds, Disjoint, Covered;
    var rs := Reservations(reserved, kernel);
    match Available(mem, reserved, kernel)
    case None =>
    case Some(r) =>
      if Faultless(mem, FirstEmpty(mem), 0, rs) {
        forall x: nat
          ensures Covered(r, x) <==> Covered(mem, x) && !Covered(reserved, x) && !In(x, kernel)
        {
          FaultlessExact(mem, FirstEmpty(mem), 0, rs, x);
          ReservationsCover(reserved, kernel, x);
        }
      } else {
        var x := FaultyWrong(mem, FirstEmpty(mem), 0, rs);
        ReservationsCover(reserved, kernel, x);
      }
  }

  // ----- a condition on the arguments -----

  predicate Clear(q: Region, r: Region)
  {
    q.size == 0 || r.End() <= q.addr || q.End() <= r.addr
  }

  /** On some side, reservation k ends inside the region and no reservation listed before it goes on there. */
  ghost predicate OpenSide(p: Region, rs: seq<Region>, k: nat)
    requires k < |rs|
  {
    || Clear(p, rs[k])
    || (p.addr < rs[k].addr && forall i | 0 <= i < k :: rs[i].End() != rs[k].addr)
    || (rs[k].End() < p.End() && forall i | 0 <= i < k :: rs[i].addr != rs[k].End())
  }

  /** Reservations do not overlap (they may touch), and inside every memory region each has an open side. */
  ghost predicate OpenSides(ms: seq<Region>, rs: seq<Region>)
  {
    && Disjoint(rs) && (forall k | 0 <= k < |rs| - 1 :: rs[k].size != 0)
    && forall p, k: nat | p in ms && k < |rs| :: OpenSide(p, rs, k)
  }

  /** A piece of a memory region, cut along some of the first t reservations and clear of all of those. */
  ghost predicate CutFrom(q: Region, p: Region, rs: seq<Region>, t: nat)
  {
    && t <= |rs| && Inside(q, p) && (forall i | 0 <= i < t :: Clear(q, rs[i]))
    && (q.addr == p.addr || exists i | 0 <= i < t :: rs[i].End() == q.addr)
    && (q.End() == p.End() || exists i | 0 <= i < t :: rs[i].addr == q.End())
  }

  lemma EndsNotInside(rs: seq<Region>, i: nat, k: nat)
    requires Disjoint(rs) && i < k < |rs| && rs[i].size != 0
    ensures !(rs[k].addr < rs[i].End() < rs[k].End()) && !(rs[k].addr < rs[i].addr < rs[k].End())
  {
    assert Apart(rs[i], rs[k]);
  }

  /** A reservation with an open side swallows no piece. */
  lemma NotSwallowed(q: Region, p: Region, rs: seq<Region>, k: nat)
    requires q.size != 0 && k < |rs| && CutFrom(q, p, rs, k) && OpenSide(p, rs, k) && Disjoint(rs)
    requires forall i | 0 <= i < |rs| - 1 :: rs[i].size != 0
    ensures !(rs[k].addr <= q.addr && q.End() <= rs[k].End())
  {
    var r := rs[k];
    if q.addr != p.addr {
      var i :| 0 <= i < k && rs[i].End() == q.addr;
      EndsNotInside(rs, i, k);
    }
    if q.End() != p.End() {
      var i :| 0 <= i < k && rs[i].addr == q.End();
      EndsNotInside(rs, i, k);
    }
  }

  ghost predicate Piece(q: Region, p: Region, rs: seq<Region>, k: nat)
  {
    exists t: nat | k <= t :: CutFrom(q, p, rs, t)
  }

  /** Cutting by the next reservation leaves pieces, and never nothing. */
  lemma DiffPieces(m: Region, p: Region, rs: seq<Region>, k: nat)
    requires m.size != 0 && k < |rs| && Piece(m, p, rs, k) && OpenSide(p, rs, k) && Disjoint(rs)
    requires forall i | 0 <= i < |rs| - 1 :: rs[i].size != 0
    ensures var (h, t) := RegionDiff(m, rs[k]);
      h.size != 0 && Piece(h, p, rs, k + 1) && (t.size != 0 ==> Piece(t, p, rs, k + 1))
  {
    var t: nat :| k <= t && CutFrom(m, p, rs, t);
    var (h, tail) := RegionDiff(m, rs[k]);
    if k < t {
      assert h == m && tail == NONE;
      assert CutFrom(h, p, rs, t);
    } else {
      NotSwallowed(m, p, rs, k);
      CutByNext(m, p, rs, k);
    }
  }

  lemma CutByNext(m: Region, p: Region, rs: seq<Region>, k: nat)
    requires m.size != 0 && k < |rs| && CutFrom(m, p, rs, k) && !(rs[k].addr <= m.addr && m.End() <= rs[k].End())
    ensures var (h, t) := RegionDiff(m, rs[k]);
      h.size != 0 && CutFrom(h, p, rs, k + 1) && (t.size != 0 ==> CutFrom(t, p, rs, k + 1))
  {
    var (h, t) := RegionDiff(m, rs[k]);
    assert h.addr == m.addr || rs[k].End() == h.addr;
    assert h.End() == m.End() || rs[k].addr == h.End();
    if t.size != 0 { assert t.End() == m.End() && rs[k].End() == t.addr; }
  }

  lemma {:induction false} ProcessPieces(m: Region, p: Region, rs: seq<Region>, k: nat)
    requires m.size != 0 && k <= |rs| && Piece(m, p, rs, k) && Disjoint(rs)
    requires (forall i | 0 <= i < |rs| - 1 :: rs[i].size != 0) && forall i: nat | i < |rs| :: OpenSide(p, rs, i)
    ensures var (h, ts) := Process(m, rs[k..]); h.size != 0 && Piece(h, p, rs, 0) && forall q | q in ts :: Piece(q, p, rs, 0)
    decreases |rs| - k
  {
    hide RegionDiff, CutFrom, OpenSide, Disjoint;
    if k < |rs| {
      var (head, tail) := RegionDiff(m, rs[k]);
      DiffPieces(m, p, rs, k);
      assert rs[k..][1..] == rs[k + 1..];
      ProcessPieces(head, p, rs, k + 1);
    }
  }

  /** Strict nesting: only such a reservation splits a region in two. */
  predicate Splits(p: Region, r: Region)
  {
    p.addr < r.addr && r.End() < p.End()
  }

  function SplitCount(p: Region, rs: seq<Region>): nat
  {
    if rs == [] then 0 else (if Splits(p, rs[0]) then 1 else 0) + SplitCount(p, rs[1..])
  }

  lemma SplitCons(p: Region, r: Region, rs: seq<Region>)
    ensures SplitCount(p, [r] + rs) == (if Splits(p, r) then 1 else 0) + SplitCount(p, rs)
  {
    assert ([r] + rs)[1..] == rs;
  }

  function TotalSplits(ms: seq<Region>, rs: seq<Region>): nat
  {
    if ms == [] then 0 else SplitCount(ms[0], rs) + TotalSplits(ms[1..], rs)
  }

  lemma {:induction false} TotalConcat(a: seq<Region>, b: seq<Region>, rs: seq<Region>)
    ensures TotalSplits(a + b, rs) == TotalSplits(a, rs) + TotalSplits(b, rs)
    decreases |a|
  {
    hide SplitCount;
    if a == [] {
      assert a + b == b;
    } else {
      assert (a + b)[1..] == a[1..] + b;
      TotalConcat(a[1..], b, rs);
    }
  }

  lemma DiffSplitsOne(m: Region, r: Region, q: Region)
    ensures var (h, t) := RegionDiff(m, r);
      && (Splits(h, q) || Splits(t, q) ==> Splits(m, q)) && !(Splits(h, q) && Splits(t, q))
      && (t.size != 0 && q == r ==> Splits(m, q) && !Splits(h, q) && !Splits(t, q))
  {
  }

  /** The two parts of a region share its splits, and a splitting reservation is used up. */
  lemma {:induction false} DiffSplits(m: Region, r: Region, rs: seq<Region>)
    ensures var (h, t) := RegionDiff(m, r);
      SplitCount(h, rs) + SplitCount(t, rs) + (if t.size != 0 && r in rs then 1 else 0) <= SplitCount(m, rs)
    decreases |rs|
  {
    hide Splits, RegionDiff;
    if rs != [] {
      DiffSplitsOne(m, r, rs[0]);
      DiffSplits(m, r, rs[1..]);
    }
  }

  lemma EmptySplits(m: Region, rs: seq<Region>)
    requires m.size == 0
    ensures SplitCount(m, rs) == 0
  {
  }

  /** Processing spends one split of the region for each piece it cuts off. */
  lemma {:induction false} ProcessSplits(m: Region, todo: seq<Region>, rs: seq<Region>)
    requires forall q | q in todo :: q in rs
    ensures var (h, ts) := Process(m, todo); |ts| + TotalSplits(ts, rs) + SplitCount(h, rs) <= SplitCount(m, rs)
    decreases |todo|
  {
    hide RegionDiff, SplitCount;
    if todo != [] {
      var (head, tail) := RegionDiff(m, todo[0]);
      DiffSplits(m, todo[0], rs);
      ProcessSplits(head, todo[1..], rs);
      var (h, ts) := Process(head, todo[1..]);
      assert ([tail] + ts)[1..] == ts && [] + ts == ts;
    }
  }

  /** A round spends a split for each new piece. */
  lemma {:induction false} RoundSplits(ms: seq<Region>, skip: nat, rs: seq<Region>)
    ensures var (ms', more) := Round(ms, skip, rs); |more| + TotalSplits(more, rs) + TotalSplits(ms', rs) <= TotalSplits(ms, rs)
    decreases |ms|
  {
    hide Process, SplitCount;
    if ms != [] {
      ProcessSplits(ms[0], rs, rs);
      var (m, split, skip') := Slot(ms[0], skip, rs);
      RoundSplits(ms[1..], skip', rs);
      var (rest, more) := Round(ms[1..], skip', rs);
      assert ([m] + rest)[1..] == rest && [] + more == more;
      TotalConcat(split, more, rs);
    }
  }

  lemma {:induction false} ProcessTails(m: Region, rs: seq<Region>)
    ensures forall q | q in Process(m, rs).1 :: q.size != 0
    decreases |rs|
  {
    if rs != [] { ProcessTails(RegionDiff(m, rs[0]).0, rs[1..]); }
  }

  lemma {:induction false} RoundTails(ms: seq<Region>, skip: nat, rs: seq<Region>)
    ensures forall q | q in Round(ms, skip, rs).1 :: q.size != 0
    decreases |ms|
  {
    if ms != [] {
      ProcessTails(ms[0], rs);
      RoundTails(ms[1..], Slot(ms[0], skip, rs).2, rs);
    }
  }

  /** In use, and a piece of some memory region. */
  ghost predicate PieceOfAny(q: Region, mem: seq<Region>, rs: seq<Region>)
  {
    exists p | p in mem :: Piece(q, p, rs, 0)
  }

  ghost predicate AllPieces(s: seq<Region>, mem: seq<Region>, rs: seq<Region>)
  {
    forall q | q in s && q.size != 0 :: PieceOfAny(q, mem, rs)
  }

  lemma SlotPieces(m: Region, skip: nat, mem: seq<Region>, rs: seq<Region>)
    requires (m.size != 0 ==> PieceOfAny(m, mem, rs)) && OpenSides(mem, rs)
    ensures var (h, ts, _) := Slot(m, skip, rs);
      (h.size != 0 ==> PieceOfAny(h, mem, rs)) && AllPieces(ts, mem, rs) && (h.size == 0 <==> m.size == 0)
  {
    hide Process, Piece, OpenSide;
    if m.size != 0 {
      var p :| p in mem && Piece(m, p, rs, 0);
      ProcessPieces(m, p, rs, 0);
      assert rs[0..] == rs;
    }
  }

  /** A round lets no slot in use vanish. */
  lemma {:induction false} RoundPieces(ms: seq<Region>, skip: nat, mem: seq<Region>, rs: seq<Region>)
    requires AllPieces(ms, mem, rs) && OpenSides(mem, rs)
    ensures var (ms', more) := Round(ms, skip, rs);
      && AllPieces(ms', mem, rs) && AllPieces(more, mem, rs)
      && (forall i | 0 <= i < |ms| :: ms'[i].size == 0 <==> ms[i].size == 0)
    decreases |ms|
  {
    hide Process, PieceOfAny, OpenSides;
    if ms != [] {
      SlotPieces(ms[0], skip, mem, rs);
      var (m, split, skip') := Slot(ms[0], skip, rs);
      RoundPieces(ms[1..], skip', mem, rs);
      var (rest, more) := Round(ms[1..], skip', rs);
      assert [] + more == more;
      assert Round(ms, skip, rs) == ([m] + rest, split + more);
    }
  }

  ghost predicate Packed(ms: seq<Region>, k: nat)
  {
    k <= |ms| && forall i | 0 <= i < |ms| :: ms[i].size != 0 <==> i < k
  }

  lemma {:induction false} EmptyTotal(ms: seq<Region>, rs: seq<Region>)
    requires forall q | q in ms :: q.size == 0
    ensures TotalSplits(ms, rs) == 0
    decreases |ms|
  {
    if ms != [] {
      EmptySplits(ms[0], rs);
      EmptyTotal(ms[1..], rs);
    }
  }

  lemma AppendPieces(ms: seq<Region>, index: nat, more: seq<Region>, mem: seq<Region>, rs: seq<Region>)
    requires |ms| == SLOTS && index + |more| <= SLOTS && forall i | index <= i < SLOTS :: ms[i].size == 0
    requires AllPieces(ms, mem, rs) && AllPieces(more, mem, rs)
    ensures AllPieces(Append(ms, index, more), mem, rs)
    ensures TotalSplits(Append(ms, index, more), rs) == TotalSplits(ms, rs) + TotalSplits(more, rs)
  {
    hide PieceOfAny, SplitCount;
    var pad := Zeros(SLOTS - index - |more|);
    assert Append(ms, index, more) == ms[..index] + (more + pad);
    assert ms == ms[..index] + ms[index..];
    TotalConcat(ms[..index], ms[index..], rs);
    TotalConcat(ms[..index], more + pad, rs);
    TotalConcat(more, pad, rs);
    EmptyTotal(ms[index..], rs);
    EmptyTotal(pad, rs);
  }

  lemma AppendPacked(ms: seq<Region>, index: nat, more: seq<Region>)
    requires |ms| == SLOTS && index + |more| <= SLOTS
    requires (forall i | 0 <= i < index :: ms[i].size != 0) && forall q | q in more :: q.size != 0
    ensures Packed(Append(ms, index, more), index + |more|) && Append(ms, index, more)[..index] == ms[..index]
  {
    var r := Append(ms, index, more);
    forall i | 0 <= i < SLOTS
      ensures r[i].size != 0 <==> i < index + |more|
    {
      if index <= i < index + |more| { assert r[i] == more[i - index] && more[i - index] in more; }
    }
  }

  /** With open sides and a slot for every piece, the rounds are faultless. */
  lemma {:induction false} OpenRunsFaultless(ms: seq<Region>, index: nat, skip: nat, mem: seq<Region>, rs: seq<Region>)
    requires |ms| == SLOTS && Packed(ms, index) && AllPieces(ms, mem, rs) && OpenSides(mem, rs)
    requires index + TotalSplits(ms, rs) <= SLOTS && skip <= index && forall i | 0 <= i < skip :: Clean(ms[i], rs)
    ensures Faultless(ms, index, skip, rs) && Rounds(ms, index, skip, rs).Some?
    decreases if index <= SLOTS then SLOTS - index else 0
  {
    hide Round, AllPieces, OpenSides, Append, TotalSplits, Clean, Rank;
    RoundPieces(ms, skip, mem, rs);
    RoundSplits(ms, skip, rs);
    RoundTails(ms, skip, rs);
    var (ms', more) := Round(ms, skip, rs);
    forall i | 0 <= i < SLOTS
      ensures Skipped(ms, skip, i) ==> i < skip
      ensures Clean(ms'[i], rs)
    {
      RoundCleans(ms, skip, rs, i);
      if i < index { PackedRank(ms, index, i); }
    }
    if more != [] {
      AppendPieces(ms', index, more, mem, rs);
      AppendPacked(ms', index, more);
      var next := Append(ms', index, more);
      forall i | 0 <= i < index
        ensures Clean(next[i], rs)
      {
        assert next[i] == next[..index][i] == ms'[i];
      }
      OpenRunsFaultless(next, index + |more|, index, mem, rs);
      assert more[Min(|more|, SLOTS - index)..] == [];
      forall q | q in Dropped(ms', index, more)
        ensures Reserved(q, rs)
      {
        assert q in ms'[index..];
      }
    }
  }

  lemma {:induction false} PackedRank(ms: seq<Region>, index: nat, i: nat)
    requires Packed(ms, index) && i <= index
    ensures Rank(ms, i) == i
    decreases i
  {
    if i > 0 {
      assert Packed(ms[1..], index - 1);
      PackedRank(ms[1..], index - 1, i - 1);
    }
  }

  lemma {:induction false} FirstEmptyPacked(ms: seq<Region>)
    requires forall i, j | 0 <= i < j < |ms| && ms[i].size == 0 :: ms[j].size == 0
    ensures Packed(ms, FirstEmpty(ms))
    decreases |ms|
  {
    if ms != [] && ms[0].size != 0 {
      FirstEmptyPacked(ms[1..]);
      forall i | 0 <= i < |ms|
        ensures ms[i].size != 0 <==> i < FirstEmpty(ms)
      {
        if i > 0 { assert ms[i] == ms[1..][i - 1]; }
      }
    }
  }

  /** Either no reservation lies strictly inside a memory region; or memory entries come first, reservations have open
      sides, and there is a slot for every piece. */
  ghost predicate WellGiven(mem: seq<Region>, rs: seq<Region>)
  {
    || TotalSplits(mem, rs) == 0
    || (&& (forall i, j | 0 <= i < j < |mem| && mem[i].size == 0 :: mem[j].size == 0)
        && OpenSides(mem, rs) && FirstEmpty(mem) + TotalSplits(mem, rs) <= SLOTS)
  }

  /** For such arguments the rounds are faultless, so the result is exact. */
  lemma AvailableExact(mem: seq<Region>, reserved: seq<Region>, kernel: Region)
    requires |mem| == SLOTS && WellGiven(mem, Reservations(reserved, kernel))
    ensures var r := Available(mem, reserved, kernel); r.Some? && Exact(r.value, mem, reserved, kernel)
  {
    var rs := Reservations(reserved, kernel);
    var index := FirstEmpty(mem);
    if TotalSplits(mem, rs) == 0 {
      hide Round, TotalSplits;
      RoundSplits(mem, 0, rs);
    } else {
      FirstEmptyPacked(mem);
      forall q | q in mem && q.size != 0
        ensures PieceOfAny(q, mem, rs)
      {
        assert CutFrom(q, q, rs, 0);
        assert Piece(q, q, rs, 0);
      }
      OpenRunsFaultless(mem, index, 0, mem, rs);
    }
    hide Faultless, Rounds, Covered;
    forall x: nat
      ensures var r := Available(mem, reserved, kernel).value;
        Covered(r, x) <==> Covered(mem, x) && !Covered(reserved, x) && !In(x, kernel)
    {
      FaultlessExact(mem, index, 0, rs, x);
      ReservationsCover(reserved, kernel, x);
    }
  }

  /** Three reservations touching each other inside one region: the middle one has no free byte beside it, but the one
      listed after it is still there when it is taken out. */
  lemma TouchingReservations()
    ensures var mem := [Region(0, 100)] + Zeros(31);
      var reserved, kernel := [Region(10, 10), Region(20, 10), Region(30, 10)], Region(1000, 1);
      |mem| == SLOTS && Available(mem, reserved, kernel).Some? && Exact(Available(mem, reserved, kernel).value, mem, reserved, kernel)
  {
    var a, b, c, k := Region(10, 10), Region(20, 10), Region(30, 10), Region(1000, 1);
    var mem := [Region(0, 100)] + Zeros(31);
    ThreeReservations(a, b, c);
    assert Reservations([a, b, c], k) == [a, b, c, k];
    assert mem[1..] == Zeros(31) && FirstEmpty(mem) == 1;
    EmptyTotal(Zeros(31), [a, b, c, k]);
    TouchingSplits(mem[0], a, b, c, k);
    hide SplitCount, Available;
    AvailableExact(mem, [a, b, c], k);
  }

  lemma TouchingSplits(p: Region, a: Region, b: Region, c: Region, k: Region)
    requires p == Region(0, 100) && a == Region(10, 10) && b == Region(20, 10) && c == Region(30, 10) && k == Region(1000, 1)
    ensures SplitCount(p, [a, b, c, k]) == 3
  {
    assert [k] + [] == [k] && [c] + [k] == [c, k] && [b] + [c, k] == [b, c, k] && [a] + [b, c, k] == [a, b, c, k];
    SplitCons(p, k, []);
    SplitCons(p, c, [k]);
    SplitCons(p, b, [c, k]);
    SplitCons(p, a, [b, c, k]);
  }

  // ----- when the scratch array suffices -----

  lemma {:induction false} TotalPrefix(a: seq<Region>, k: nat, rs: seq<Region>)
    requires k <= |a|
    ensures TotalSplits(a[..k], rs) <= TotalSplits(a, rs)
  {
    TotalConcat(a[..k], a[k..], rs);
    assert a == a[..k] + a[k..];
  }

  lemma AppendSplits(ms: seq<Region>, index: nat, more: seq<Region>, rs: seq<Region>)
    requires |ms| == SLOTS && index <= SLOTS && |more| <= SLOTS
    ensures TotalSplits(Append(ms, index, more), rs) <= TotalSplits(ms, rs) + TotalSplits(more, rs)
  {
    hide TotalSplits;
    var pad := Zeros(SLOTS - |more|);
    TotalPrefix(ms, index, rs);
    TotalPrefix(more + pad, SLOTS - index, rs);
    TotalConcat(ms[..index], (more + pad)[..SLOTS - index], rs);
    TotalConcat(more, pad, rs);
    EmptyTotal(pad, rs);
  }

  /** The rounds never split off more pieces than the arguments have splits, so up to 32 of those never overflow. */
  lemma {:induction false} RoundsFit(ms: seq<Region>, index: nat, skip: nat, rs: seq<Region>)
    requires |ms| == SLOTS && TotalSplits(ms, rs) <= SLOTS
    ensures Rounds(ms, index, skip, rs).Some?
    decreases if index <= SLOTS then SLOTS - index else 0
  {
    hide Round, Append, TotalSplits;
    RoundSplits(ms, skip, rs);
    var (ms', more) := Round(ms, skip, rs);
    if 0 < |more| <= SLOTS && index < SLOTS {
      AppendSplits(ms', index, more, rs);
      RoundsFit(Append(ms', index, more), index + |more|, index, rs);
    }
  }

  /** Reservations that split memory regions at most 32 times in all cannot cause the index panic. */
  lemma AvailableFits(mem: seq<Region>, reserved: seq<Region>, kernel: Region)
    requires |mem| == SLOTS && TotalSplits(mem, Reservations(reserved, kernel)) <= SLOTS
    ensures Available(mem, reserved, kernel).Some?
  {
    RoundsFit(mem, FirstEmpty(mem), 0, Reservations(reserved, kernel));
  }

  /** n reservations with gaps between them, the highest first. */
  function Falling(n: nat): seq<Region>
  {
    if n == 0 then [] else [Region(20 * n, 10)] + Falling(n - 1)
  }

  lemma {:induction false} FallingNonZero(n: nat)
    ensures NonZero(Falling(n)) == Falling(n)
    decreases n
  {
    if n > 0 {
      assert Falling(n)[1..] == Falling(n - 1);
      FallingNonZero(n - 1);
    }
  }

  const LOW_KERNEL: Region := Region(5, 5)

  lemma {:induction false} FallingSplits(n: nat, size: nat)
    requires size > 20 * n + 10
    ensures SplitCount(Region(0, size), Falling(n) + [LOW_KERNEL]) == n + 1
    decreases n
  {
    var rs := Falling(n) + [LOW_KERNEL];
    if n == 0 {
      assert rs == [LOW_KERNEL] && rs[1..] == [];
    } else {
      assert rs[0] == Region(20 * n, 10) && rs[1..] == Falling(n - 1) + [LOW_KERNEL];
      FallingSplits(n - 1, size);
    }
  }

  lemma {:induction false} FallingTails(n: nat, size: nat)
    requires size > 20 * n + 10
    ensures |Process(Region(0, size), Falling(n) + [LOW_KERNEL]).1| == n + 1
    decreases n
  {
    var m, rs := Region(0, size), Falling(n) + [LOW_KERNEL];
    if n == 0 {
      assert rs == [LOW_KERNEL] && rs[1..] == [];
    } else {
      assert rs[0] == Region(20 * n, 10) && rs[1..] == Falling(n - 1) + [LOW_KERNEL];
      assert RegionDiff(m, rs[0]) == (Region(0, 20 * n), Region(20 * n + 10, size - (20 * n + 10)));
      FallingTails(n - 1, 20 * n);
    }
  }

  /** The bound is tight: n reservations listed from the highest down, above the kernel, split one region n + 1 times, and
      the call panics if and only if that exceeds 32, as it does when all 32 entries for reservations are in use. */
  lemma FallingPanics(n: nat, size: nat, mem: seq<Region>)
    requires mem == [Region(0, size)] + Zeros(SLOTS - 1) && size > 20 * n + 10
    ensures TotalSplits(mem, Reservations(Falling(n), LOW_KERNEL)) == n + 1
    ensures |mem| == SLOTS && (Available(mem, Falling(n), LOW_KERNEL) == None <==> n + 1 > SLOTS)
  {
    var rs := Reservations(Falling(n), LOW_KERNEL);
    FallingNonZero(n);
    FallingSplits(n, size);
    FallingTails(n, size);
    hide Falling, SplitCount, Process;
    assert mem[1..] == Zeros(SLOTS - 1) && mem[0] == Region(0, size);
    EmptyTotal(Zeros(SLOTS - 1), rs);
    RoundOfZeros(SLOTS - 1, 0, rs);
    assert |Round(mem, 0, rs).1| == n + 1;
    if n + 1 <= SLOTS { AvailableFits(mem, Falling(n), LOW_KERNEL); }
  }

  // ----- why a swallowed piece matters -----

  lemma {:induction false} RoundOfZeros(n: nat, skip: nat, rs: seq<Region>)
    ensures Round(Zeros(n), skip, rs) == (Zeros(n), [])
    decreases n
  {
    if n > 0 {
      assert Zeros(n)[1..] == Zeros(n - 1) && Zeros(n) == [NONE] + Zeros(n - 1);
      RoundOfZeros(n - 1, skip, rs);
    }
  }

  lemma RoundCons(m: Region, ms: seq<Region>, skip: nat, rs: seq<Region>)
    ensures var (h, ts, skip') := Slot(m, skip, rs);
      var (rest, more) := Round(ms, skip', rs);
      Round([m] + ms, skip, rs) == ([h] + rest, ts + more)
  {
    assert ([m] + ms)[1..] == ms;
    var (rest, more) := Round(ms, Slot(m, skip, rs).2, rs);
    assert [] + more == more;
  }

  lemma ProcessCons(m: Region, r: Region, rs: seq<Region>)
    ensures var (head, tail) := RegionDiff(m, r);
      var (last, more) := Process(head, rs);
      Process(m, [r] + rs) == (last, (if tail.size != 0 then [tail] else []) + more)
  {
    assert ([r] + rs)[1..] == rs;
  }

  /** Memory [0, 16) and [100, 200) with reservations [0, 16), [120, 130) and [150, 160): the first region vanishes, so the
      second round skips the piece [130, 200) unseen, and byte 150 is handed out although it is reserved. Everything
      else about these arguments is as it should be. */
  lemma SwallowedPieceShiftsTheSkip()
    ensures var mem := [Region(0, 16), Region(100, 100)] + Zeros(30);
      var reserved, kernel := [Region(0, 16), Region(120, 10), Region(150, 10)], Region(1000, 1);
      var r := Available(mem, reserved, kernel);
      && |mem| == SLOTS && Disjoint(mem) && r.Some? && Covered(r.value, 150) && Covered(reserved, 150)
  {
    var a, b, c, k := Region(0, 16), Region(120, 10), Region(150, 10), Region(1000, 1);
    var mem := [Region(0, 16), Region(100, 100)] + Zeros(30);
    var reserved := [a, b, c];
    var rs := Reservations(reserved, k);
    assert NonZero([a, b, c]) == [a, b, c] by { ThreeReservations(a, b, c); }
    assert rs == [a] + ([b] + ([c] + ([k] + [])));
    assert FirstEmpty(mem) == 2 by {
      assert mem[1..][1..] == Zeros(30);
      assert FirstEmpty(Zeros(30)) == 0;
    }
    TwoSlots(a, b, c, k);
    var mid := [NONE, Region(100, 20)] + Zeros(30);
    assert mem == [Region(0, 16)] + ([Region(100, 100)] + Zeros(30));
    assert mid == [NONE] + ([Region(100, 20)] + Zeros(30));
    assert Round(mem, 0, rs) == (mid, [Region(130, 70)]);
    var last := Append(mid, 2, [Region(130, 70)]);
    var pieces := [NONE] + ([Region(100, 20)] + ([Region(130, 70)] + Zeros(29)));
    assert last == pieces;
    SkippedRound(rs);
    assert Round(last, 2, rs) == (last, []);
    assert Rounds(last, 3, 2, rs) == Some(last);
    assert last[2] == Region(130, 70) && last[2] in last && In(150, last[2]);
    assert c in reserved && In(150, c);
  }

  lemma ThreeReservations(a: Region, b: Region, c: Region)
    requires a.size != 0 && b.size != 0 && c.size != 0
    ensures NonZero([a, b, c]) == [a, b, c]
  {
    assert [a, b, c][1..] == [b, c] && [b, c][1..] == [c] && [c][1..] == [];
    assert NonZero([c]) == [c] && NonZero([b, c]) == [b, c];
  }

  lemma TwoSlots(a: Region, b: Region, c: Region, k: Region)
    requires a == Region(0, 16) && b == Region(120, 10) && c == Region(150, 10) && k == Region(1000, 1)
    ensures Round([Region(0, 16)] + ([Region(100, 100)] + Zeros(30)), 0, [a] + ([b] + ([c] + ([k] + []))))
         == ([NONE] + ([Region(100, 20)] + Zeros(30)), [Region(130, 70)])
  {
    hide Process, Round, SplitCount;
    var rs := [a] + ([b] + ([c] + ([k] + [])));
    var m := Region(100, 100);
    ProcessPass(Region(0, 16), a, [b] + ([c] + ([k] + [])));
    NoneStaysNone(NONE, [b] + ([c] + ([k] + [])));
    SecondSlot(m, a, b, c, k);
    RoundOfZeros(30, 0, rs);
    RoundCons(m, Zeros(30), 0, rs);
    RoundCons(Region(0, 16), [m] + Zeros(30), 0, rs);
    assert [] + ([Region(130, 70)] + []) == [Region(130, 70)];
  }

  lemma ProcessNone(m: Region)
    ensures Process(m, []) == (m, [])
  {
  }

  lemma ProcessPass(m: Region, r: Region, rs: seq<Region>)
    requires RegionDiff(m, r).1.size == 0
    ensures Process(m, [r] + rs) == Process(RegionDiff(m, r).0, rs)
  {
    ProcessCons(m, r, rs);
    var more := Process(RegionDiff(m, r).0, rs).1;
    assert [] + more == more;
  }

  lemma DiffOfNone(m: Region, r: Region)
    requires m == NONE
    ensures RegionDiff(m, r) == (m, m)
  {
  }

  lemma {:induction false} NoneStaysNone(m: Region, rs: seq<Region>)
    requires m == NONE
    ensures Process(m, rs) == (m, [])
    decreases |rs|
  {
    hide RegionDiff;
    if rs != [] {
      var (head, tail) := RegionDiff(m, rs[0]);
      DiffOfNone(m, rs[0]);
      assert head == m && tail.size == 0;
      NoneStaysNone(head, rs[1..]);
      var (last, more) := Process(head, rs[1..]);
      assert last == m && more == [] && [] + more == [];
      assert Process(m, rs) == (last, [] + more);
    }
  }

  lemma SecondSlot(m: Region, a: Region, b: Region, c: Region, k: Region)
    requires m == Region(100, 100) && a == Region(0, 16) && b == Region(120, 10) && c == Region(150, 10) && k == Region(1000, 1)
    ensures Process(m, [a] + ([b] + ([c] + ([k] + [])))) == (Region(100, 20), [Region(130, 70)])
  {
    hide Process;
    var n := RegionDiff(m, b).0;
    ProcessNone(n);
    ProcessPass(n, k, []);
    ProcessPass(n, c, [k] + []);
    ProcessCons(m, b, [c] + ([k] + []));
    ProcessPass(m, a, [b] + ([c] + ([k] + [])));
    assert [Region(130, 70)] + [] == [Region(130, 70)];
  }

  lemma SkippedRound(rs: seq<Region>)
    ensures var s := [NONE] + ([Region(100, 20)] + ([Region(130, 70)] + Zeros(29))); Round(s, 2, rs) == (s, [])
  {
    RoundOfZeros(29, 0, rs);
    RoundCons(Region(130, 70), Zeros(29), 1, rs);
    RoundCons(Region(100, 20), [Region(130, 70)] + Zeros(29), 2, rs);
    RoundCons(NONE, [Region(100, 20)] + ([Region(130, 70)] + Zeros(29)), 2, rs);
  }
}
