/** The one-time cell (src/kernel/sync/once_lock.rs): any number of threads calling `set` and `get`, one atomic access
    at a time. */
module OnceLock {
  import opened Basics

  const UNINITIALIZED: nat := 0
  const INITIALIZING: nat := 1
  const INITIALIZED: nat := 2

  /** Where a thread is between two atomic accesses: outside; in the loop of `set` with the status it last saw; having
      won the exchange and not yet written; having written and not yet published; in `get`, about to read. */
  datatype At<V> = Outside | SetLoop(value: V, seen: nat) | SetWrite(value: V) | SetPublish(value: V) | GetRead

  /** What calls have returned, in the order of their last accesses. */
  datatype Return<V> = SetOk(thread: nat, value: V) | SetErr(thread: nat, value: V) | GotSome(thread: nat, value: V) | GotNone(thread: nat)

  datatype Cell<V> = Cell(status: nat, data: Option<V>, threads: map<nat, At<V>>, log: seq<Return<V>>)

  datatype Step<V> = BeginSet(thread: nat, value: V) | BeginGet(thread: nat) | Continue(thread: nat)

  function Where<V>(c: Cell<V>, t: nat): At<V>
  {
    if t in c.threads then c.threads[t] else Outside
  }

  function Goto<V>(c: Cell<V>, t: nat, at: At<V>): Cell<V>
  {
    c.(threads := c.threads[t := at])
  }

  function Returns<V>(c: Cell<V>, t: nat, r: Return<V>): Cell<V>
  {
    Goto(c, t, Outside).(log := c.log + [r])
  }

  /** One access of a thread inside `set` or `get`. */
  function Advance<V>(c: Cell<V>, t: nat): Cell<V>
  {
    match Where(c, t)
    case Outside => c
    case SetLoop(value, seen) =>
      if seen == INITIALIZED then Returns(c, t, SetErr(t, value))
      else if seen == INITIALIZING then Goto(c, t, SetLoop(value, c.status))
      else if c.status == UNINITIALIZED then Goto(c, t, SetWrite(value)).(status := INITIALIZING)
      else Goto(c, t, SetLoop(value, c.status))
    case SetWrite(value) => Goto(c, t, SetPublish(value)).(data := Some(value))
    case SetPublish(value) => Returns(c, t, SetOk(t, value)).(status := INITIALIZED)
    case GetRead => Returns(c, t, if c.data.Some? then GotSome(t, c.data.value) else GotNone(t))
  }

  function Apply<V>(c: Cell<V>, s: Step<V>): Cell<V>
  {
    match s
    case BeginSet(t, value) => if Where(c, t).Outside? then Goto(c, t, SetLoop(value, c.status)) else c
    case BeginGet(t) =>
      if !Where(c, t).Outside? then c
      else if c.status == INITIALIZED then Goto(c, t, GetRead)
      else Returns(c, t, GotNone(t))
    case Continue(t) => Advance(c, t)
  }

  function Run<V>(c: Cell<V>, steps: seq<Step<V>>): Cell<V>
    decreases |steps|
  {
    if steps == [] then c else Run(Apply(c, steps[0]), steps[1..])
  }

  function Fresh<V>(): Cell<V>
  {
    Cell(UNINITIALIZED, None, map[], [])
  }

  // ----- the history is that of a write-once cell -----

  /** A cell that is written whole, in one step. */
  function Replay<V(==)>(log: seq<Return<V>>): Option<Option<V>>
    decreases |log|
  {
    if log == [] then Some(None)
    else match Replay(log[..|log| - 1])
      case None => None
      case Some(cell) => ReplayOne(cell, log[|log| - 1])
  }

  /** The cell after a return, or None when a write-once cell could not return that. */
  function ReplayOne<V(==)>(cell: Option<V>, r: Return<V>): Option<Option<V>>
  {
    match r
    case SetOk(_, v) => if cell.None? then Some(Some(v)) else None
    case SetErr(_, _) => if cell.Some? then Some(cell) else None
    case GotSome(_, v) => if cell == Some(v) then Some(cell) else None
    case GotNone(_) => if cell.None? then Some(cell) else None
  }

  lemma ReplaySnoc<V>(log: seq<Return<V>>, r: Return<V>)
    ensures Replay(log + [r]) == match Replay(log)
                                 case None => None
                                 case Some(cell) => ReplayOne(cell, r)
  {
    assert (log + [r])[..|log|] == log;
  }

  predicate Holding<V>(at: At<V>)
  {
    at.SetWrite? || at.SetPublish?
  }

  /** What a thread's place says about the cell: only a holder sees it being initialised, and whoever has seen it
      initialised is right. */
  ghost predicate Fits<V>(status: nat, data: Option<V>, at: At<V>)
  {
    match at
    case Outside => true
    case SetLoop(_, seen) => seen <= INITIALIZED && (seen == INITIALIZED ==> status == INITIALIZED)
    case SetWrite(_) => status == INITIALIZING && data.None?
    case SetPublish(value) => status == INITIALIZING && data == Some(value)
    case GetRead => status == INITIALIZED
  }

  ghost predicate ThreadsFit<V(!new)>(c: Cell<V>)
  {
    forall t: nat :: Fits(c.status, c.data, Where(c, t))
  }

  ghost predicate OneHolder<V(!new)>(c: Cell<V>)
  {
    forall t: nat, u: nat | Holding(Where(c, t)) && Holding(Where(c, u)) :: t == u
  }

  ghost predicate LogFits<V>(c: Cell<V>)
  {
    Replay(c.log) == Some(if c.status == INITIALIZED then c.data else None)
  }

  ghost predicate Inv<V(!new)>(c: Cell<V>)
  {
    && c.status <= INITIALIZED && (c.status == INITIALIZED ==> c.data.Some?) && (c.status == UNINITIALIZED ==> c.data.None?)
    && LogFits(c) && ThreadsFit(c) && OneHolder(c)
  }

  /** One thread moves; the others still fit the cell as it is now. */
  lemma ThreadMoves<V(!new)>(c: Cell<V>, c': Cell<V>, t: nat, at: At<V>)
    requires OneHolder(c) && c'.threads == c.threads[t := at] && Fits(c'.status, c'.data, at)
    requires forall u: nat | u != t :: Fits(c'.status, c'.data, Where(c, u))
    requires Holding(at) ==> forall u: nat | u != t :: !Holding(Where(c, u))
    ensures ThreadsFit(c') && OneHolder(c')
  {
    hide Fits;
    forall u: nat
      ensures Where(c', u) == if u == t then at else Where(c, u)
    {
    }
  }

  /** A move that leaves the cell alone, to a place outside the initialisation. */
  lemma PlainMove<V(!new)>(c: Cell<V>, t: nat, at: At<V>)
    requires ThreadsFit(c) && OneHolder(c) && Fits(c.status, c.data, at) && !Holding(at)
    ensures ThreadsFit(Goto(c, t, at)) && OneHolder(Goto(c, t, at))
  {
    hide Fits;
    ThreadMoves(c, Goto(c, t, at), t, at);
  }

  lemma ReturnKeeps<V(!new)>(c: Cell<V>, t: nat, r: Return<V>)
    requires Inv(c) && ReplayOne(if c.status == INITIALIZED then c.data else None, r) == Replay(c.log)
    ensures Inv(Returns(c, t, r))
  {
    PlainMove(c, t, Outside);
    ReplaySnoc(c.log, r);
    hide Replay, ReplayOne, Fits, OneHolder, ThreadsFit;
    SameThreads(Goto(c, t, Outside), Returns(c, t, r));
  }

  lemma SameThreads<V(!new)>(c: Cell<V>, c': Cell<V>)
    requires c'.threads == c.threads && c'.status == c.status && c'.data == c.data && ThreadsFit(c) && OneHolder(c)
    ensures ThreadsFit(c') && OneHolder(c')
  {
    hide Fits;
    assert forall u: nat :: Where(c', u) == Where(c, u);
  }

  lemma PublishKeeps<V(!new)>(c: Cell<V>, t: nat)
    requires Inv(c) && Where(c, t).SetPublish?
    ensures Inv(Advance(c, t))
  {
    var value := Where(c, t).value;
    assert Fits(c.status, c.data, Where(c, t));
    ReplaySnoc(c.log, SetOk(t, value));
    var c' := Advance(c, t);
    forall u: nat | u != t
      ensures Fits(c'.status, c'.data, Where(c, u))
    {
      assert Fits(c.status, c.data, Where(c, u));
    }
    ThreadMoves(c, c', t, Outside);
  }

  lemma WriteKeeps<V(!new)>(c: Cell<V>, t: nat)
    requires Inv(c) && Where(c, t).SetWrite?
    ensures Inv(Advance(c, t))
  {
    hide Replay;
    assert Fits(c.status, c.data, Where(c, t));
    var c' := Advance(c, t);
    forall u: nat | u != t
      ensures Fits(c'.status, c'.data, Where(c, u)) && !Holding(Where(c, u))
    {
      assert Fits(c.status, c.data, Where(c, u));
    }
    ThreadMoves(c, c', t, SetPublish(Where(c, t).value));
  }

  lemma ExchangeKeeps<V(!new)>(c: Cell<V>, t: nat)
    requires Inv(c) && Where(c, t).SetLoop? && Where(c, t).seen == UNINITIALIZED == c.status
    ensures Inv(Advance(c, t))
  {
    hide Replay;
    var c' := Advance(c, t);
    forall u: nat | u != t
      ensures Fits(c'.status, c'.data, Where(c, u)) && !Holding(Where(c, u))
    {
      assert Fits(c.status, c.data, Where(c, u));
    }
    ThreadMoves(c, c', t, SetWrite(Where(c, t).value));
  }

  /** A step keeps all this, and a value once published is there for ever. */
  lemma StepKeepsInv<V(!new)>(c: Cell<V>, s: Step<V>)
    requires Inv(c)
    ensures Inv(Apply(c, s))
    ensures c.status == INITIALIZED ==> Apply(c, s).status == INITIALIZED && Apply(c, s).data == c.data
  {
    var t := s.thread;
    assert Fits(c.status, c.data, Where(c, t));
    hide Replay, ThreadsFit, OneHolder;
    match s
    case BeginSet(_, value) => PlainMove(c, t, SetLoop(value, c.status));
    case BeginGet(_) =>
      if c.status == INITIALIZED { PlainMove(c, t, GetRead); } else { ReturnKeeps(c, t, GotNone(t)); }
    case Continue(_) =>
      match Where(c, t)
      case Outside =>
      case SetLoop(value, seen) =>
        if seen == INITIALIZED {
          ReturnKeeps(c, t, SetErr(t, value));
        } else if seen == UNINITIALIZED && c.status == UNINITIALIZED {
          ExchangeKeeps(c, t);
        } else {
          PlainMove(c, t, SetLoop(value, c.status));
        }
      case SetWrite(_) => WriteKeeps(c, t);
      case SetPublish(_) => PublishKeeps(c, t);
      case GetRead => ReturnKeeps(c, t, GotSome(t, c.data.value));
  }

  /** For any number of threads and any interleaving, the returns are those of a write-once cell: at most one `set`
      succeeds, every value read is the one it wrote, and `set` fails only after that. */
  lemma {:induction false} Linearizable<V(!new)>(steps: seq<Step<V>>)
    ensures Inv(Run(Fresh(), steps)) && Replay(Run(Fresh(), steps).log).Some?
  {
    var c: Cell<V> := Fresh();
    assert Replay(c.log) == Some(None);
    assert Inv(c);
    RunKeepsInv(c, steps);
  }

  lemma {:induction false} RunKeepsInv<V(!new)>(c: Cell<V>, steps: seq<Step<V>>)
    requires Inv(c)
    ensures Inv(Run(c, steps))
    ensures c.status == INITIALIZED ==> Run(c, steps).status == INITIALIZED && Run(c, steps).data == c.data
    decreases |steps|
  {
    if steps != [] {
      StepKeepsInv(c, steps[0]);
      RunKeepsInv(Apply(c, steps[0]), steps[1..]);
    }
  }

  lemma {:induction false} ReplayCell<V(!new)>(log: seq<Return<V>>, k: nat)
    requires Replay(log).Some? && k <= |log|
    ensures Replay(log[..k]).Some?
    ensures Replay(log[..k]).value.Some? ==> Replay(log).value == Replay(log[..k]).value
    ensures forall i | k <= i < |log| && Replay(log[..k]).value.Some? :: !log[i].SetOk? && !log[i].GotNone?
    decreases |log|
  {
    if k < |log| {
      var n := |log| - 1;
      assert log[..n][..k] == log[..k];
      ReplayCell(log[..n], k);
      assert forall i | k <= i < n :: log[..n][i] == log[i];
    } else {
      assert log[..k] == log;
    }
  }

  /** In the log: one success at most, and nobody sees the cell empty or fails to set it on the wrong side of it. */
  lemma LogSaysWriteOnce<V(!new)>(steps: seq<Step<V>>, i: nat, j: nat)
    requires i < j < |Run(Fresh(), steps).log|
    ensures var log := Run(Fresh(), steps).log;
      && (log[i].SetOk? ==> !log[j].SetOk? && !log[j].GotNone?)
      && (log[i].SetOk? && log[j].GotSome? ==> log[j].value == log[i].value)
      && (log[j].SetOk? ==> log[i].GotNone?)
  {
    Linearizable(steps);
    WriteOnceLog(Run(Fresh(), steps).log, i, j);
  }

  lemma WriteOnceLog<V(!new)>(log: seq<Return<V>>, i: nat, j: nat)
    requires Replay(log).Some? && i < j < |log|
    ensures log[i].SetOk? ==> !log[j].SetOk? && !log[j].GotNone?
    ensures log[i].SetOk? && log[j].GotSome? ==> log[j].value == log[i].value
    ensures log[j].SetOk? ==> log[i].GotNone?
  {
    ReplayStep(log, i);
    ReplayStep(log, j);
    ReplayCell(log, i + 1);
    ReplayCell(log[..j], i + 1);
    assert log[..j][..i + 1] == log[..i + 1];
    hide Replay;
  }

  /** The cell before and after one return. */
  lemma ReplayStep<V(!new)>(log: seq<Return<V>>, k: nat)
    requires Replay(log).Some? && k < |log|
    ensures Replay(log[..k]).Some? && Replay(log[..k + 1]).Some?
    ensures Replay(log[..k + 1]) == ReplayOne(Replay(log[..k]).value, log[k])
  {
    ReplayCell(log, k);
    ReplayCell(log, k + 1);
    assert log[..k + 1] == log[..k] + [log[k]];
    ReplaySnoc(log[..k], log[k]);
  }

  // ----- calls come back -----

  /** The n steps of one thread. */
  function Own<V>(t: nat, n: nat): seq<Step<V>>
    decreases n
  {
    if n == 0 then [] else [Continue(t)] + Own(t, n - 1)
  }

  lemma OwnStep<V>(c: Cell<V>, t: nat, n: nat)
    requires n > 0
    ensures Run(c, Own(t, n)) == Run(Advance(c, t), Own(t, n - 1))
  {
    hide Advance;
    var all: seq<Step<V>> := Own(t, n);
    assert all[1..] == Own(t, n - 1);
  }

  /** A thread that is let run through `set` on a cell nobody is initialising wins if the cell is empty and fails if it
      is not; the cell holds its value or the old one. */
  lemma LoneSetReturns<V(!new)>(c: Cell<V>, t: nat, value: V)
    requires Inv(c) && Where(c, t).Outside? && c.status != INITIALIZING
    ensures var e := Run(Apply(c, BeginSet(t, value)), Own(t, 3));
      if c.status == UNINITIALIZED
      then e.log == c.log + [SetOk(t, value)] && e.status == INITIALIZED && e.data == Some(value) && Where(e, t).Outside?
      else e.log == c.log + [SetErr(t, value)] && e.status == c.status && e.data == c.data && Where(e, t).Outside?
  {
    assert c.status <= INITIALIZED;
    hide Inv, Replay;
    var c0 := Apply(c, BeginSet(t, value));
    OwnStep(c0, t, 3);
    var c1 := Advance(c0, t);
    OwnStep(c1, t, 2);
    var c2 := Advance(c1, t);
    OwnStep(c2, t, 1);
    assert Run(Advance(c2, t), Own(t, 0)) == Advance(c2, t);
  }

  /** Whoever holds the cell is done after two steps of its own, and then the value is there for everybody. */
  lemma HolderPublishes<V(!new)>(c: Cell<V>, t: nat)
    requires Inv(c) && Where(c, t).SetWrite?
    ensures var e := Run(c, Own(t, 2)); e.log == c.log + [SetOk(t, Where(c, t).value)] && e.status == INITIALIZED && e.data == Some(Where(c, t).value)
  {
    hide Inv, Replay;
    OwnStep(c, t, 2);
    var c1 := Advance(c, t);
    OwnStep(c1, t, 1);
    assert Run(Advance(c1, t), Own(t, 0)) == Advance(c1, t);
  }

  /** A `get` comes back with the value once there is one, and with nothing before. */
  lemma LoneGetReturns<V(!new)>(c: Cell<V>, t: nat)
    requires Inv(c) && Where(c, t).Outside?
    ensures var e := Run(Apply(c, BeginGet(t)), Own(t, 1));
      && e.log == c.log + [if c.status == INITIALIZED then GotSome(t, c.data.value) else GotNone(t)]
      && e.status == c.status && e.data == c.data && Where(e, t).Outside?
  {
    hide Replay;
    var c0 := Apply(c, BeginGet(t));
    OwnStep(c0, t, 1);
    assert Run(Advance(c0, t), Own(t, 0)) == Advance(c0, t);
  }
}
