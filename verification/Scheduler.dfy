/** The round-robin scheduler (src/kernel/sched.rs): queues, task states and the switch between tasks. */
module Scheduler {
  import opened Basics

  datatype TaskState = New | Ready | Running | Waiting | Terminated

  // ----- the queues as values -----

  /** Tasks are named by their ids. */
  datatype Sched = Sched(
    new_: seq<nat>, ready: seq<nat>, terminated: seq<nat>, current: nat, idle: nat,
    states: map<nat, TaskState>, nextTid: nat)

  function SetAll(states: map<nat, TaskState>, tids: seq<nat>, state: TaskState): map<nat, TaskState>
  {
    map t | t in states.Keys + (set x | x in tids) :: if t in tids then state else states[t]
  }

  /** `_prepare_new_tasks`. */
  function Prepared(s: Sched): Sched
  {
    s.(new_ := [], ready := s.ready + s.new_, states := SetAll(s.states, s.new_, Ready))
  }

  function MayContinue(s: Sched): bool
  {
    s.current in s.states && s.states[s.current] == Running
  }

  /** From the current task to the next: back of the queue for the one, the processor for the other. */
  function SwitchTo(s: Sched, next: nat, rest: seq<nat>): Sched
  {
    var again := MayContinue(s) && s.current != s.idle;
    var states := if MayContinue(s) then s.states[s.current := Ready] else s.states;
    s.(ready := if again then rest + [s.current] else rest, current := next, states := states[next := Running])
  }

  /** `schedule`. */
  function Scheduled(s: Sched): Sched
  {
    var p := Prepared(s);
    if p.ready == [] then if MayContinue(p) then p else SwitchTo(p, p.idle, [])
    else SwitchTo(p, p.ready[0], p.ready[1..])
  }

  /** The current task among the terminated. */
  function Ended(s: Sched): Sched
  {
    s.(states := s.states[s.current := Terminated], terminated := s.terminated + [s.current])
  }

  /** `exit_current`. */
  function Exited(s: Sched): Sched
  {
    Scheduled(Ended(s))
  }

  /** `add_task`: the public function creates one task too many, which only uses up an id. */
  function Added(s: Sched): Sched
  {
    s.(new_ := s.new_ + [s.nextTid + 1], states := s.states[s.nextTid + 1 := New], nextTid := s.nextTid + 2)
  }

  function Initial(): Sched
  {
    Sched([], [], [], 0, 0, map[0 := New], 1)
  }

  function Started(s: Sched): Sched
  {
    s.(states := s.states[s.current := Running])
  }

  // ----- what every run keeps -----

  ghost predicate AllIn(s: seq<nat>, states: map<nat, TaskState>, state: TaskState)
  {
    forall t | t in s :: t in states && states[t] == state
  }

  /** Every task is in exactly one place, with the state of that place; idle is in no queue. */
  ghost predicate Inv(s: Sched)
  {
    && NoRepeats(s.new_) && NoRepeats(s.ready) && NoRepeats(s.terminated)
    && AllIn(s.new_, s.states, New) && AllIn(s.ready, s.states, Ready) && AllIn(s.terminated, s.states, Terminated)
    && s.current in s.states && s.states[s.current] == Running
    && s.idle in s.states && s.idle !in s.new_ && s.idle !in s.ready && s.idle !in s.terminated
    && (s.current != s.idle ==> s.states[s.idle] == Ready)
    && (forall t | t in s.states :: t < s.nextTid && (t in s.new_ || t in s.ready || t in s.terminated || t == s.current || t == s.idle))
  }

  /** Exactly one task is Running. */
  lemma OneRunning(s: Sched, t: nat)
    requires Inv(s) && t in s.states
    ensures s.states[t] == Running <==> t == s.current
  {
  }

  datatype Step = Add | Yield | Exit

  function Apply(s: Sched, step: Step): Sched
  {
    match step
    case Add => Added(s)
    case Yield => Scheduled(s)
    case Exit => Exited(s)
  }

  /** The idle task loops for ever: it never exits. */
  predicate Legal(s: Sched, step: Step)
  {
    step == Exit ==> s.current != s.idle
  }

  /** What `schedule` starts from: the current task is Running, or has just been put among the terminated. */
  ghost predicate Schedulable(s: Sched)
  {
    && NoRepeats(s.new_) && NoRepeats(s.ready) && NoRepeats(s.terminated)
    && AllIn(s.new_, s.states, New) && AllIn(s.ready, s.states, Ready) && AllIn(s.terminated, s.states, Terminated)
    && s.current in s.states && (s.states[s.current] == Running || s.current in s.terminated)
    && s.idle in s.states && s.idle !in s.new_ && s.idle !in s.ready && s.idle !in s.terminated
    && (s.current != s.idle ==> s.states[s.idle] == Ready)
    && (forall t | t in s.states :: t < s.nextTid && (t in s.new_ || t in s.ready || t in s.terminated || t == s.current || t == s.idle))
  }

  lemma PreparedSchedulable(s: Sched)
    requires Schedulable(s)
    ensures Schedulable(Prepared(s)) && MayContinue(Prepared(s)) == MayContinue(s)
    ensures Prepared(s).states.Keys == s.states.Keys
  {
    forall x | x in s.ready
      ensures x !in s.new_
    {
    }
    NoRepeatsConcat(s.ready, s.new_);
  }

  /** Switching to the idle task or to one taken out of the queue. */
  lemma SwitchKeepsInv(p: Sched, next: nat, rest: seq<nat>)
    requires Schedulable(p) && p.new_ == [] && next != p.current
    requires (p.ready == [next] + rest) || (p.ready == rest == [] && next == p.idle)
    ensures Inv(SwitchTo(p, next, rest)) && SwitchTo(p, next, rest).states.Keys == p.states.Keys
  {
    RestNoRepeats(p.ready, next, rest);
    assert p.ready != [] ==> next in p.ready;
    forall t | t in rest
      ensures t in p.ready && t != next && t != p.current
    {
      assert t in p.ready;
    }
    if MayContinue(p) && p.current != p.idle { NoRepeatsConcat(rest, [p.current]); }
  }

  lemma RestNoRepeats(all: seq<nat>, next: nat, rest: seq<nat>)
    requires NoRepeats(all) && (all == [next] + rest || all == rest)
    ensures NoRepeats(rest) && (all == [next] + rest ==> next !in rest)
  {
    if all == [next] + rest {
      assert rest == all[1..] && all[0] == next;
    }
  }

  lemma ScheduledKeepsInv(s: Sched)
    requires Schedulable(s)
    ensures Inv(Scheduled(s)) && Scheduled(s).states.Keys == s.states.Keys
  {
    PreparedSchedulable(s);
    var p := Prepared(s);
    if p.ready != [] {
      assert p.ready[0] in p.ready;
      hide Prepared, SwitchTo;
      SwitchKeepsInv(p, p.ready[0], p.ready[1..]);
    } else if !MayContinue(p) {
      SwitchKeepsInv(p, p.idle, []);
    }
  }

  lemma StepKeepsInv(s: Sched, step: Step)
    requires Inv(s) && Legal(s, step)
    ensures Inv(Apply(s, step))
    ensures Apply(s, step).states.Keys == if step == Add then s.states.Keys + {s.nextTid + 1} else s.states.Keys
    ensures Apply(s, step).idle == s.idle
  {
    match step
    case Add => AddedKeepsInv(s);
    case Yield =>
      InvSchedulable(s);
      hide Inv, Schedulable, Scheduled;
      ScheduledKeepsInv(s);
    case Exit =>
      ExitSchedulable(s);
      hide Inv, Schedulable, Scheduled;
      ScheduledKeepsInv(Ended(s));
  }

  lemma AddedKeepsInv(s: Sched)
    requires Inv(s)
    ensures Inv(Added(s)) && Added(s).states.Keys == s.states.Keys + {s.nextTid + 1}
  {
    NoRepeatsConcat(s.new_, [s.nextTid + 1]);
  }

  lemma InvSchedulable(s: Sched)
    requires Inv(s)
    ensures Schedulable(s)
  {
  }

  lemma ExitSchedulable(s: Sched)
    requires Inv(s) && s.current != s.idle
    ensures Schedulable(Ended(s)) && Ended(s).states.Keys == s.states.Keys
  {
    NoRepeatsConcat(s.terminated, [s.current]);
  }

  ghost predicate AllLegal(s: Sched, steps: seq<Step>)
    decreases |steps|
  {
    steps == [] || (Legal(s, steps[0]) && AllLegal(Apply(s, steps[0]), steps[1..]))
  }

  function Run(s: Sched, steps: seq<Step>): Sched
    decreases |steps|
  {
    if steps == [] then s else Run(Apply(s, steps[0]), steps[1..])
  }

  /** Over every run of additions, yields and exits. */
  lemma {:induction false} RunKeepsInv(s: Sched, steps: seq<Step>)
    requires Inv(s) && AllLegal(s, steps)
    ensures Inv(Run(s, steps)) && s.states.Keys <= Run(s, steps).states.Keys && Run(s, steps).idle == s.idle
    decreases |steps|
  {
    if steps != [] {
      StepKeepsInv(s, steps[0]);
      RunKeepsInv(Apply(s, steps[0]), steps[1..]);
    }
  }

  function AddTimes(s: Sched, n: nat): Sched
  {
    if n == 0 then s else Added(AddTimes(s, n - 1))
  }

  lemma {:induction false} AddedBeforeStart(n: nat)
    ensures var s := AddTimes(Initial(), n);
      Inv(Started(s)) && s.current == s.idle == 0 && |s.new_| == n && s.ready == [] && s.terminated == []
    decreases n
  {
    if n > 0 {
      AddedBeforeStart(n - 1);
      var s := AddTimes(Initial(), n - 1);
      assert s.current < s.nextTid;
      assert Started(Added(s)) == Added(Started(s));
      AddedKeepsInv(Started(s));
    }
  }

  /** A terminated task stays terminated and never runs again. */
  lemma {:induction false} TerminatedForGood(s: Sched, steps: seq<Step>, t: nat)
    requires Inv(s) && AllLegal(s, steps) && t in s.terminated
    ensures t in Run(s, steps).terminated && Run(s, steps).current != t
    decreases |steps|
  {
    if steps == [] {
    } else {
      StepKeepsInv(s, steps[0]);
      TerminatedForGood(Apply(s, steps[0]), steps[1..], t);
    }
  }

  /** A switch goes to another task, unless `schedule` returns without switching because nothing else is ready. */
  lemma SwitchesToAnother(s: Sched)
    requires Schedulable(s)
    ensures Scheduled(s).current != s.current || (Scheduled(s) == Prepared(s) && s.ready + s.new_ == [] && MayContinue(s))
  {
    PreparedSchedulable(s);
    var p := Prepared(s);
    if p.ready != [] { assert p.ready[0] in p.ready; }
  }

  /** The idle task runs after `schedule` exactly when nothing is ready and the caller cannot go on, or was idle itself. */
  lemma IdleOnlyWhenNothingReady(s: Sched)
    requires Schedulable(s)
    ensures Scheduled(s).current == s.idle <==> s.ready + s.new_ == [] && (s.current == s.idle || !MayContinue(s))
  {
    PreparedSchedulable(s);
    var p := Prepared(s);
    if p.ready != [] { assert p.ready[0] in p.ready; }
  }

  // ----- one call, in full -----

  /** A task that yields goes behind all that wait, new ones included, and the first of those runs. */
  lemma YieldRotates(s: Sched)
    requires Inv(s) && s.current != s.idle && s.ready + s.new_ != []
    ensures var q, t := s.ready + s.new_, Apply(s, Yield);
      && t.current == q[0] && t.ready == q[1..] + [s.current] && t.new_ == [] && t.terminated == s.terminated
      && t.states.Keys == s.states.Keys && t.states[s.current] == Ready && t.states[q[0]] == Running
  {
    var q := s.ready + s.new_;
    StepKeepsInv(s, Yield);
    assert q[0] in s.ready || q[0] in s.new_;
    assert Apply(s, Yield).ready == q[1..] + [s.current];
    assert s.current in q[1..] + [s.current];
  }

  /** Alone it goes on; the idle task steps aside without waiting in the queue. */
  lemma YieldAlone(s: Sched)
    requires Inv(s)
    ensures s.ready + s.new_ == [] ==> Apply(s, Yield).current == s.current && Apply(s, Yield).ready == [] && Apply(s, Yield).states == s.states
    ensures s.ready + s.new_ != [] && s.current == s.idle ==>
              var q := s.ready + s.new_; Apply(s, Yield).current == q[0] && Apply(s, Yield).ready == q[1..]
  {
  }

  /** A task that exits is terminated, waits no more, and the first in line runs, or idle. */
  lemma ExitLeaves(s: Sched)
    requires Inv(s) && s.current != s.idle
    ensures var q, t := s.ready + s.new_, Apply(s, Exit);
      && t.terminated == s.terminated + [s.current] && t.states.Keys == s.states.Keys && t.states[s.current] == Terminated
      && (if q == [] then t.current == s.idle && t.ready == [] else t.current == q[0] && t.ready == q[1..])
  {
    StepKeepsInv(s, Exit);
    assert s.current in s.terminated + [s.current];
  }

  /** Tasks are started in the order they were added. */
  lemma {:induction false} AddedInOrder(s: Sched, n: nat)
    ensures var t := AddTimes(s, n);
      && t.new_ == s.new_ + seq(n, i => s.nextTid + 1 + 2 * i) && t.nextTid == s.nextTid + 2 * n
      && t.ready == s.ready && t.current == s.current
      && Prepared(t).ready == s.ready + s.new_ + seq(n, i => s.nextTid + 1 + 2 * i)
    decreases n
  {
    if n > 0 {
      AddedInOrder(s, n - 1);
      var f := i => s.nextTid + 1 + 2 * i;
      assert seq(n, f) == seq(n - 1, f) + [s.nextTid + 1 + 2 * (n - 1)];
    }
  }

  // ----- waiting -----

  /** How often a run calls `schedule`. */
  function Calls(steps: seq<Step>): nat
  {
    if steps == [] then 0 else (if steps[0] == Add then 0 else 1) + Calls(steps[1..])
  }

  /** One call of `schedule`, by a yield or an exit, moves everybody in the queue one place forward. */
  lemma QueueMoves(s: Sched, step: Step, k: nat)
    requires k < |s.ready| && step != Add
    ensures k == 0 ==> Apply(s, step).current == s.ready[0]
    ensures k > 0 ==> k - 1 < |Apply(s, step).ready| && Apply(s, step).ready[k - 1] == s.ready[k]
  {
  }

  lemma AddKeepsReady(s: Sched)
    ensures Apply(s, Add).ready == s.ready
  {
  }

  /** The task at position k becomes current on exactly the (k+1)-th call, whatever happens in between: before that it is
      still waiting, k minus the number of calls from the front. */
  lemma {:induction false} WaitsExactly(s: Sched, steps: seq<Step>, k: nat)
    requires k < |s.ready|
    ensures var end := Run(s, steps);
      && (Calls(steps) <= k ==> k - Calls(steps) < |end.ready| && end.ready[k - Calls(steps)] == s.ready[k])
      && (Calls(steps) == k + 1 && steps[|steps| - 1] != Add ==> end.current == s.ready[k])
    decreases |steps|
  {
    hide Apply;
    if steps != [] {
      var s' := Apply(s, steps[0]);
      if steps[0] == Add {
        AddKeepsReady(s);
        WaitsExactly(s', steps[1..], k);
      } else {
        QueueMoves(s, steps[0], k);
        if k > 0 {
          WaitsExactly(s', steps[1..], k - 1);
        } else {
          NoCalls(steps[1..]);
        }
      }
    }
  }

  /** A run that ends in a call of `schedule` and makes none is empty. */
  lemma {:induction false} NoCalls(steps: seq<Step>)
    ensures Calls(steps) == 0 && steps != [] ==> steps[|steps| - 1] == Add
    decreases |steps|
  {
    if steps != [] { NoCalls(steps[1..]); }
  }

  /** A new task runs after everybody who is ready, and everybody added before it, has had a turn. */
  lemma NewTaskWaits(s: Sched, j: nat, steps: seq<Step>)
    requires j < |s.new_| && |s.ready| + j > 0
    ensures var s1 := Scheduled(s);
      Calls(steps) == |s.ready| + j && steps[|steps| - 1] != Add ==> Run(s1, steps).current == s.new_[j]
  {
    var p := Prepared(s);
    assert p.ready[|s.ready| + j] == s.new_[j];
    var k := |s.ready| + j - 1;
    assert Scheduled(s).ready[k] == s.new_[j];
    WaitsExactly(Scheduled(s), steps, k);
  }

  // ----- the scheduler, in place -----

  class Task {
    const tid: nat
    var state: TaskState

    constructor (tid: nat)
      ensures this.tid == tid && state == New
    {
      this.tid := tid;
      state := New;
    }
  }

  function Tids(tasks: seq<Task>): (r: seq<nat>)
    ensures |r| == |tasks|
    ensures forall i | 0 <= i < |tasks| :: r[i] == tasks[i].tid
  {
    seq(|tasks|, i requires 0 <= i < |tasks| => tasks[i].tid)
  }

  class RoundRobin {
    var newQueue: seq<Task>
    var readyQueue: seq<Task>
    var terminatedQueue: seq<Task>
    var currentTask: Task
    const idleTask: Task
    var nextTid: nat
    ghost var tasks: set<Task>
    ghost var states: map<nat, TaskState>

    ghost function State(): Sched
      reads this
    {
      Sched(Tids(newQueue), Tids(readyQueue), Tids(terminatedQueue), currentTask.tid, idleTask.tid, states, nextTid)
    }

    /** Every task the queues name is known, ids are unique, and the recorded states are the tasks' own. */
    ghost predicate Valid()
      reads this, tasks
    {
      && (forall t | t in newQueue + readyQueue + terminatedQueue :: t in tasks) && currentTask in tasks && idleTask in tasks
      && (forall a, b | a in tasks && b in tasks && a.tid == b.tid :: a == b)
      && (forall t | t in tasks :: t.tid in states && states[t.tid] == t.state && t.tid < nextTid)
    }

    constructor ()
      ensures Valid() && State() == Initial() && fresh(tasks)
    {
      var idle := new Task(0);
      newQueue, readyQueue, terminatedQueue := [], [], [];
      currentTask := idle;
      idleTask := idle;
      nextTid := 1;
      tasks := {idle};
      states := map[0 := New];
    }

    method SetState(t: Task, state: TaskState)
      requires Valid() && t in tasks
      modifies t`state, `states
      ensures Valid() && states == old(states)[t.tid := state] && t.state == state
      ensures forall x | x in tasks && x != t :: x.state == old(x.state)
    {
      t.state := state;
      states := states[t.tid := state];
    }

    method Start()
      requires Valid()
      modifies tasks, `states
      ensures Valid() && State() == Started(old(State()))
    {
      SetState(currentTask, Running);
    }

    method AddTask()
      requires Valid()
      modifies this
      ensures Valid() && State() == Added(old(State())) && fresh(tasks - old(tasks))
    {
      var dropped := CreateTask();
      var task := CreateTask();
      Enqueue(task);
    }

    method CreateTask() returns (task: Task)
      requires Valid()
      modifies `nextTid
      ensures Valid() && fresh(task) && task.tid == old(nextTid) && nextTid == old(nextTid) + 1 && task.state == New
    {
      task := new Task(nextTid);
      nextTid := nextTid + 1;
    }

    method Enqueue(task: Task)
      requires Valid() && task !in tasks && task.tid == nextTid - 1 && task.state == New
      requires forall t | t in tasks :: t.tid != task.tid
      modifies `newQueue, `tasks, `states
      ensures Valid() && tasks == old(tasks) + {task} && states == old(states)[task.tid := New]
      ensures newQueue == old(newQueue) + [task] && Tids(newQueue) == Tids(old(newQueue)) + [task.tid]
    {
      tasks := tasks + {task};
      states := states[task.tid := New];
      newQueue := newQueue + [task];
    }

    /** One turn of the draining loop. */
    method TakeNewTask()
      requires Valid() && newQueue != []
      modifies `newQueue, `readyQueue, `states, tasks
      ensures Valid()
      ensures newQueue == old(newQueue)[1..] && readyQueue == old(readyQueue) + [old(newQueue[0])]
      ensures states == old(states)[old(newQueue[0].tid) := Ready]
    {
      var task := newQueue[0];
      assert task in newQueue + readyQueue + terminatedQueue;
      newQueue := newQueue[1..];
      readyQueue := readyQueue + [task];
      SetState(task, Ready);
    }

    method PrepareNewTasks()
      requires Valid()
      modifies `newQueue, `readyQueue, `states, tasks
      ensures Valid() && newQueue == [] && readyQueue == old(readyQueue) + old(newQueue)
      ensures states == SetAll(old(states), Tids(old(newQueue)), Ready)
    {
      hide RoundRobin.Valid, SetAll, Tids;
      ghost var all, k := newQueue, 0;
      NothingSet(states, Ready);
      assert all[..0] == [] && Tids([]) == [];
      while newQueue != []
        invariant Valid() && k + |newQueue| == |all| && newQueue == all[k..] && readyQueue == old(readyQueue) + all[..k]
        invariant states == SetAll(old(states), Tids(all[..k]), Ready)
        decreases |newQueue|
      {
        SetAllSnoc(old(states), Tids(all[..k]), Ready, all[k].tid);
        TidsSnoc(all[..k], all[k]);
        assert all[..k + 1] == all[..k] + [all[k]] && all[k..][1..] == all[k + 1..];
        assert (old(readyQueue) + all[..k]) + [all[k]] == old(readyQueue) + all[..k + 1];
        TakeNewTask();
        k := k + 1;
      }
      assert all[..k] == all;
    }

    lemma NothingSet(m: map<nat, TaskState>, state: TaskState)
      ensures SetAll(m, [], state) == m && SetAll(m, Tids([]), state) == m
    {
    }

    lemma TidsSnoc(tasks: seq<Task>, t: Task)
      ensures Tids(tasks + [t]) == Tids(tasks) + [t.tid]
    {
    }

    lemma SetAllSnoc(m: map<nat, TaskState>, tids: seq<nat>, state: TaskState, t: nat)
      ensures SetAll(m, tids + [t], state) == SetAll(m, tids, state)[t := state]
    {
    }

    /** Puts the current task back or aside and runs `next`. */
    method SwitchToTask(next: Task, mayContinue: bool)
      requires Valid() && next in tasks && (mayContinue <==> currentTask.state == Running)
      modifies `readyQueue, `currentTask, `states, tasks
      ensures Valid() && State() == SwitchTo(old(State()), next.tid, old(State()).ready)
    {
      var current := currentTask;
      TidsSnoc(readyQueue, current);
      if mayContinue && current.tid != idleTask.tid { readyQueue := readyQueue + [current]; }
      currentTask := next;
      if mayContinue { SetState(current, Ready); }
      SetState(next, Running);
    }

    method SwitchToFirst(mayContinue: bool)
      requires Valid() && readyQueue != [] && (mayContinue <==> currentTask.state == Running)
      modifies `readyQueue, `currentTask, `states, tasks
      ensures Valid() && State() == SwitchTo(old(State()), old(State()).ready[0], old(State()).ready[1..])
    {
      ghost var p := State();
      hide SwitchTo;
      var next := readyQueue[0];
      assert next in newQueue + readyQueue + terminatedQueue;
      readyQueue := readyQueue[1..];
      assert Tids(readyQueue) == p.ready[1..];
      assert State() == p.(ready := p.ready[1..]);
      SwitchToTask(next, mayContinue);
      SwitchIgnoresReady(p, next.tid, p.ready[1..]);
    }

    method Schedule()
      requires Valid()
      modifies this, tasks
      ensures Valid() && State() == Scheduled(old(State())) && tasks == old(tasks)
    {
      TidsConcat(readyQueue, newQueue);
      PrepareNewTasks();
      ghost var p := State();
      assert p == Prepared(old(State()));
      hide SwitchTo, SetAll;
      var mayContinue := currentTask.state == Running;
      assert mayContinue == MayContinue(p);
      if readyQueue != [] {
        SwitchToFirst(mayContinue);
      } else if !mayContinue {
        assert p.ready == [];
        SwitchToTask(idleTask, mayContinue);
      }
    }

    lemma TidsConcat(a: seq<Task>, b: seq<Task>)
      ensures Tids(a + b) == Tids(a) + Tids(b)
    {
    }

    lemma SwitchIgnoresReady(p: Sched, next: nat, rest: seq<nat>)
      ensures SwitchTo(p.(ready := rest), next, rest) == SwitchTo(p, next, rest)
    {
    }

    method ExitCurrent()
      requires Valid()
      modifies this, tasks
      ensures Valid() && State() == Exited(old(State())) && tasks == old(tasks)
    {
      SetState(currentTask, Terminated);
      terminatedQueue := terminatedQueue + [currentTask];
      assert State() == Ended(old(State()));
      Schedule();
    }
  }
}
