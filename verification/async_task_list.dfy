/** A pull-based task list: `run()` takes a snapshot of the added tasks and
    dispatches them one at a time, each further step being requested with
    `next()`. A failure, given by `fail` or by the watchdog timer, is sticky
    for the rest of the run. Every GWT timer hop (dispatching a task, the
    deferred step of `next()`) becomes an entry of an explicit FIFO queue
    that the environment drains with `Tick`. */
module AsyncTaskList {
  import opened Common

  /** The `Throwable` a task can be failed with. */
  datatype Failure =
    | Caught(reason: string)      // handed to `fail`
    | TimedOut(ms: int)           // raised by the watchdog

  /** The completion timer: none, created but not scheduled (timeout <= 0),
      or scheduled. */
  datatype Watchdog = NoTimer | Unscheduled | Armed

  /** A task handed to `CommonEvents.run`: success when `outcome` is None,
      failure with `outcome.value` otherwise. */
  datatype Dispatch<T> = Dispatch(task: T, outcome: Option<Failure>)

  /** A pending one-millisecond timer. */
  datatype Deferred<T> =
    | Invoke(call: Dispatch<T>)   // the task callback itself
    | Advance                     // the continuation posted by `next()`

  /** The fields of the Java object, plus `queue` (the pending timers, in
      firing order) and `dispatched` (the dispatches of the current run). */
  datatype TaskList<T> = TaskList(
    tasks: seq<T>,
    running: seq<T>,
    task: Option<T>,
    failed: Option<Failure>,
    timer: Watchdog,
    timeout: int,
    queue: seq<Deferred<T>>,
    dispatched: seq<Dispatch<T>>)

  /** `new AsyncTaskList()` with the static default timeout. */
  function New<T(==)>(defaultTimeout: int): (r: TaskList<T>)
    ensures r.tasks == [] && r.running == [] && r.queue == [] && r.dispatched == []
    ensures r.task.None? && r.failed.None? && r.timer == NoTimer
    ensures r.timeout == defaultTimeout
  {
    TaskList([], [], None, None, NoTimer, defaultTimeout, [], [])
  }

  /** `addTask`: appends to the task list; a run in progress is unaffected. */
  function AddTask<T(==)>(l: TaskList<T>, t: T): (r: TaskList<T>)
    ensures r.tasks == l.tasks + [t]
    ensures r.(tasks := l.tasks) == l
  {
    l.(tasks := l.tasks + [t])
  }

  /** `setTimeout`: takes effect at the next `run()`. */
  function SetTimeout<T(==)>(l: TaskList<T>, ms: int): (r: TaskList<T>)
    ensures r.timeout == ms
    ensures r.(timeout := l.timeout) == l
  {
    l.(timeout := ms)
  }

  /** `onTimeout`: drops the timer and makes the timeout the failure. */
  function OnTimeout<T(==)>(l: TaskList<T>): (r: TaskList<T>)
    ensures r.timer == NoTimer && r.failed == Some(TimedOut(l.timeout))
    ensures r.(timer := l.timer, failed := l.failed) == l
  {
    l.(timer := NoTimer, failed := Some(TimedOut(l.timeout)))
  }

  /** `runNextTask`: pops the head of the snapshot and dispatches it with the
      current failure; with an empty snapshot clears `task` and the timer. */
  function RunNextTask<T(==)>(l: TaskList<T>): (r: TaskList<T>)
    ensures l.running == [] ==>
      r == l.(task := None, timer := NoTimer)
    ensures l.running != [] ==>
      var d := Dispatch(l.running[0], l.failed);
      && [l.running[0]] + r.running == l.running
      && r.task == Some(l.running[0])
      && r.dispatched == l.dispatched + [d]
      && r.queue == l.queue + [Invoke(d)]
      && r.(running := l.running, task := l.task, dispatched := l.dispatched, queue := l.queue) == l
  {
    if |l.running| > 0 then
      var d := Dispatch(l.running[0], l.failed);
      l.(running := l.running[1..], task := Some(l.running[0]),
         dispatched := l.dispatched + [d], queue := l.queue + [Invoke(d)])
    else
      l.(task := None, timer := NoTimer)
  }

  /** `run()`: resets the failure and the current task, replaces the timer
      (scheduled only for a positive timeout), snapshots the task list and
      dispatches its first task. */
  function Run<T(==)>(l: TaskList<T>): (r: TaskList<T>)
    ensures r.tasks == l.tasks && r.timeout == l.timeout
    ensures l.tasks == [] ==> r.running == [] && r.task.None? && r.dispatched == [] &&
                              r.timer == NoTimer && r.queue == l.queue
    ensures l.tasks != [] ==>
      && r.dispatched == [Dispatch(l.tasks[0], None)]
      && r.running == l.tasks[1..]
      && r.task == Some(l.tasks[0])
      && r.timer == (if l.timeout > 0 then Armed else Unscheduled)
      && r.queue == l.queue + [Invoke(Dispatch(l.tasks[0], None))]
    ensures r.failed.None?
  {
    var reset := l.(failed := None, task := None,
                    timer := if l.timeout > 0 then Armed else Unscheduled,
                    running := l.tasks, dispatched := []);
    RunNextTask(reset)
  }

  /** `next()`: posts one deferred step and dispatches nothing now. */
  function Next<T(==)>(l: TaskList<T>): (r: TaskList<T>)
    ensures r.queue == l.queue + [Advance]
    ensures r.(queue := l.queue) == l
  {
    l.(queue := l.queue + [Advance])
  }

  /** `fail(caught)`: replaces the failure (a null `caught` clears it) and
      posts one deferred step. */
  function Fail<T(==)>(l: TaskList<T>, caught: Option<Failure>): (r: TaskList<T>)
    ensures r.failed == caught
    ensures r.queue == l.queue + [Advance]
    ensures r.(failed := l.failed, queue := l.queue) == l
  {
    Next(l.(failed := caught))
  }

  /** The earliest pending timer fires. A task callback runs the task's own
      code, which is the environment's business (it answers with later
      events); the continuation of `next()` runs the next task. */
  function Tick<T(==)>(l: TaskList<T>): (r: TaskList<T>)
    requires l.queue != []
    ensures l.queue[0].Invoke? ==> r == l.(queue := l.queue[1..])
    ensures l.queue[0].Advance? ==> r == RunNextTask(l.(queue := l.queue[1..]))
  {
    var rest := l.(queue := l.queue[1..]);
    if l.queue[0].Advance? then RunNextTask(rest) else rest
  }

  // ---------------------------------------------------------------------
  // Event sequences

  /** What can happen to a task list: the calls of its owner, the task
      callbacks answering, and the two kinds of timer. */
  datatype Event<T> =
    | AddTaskEv(t: T)
    | SetTimeoutEv(ms: int)
    | RunEv
    | NextEv
    | FailEv(caught: Option<Failure>)
    | WatchdogFires          // only a scheduled watchdog fires
    | TickEv                 // the earliest one-millisecond timer fires

  /** The task list after `e`: only `addTask` changes the task list, by
      appending, and only `setTimeout` changes the timeout. */
  function Apply<T(==)>(l: TaskList<T>, e: Event<T>): (r: TaskList<T>)
    ensures e.AddTaskEv? ==> r.tasks == l.tasks + [e.t]
    ensures !e.AddTaskEv? ==> r.tasks == l.tasks
    ensures !e.SetTimeoutEv? ==> r.timeout == l.timeout
  {
    match e
    case AddTaskEv(t) => AddTask(l, t)
    case SetTimeoutEv(ms) => SetTimeout(l, ms)
    case RunEv => Run(l)
    case NextEv => Next(l)
    case FailEv(caught) => Fail(l, caught)
    case WatchdogFires => if l.timer == Armed then OnTimeout(l) else l
    case TickEv => if l.queue != [] then Tick(l) else l
  }

  /** A run of events: tasks are only ever appended to the task list. */
  function Exec<T(==)>(l: TaskList<T>, evs: seq<Event<T>>): (r: TaskList<T>)
    ensures |l.tasks| <= |r.tasks| && r.tasks[..|l.tasks|] == l.tasks
    decreases |evs|
  {
    if evs == [] then l
    else
      var l1 := Apply(l, evs[0]);
      var r := Exec(l1, evs[1..]);
      assert r.tasks[..|l.tasks|] == r.tasks[..|l1.tasks|][..|l.tasks|];
      r
  }

  /** The tasks of a sequence of dispatches. */
  function Tasks<T(==)>(ds: seq<Dispatch<T>>): (r: seq<T>)
    ensures |r| == |ds| && forall i :: 0 <= i < |ds| ==> r[i] == ds[i].task
  {
    if ds == [] then [] else [ds[0].task] + Tasks(ds[1..])
  }

  lemma TasksAppend<T>(a: seq<Dispatch<T>>, b: seq<Dispatch<T>>)
    ensures Tasks(a + b) == Tasks(a) + Tasks(b)
  {
  }

  /** The run in progress works through `snapshot` front to back: what has
      been dispatched followed by what is left is the snapshot. */
  predicate InOrder<T(==)>(l: TaskList<T>, snapshot: seq<T>)
  {
    Tasks(l.dispatched) + l.running == snapshot
  }

  /** `run()` starts an in-order walk of the task list as it stands. */
  lemma RunStartsInOrder<T>(l: TaskList<T>)
    ensures InOrder(Run(l), l.tasks)
  {
    if l.tasks != [] {
      assert Tasks(Run(l).dispatched) == [l.tasks[0]];
    }
  }

  /** Every event except `run()` keeps the walk in order, dispatches at most
      one task, and never touches an earlier dispatch. */
  lemma ApplyKeepsOrder<T>(l: TaskList<T>, e: Event<T>, snapshot: seq<T>)
    requires !e.RunEv? && InOrder(l, snapshot)
    ensures InOrder(Apply(l, e), snapshot)
    ensures var ds := Apply(l, e).dispatched;
      |l.dispatched| <= |ds| <= |l.dispatched| + 1 && ds[..|l.dispatched|] == l.dispatched
    ensures !e.TickEv? ==> Apply(l, e).dispatched == l.dispatched
  {
    var r := Apply(l, e);
    if r.dispatched != l.dispatched {
      var d := Dispatch(l.running[0], l.failed);
      assert r.dispatched == l.dispatched + [d];
      TasksAppend(l.dispatched, [d]);
      assert Tasks(r.dispatched) + r.running == Tasks(l.dispatched) + ([l.running[0]] + r.running);
    }
  }

  /** The order is kept across any sequence of events without `run()`. */
  lemma {:induction false} ExecKeepsOrder<T>(l: TaskList<T>, evs: seq<Event<T>>, snapshot: seq<T>)
    requires InOrder(l, snapshot)
    requires forall i :: 0 <= i < |evs| ==> !evs[i].RunEv?
    ensures InOrder(Exec(l, evs), snapshot)
    ensures |l.dispatched| <= |Exec(l, evs).dispatched|
    ensures Exec(l, evs).dispatched[..|l.dispatched|] == l.dispatched
    decreases |evs|
  {
    if evs != [] {
      ApplyKeepsOrder(l, evs[0], snapshot);
      var l1 := Apply(l, evs[0]);
      ExecKeepsOrder(l1, evs[1..], snapshot);
      var r := Exec(l1, evs[1..]);
      assert r.dispatched[..|l1.dispatched|] == l1.dispatched;
      assert r.dispatched[..|l.dispatched|] == r.dispatched[..|l1.dispatched|][..|l.dispatched|];
    }
  }

  /** Whatever happens after `run()` (short of another `run()`), the tasks
      dispatched so far are a prefix of the task list as it was at `run()`,
      in insertion order: later `addTask` calls do not join the run. */
  lemma DispatchedInInsertionOrder<T>(l: TaskList<T>, evs: seq<Event<T>>)
    requires forall i :: 0 <= i < |evs| ==> !evs[i].RunEv?
    ensures var ts := Tasks(Exec(Run(l), evs).dispatched);
      |ts| <= |l.tasks| && ts == l.tasks[..|ts|]
  {
    RunStartsInOrder(l);
    ExecKeepsOrder(Run(l), evs, l.tasks);
  }

  /** `run()` does not consume the task list: running it again, after the
      first run has been worked through or not, starts the same walk. */
  lemma RunIsRepeatable<T>(l: TaskList<T>, evs: seq<Event<T>>)
    requires forall i :: 0 <= i < |evs| ==> !evs[i].RunEv? && !evs[i].AddTaskEv?
    ensures var again := Run(Exec(Run(l), evs));
      again.tasks == l.tasks && again.running == Run(l).running &&
      again.dispatched == Run(l).dispatched && again.failed.None?
  {
    TasksUnchanged(Run(l), evs);
  }

  lemma {:induction false} TasksUnchanged<T>(l: TaskList<T>, evs: seq<Event<T>>)
    requires forall i :: 0 <= i < |evs| ==> !evs[i].AddTaskEv?
    ensures Exec(l, evs).tasks == l.tasks
    decreases |evs|
  {
    if evs != [] {
      TasksUnchanged(Apply(l, evs[0]), evs[1..]);
    }
  }

  // ---------------------------------------------------------------------
  // Sticky failure

  /** Events that neither restart the run nor replace the failure. */
  predicate Passive<T(==)>(e: Event<T>)
  {
    e.AddTaskEv? || e.SetTimeoutEv? || e.NextEv? || e.TickEv?
  }

  /** Once the run has failed with `f`, every further dispatch hands `f` to
      its task, until something restarts the run or replaces the failure. */
  lemma {:induction false} FailureIsSticky<T>(l: TaskList<T>, evs: seq<Event<T>>, f: Failure)
    requires l.failed == Some(f)
    requires forall i :: 0 <= i < |evs| ==> Passive(evs[i])
    ensures Exec(l, evs).failed == Some(f)
    ensures var ds := Exec(l, evs).dispatched;
      |l.dispatched| <= |ds| &&
      forall i :: |l.dispatched| <= i < |ds| ==> ds[i].outcome == Some(f)
    decreases |evs|
  {
    if evs != [] {
      var l1 := Apply(l, evs[0]);
      PassiveStepKeepsFailure(l, evs[0], f);
      FailureIsSticky(l1, evs[1..], f);
      assert Exec(l, evs) == Exec(l1, evs[1..]);
      var ds := Exec(l1, evs[1..]).dispatched;
      ExecKeepsOrder(l1, evs[1..], Tasks(l1.dispatched) + l1.running);
      forall i | |l.dispatched| <= i < |ds| ensures ds[i].outcome == Some(f) {
        if i < |l1.dispatched| {
          assert ds[i] == ds[..|l1.dispatched|][i];
        }
      }
    }
  }

  /** One passive event keeps the failure and hands it to what it
      dispatches. */
  lemma PassiveStepKeepsFailure<T>(l: TaskList<T>, e: Event<T>, f: Failure)
    requires l.failed == Some(f) && Passive(e)
    ensures var l1 := Apply(l, e);
      && l1.failed == Some(f)
      && |l.dispatched| <= |l1.dispatched| && l1.dispatched[..|l.dispatched|] == l.dispatched
      && forall i :: |l.dispatched| <= i < |l1.dispatched| ==> l1.dispatched[i].outcome == Some(f)
  {
    ApplyKeepsOrder(l, e, Tasks(l.dispatched) + l.running);
  }

  /** `fail(t)` hands `t` to every task dispatched after it in this run,
      as long as nothing restarts the run or replaces the failure. */
  lemma FailReachesRemainingTasks<T>(l: TaskList<T>, t: Failure, evs: seq<Event<T>>)
    requires forall i :: 0 <= i < |evs| ==> Passive(evs[i])
    ensures var ds := Exec(Fail(l, Some(t)), evs).dispatched;
      |l.dispatched| <= |ds| && forall i :: |l.dispatched| <= i < |ds| ==> ds[i].outcome == Some(t)
  {
    FailureIsSticky(Fail(l, Some(t)), evs, t);
  }

  /** After the watchdog fires, every later dispatch of this run receives the
      timeout failure. */
  lemma TimeoutReachesRemainingTasks<T>(l: TaskList<T>, evs: seq<Event<T>>)
    requires l.timer == Armed
    requires forall i :: 0 <= i < |evs| ==> Passive(evs[i])
    ensures var ds := Exec(Apply(l, WatchdogFires), evs).dispatched;
      |l.dispatched| <= |ds| &&
      forall i :: |l.dispatched| <= i < |ds| ==> ds[i].outcome == Some(TimedOut(l.timeout))
  {
    FailureIsSticky(OnTimeout(l), evs, TimedOut(l.timeout));
  }

  // ---------------------------------------------------------------------
  // Draining a run

  /** One step of a well-behaved task: its callback timer fires, the task
      calls `next()` from inside that callback, then the continuation fires. */
  function Cycle<T(==)>(): seq<Event<T>>
  {
    [TickEv, NextEv, TickEv]
  }

  function Repeat<T(==)>(evs: seq<Event<T>>, n: nat): (r: seq<Event<T>>)
    ensures |r| == n * |evs|
  {
    if n == 0 then [] else evs + Repeat(evs, n - 1)
  }

  lemma ExecAppend<T>(l: TaskList<T>, a: seq<Event<T>>, b: seq<Event<T>>)
    ensures Exec(l, a + b) == Exec(Exec(l, a), b)
    decreases |a|
  {
    if a != [] {
      assert (a + b)[0] == a[0];
      assert (a + b)[1..] == a[1..] + b;
      ExecAppend(Apply(l, a[0]), a[1..], b);
    } else {
      assert a + b == b;
    }
  }

  /** The shape in the middle of a failure-free drain: the last task handed
      out is the only pending timer. */
  predicate Draining<T(==)>(l: TaskList<T>)
  {
    && l.failed.None?
    && l.dispatched != []
    && l.queue == [Invoke(l.dispatched[|l.dispatched| - 1])]
  }

  /** One cycle hands out the next task with success, or, at the end of the
      snapshot, clears the current task and the timer. */
  lemma CycleStep<T>(l: TaskList<T>)
    requires Draining(l)
    ensures var r := Exec(l, Cycle());
      && r.failed.None?
      && (l.running != [] ==>
            Draining(r) && r.running == l.running[1..] &&
            r.dispatched == l.dispatched + [Dispatch(l.running[0], None)])
      && (l.running == [] ==>
            r.queue == [] && r.dispatched == l.dispatched && r.task.None? && r.timer == NoTimer)
  {
    var l1 := Apply(l, TickEv);
    var l2 := Apply(l1, NextEv);
    assert l2 == l.(queue := [Advance]);
    var l3 := Apply(l2, TickEv);
    assert Exec(l, Cycle()) == l3;
  }

  /** Every task of `ts`, in order, dispatched with success. */
  function Succeeded<T>(ts: seq<T>): (r: seq<Dispatch<T>>)
    ensures |r| == |ts|
    ensures forall i :: 0 <= i < |ts| ==> r[i] == Dispatch(ts[i], None)
  {
    if ts == [] then [] else [Dispatch(ts[0], None)] + Succeeded(ts[1..])
  }

  /** A run whose tasks each call `next()` exactly once dispatches the whole
      snapshot in insertion order, every task with success, and ends with
      no current task and no timer. */
  lemma {:induction false} DrainDispatchesAll<T>(l: TaskList<T>, n: nat)
    requires Draining(l) && n == |l.running| + 1
    ensures var r := Exec(l, Repeat(Cycle(), n));
      && r.dispatched == l.dispatched + Succeeded(l.running)
      && r.task.None? && r.timer == NoTimer && r.queue == [] && r.running == []
    decreases n
  {
    ExecAppend(l, Cycle(), Repeat(Cycle(), n - 1));
    CycleStep(l);
    var l1 := Exec(l, Cycle());
    if l.running == [] {
      assert Repeat<T>(Cycle(), n - 1) == [];
    } else {
      DrainDispatchesAll(l1, n - 1);
      SucceededCons(l.dispatched, l.running);
    }
  }

  lemma SucceededCons<T>(a: seq<Dispatch<T>>, ts: seq<T>)
    requires ts != []
    ensures (a + [Dispatch(ts[0], None)]) + Succeeded(ts[1..]) == a + Succeeded(ts)
  {
  }

  /** Running a non-empty task list with an empty timer queue and then
      cycling once per task dispatches every task once, in insertion order,
      with success. */
  lemma RunDispatchesAllInOrder<T>(l: TaskList<T>)
    requires l.tasks != [] && l.queue == []
    ensures var r := Exec(Run(l), Repeat(Cycle(), |l.tasks|));
      && |r.dispatched| == |l.tasks|
      && (forall i :: 0 <= i < |l.tasks| ==> r.dispatched[i] == Dispatch(l.tasks[i], None))
      && r.task.None? && r.timer == NoTimer
  {
    var l0 := Run(l);
    assert Draining(l0);
    DrainDispatchesAll(l0, |l.tasks|);
  }
}
