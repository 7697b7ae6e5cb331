/** The pool that admits missed neighbours in the background: worker loop, `submit`, `wait_idle` and
    the destructor, as a step system. A step is one critical section of `mtx`, one atomic access,
    one notify, or one of the effects of a task. */
module InsertPool {
  import opened Base

  /** What a task does to its query copy, in order. */
  datatype Event = Inserted | ThetaUpdated | Freed

  datatype Stage = Queued | Held(worker: nat) | Done

  /** `hasQuery`: submit was given a query copy, which the task must free. */
  datatype Task = Task(hasQuery: bool, stage: Stage, events: seq<Event>)

  datatype Pc =
    | Fetch               // cv.wait, then pop under the lock
    | Insert(t: nat)
    | Theta(t: nat)
    | Free(t: nat)
    | Finish(t: nat)      // inflight.fetch_sub, outside the lock
    | Notify              // idle_cv.notify_all, outside the lock
    | Exited

  datatype Waiter =
    | Away
    | Checking(since: nat)    // about to evaluate the predicate of wait_idle
    | Blocking(since: nat)    // predicate was false; mtx still held
    | Blocked(since: nat)     // mtx released, waiting for a notify

  /** `tasks` holds every task ever submitted; `queue` and the workers refer to it by position.
      `hasTheta`: a theta_update_function was supplied. */
  datatype State = State(hasTheta: bool, tasks: seq<Task>, queue: seq<nat>, inflight: nat, stop: bool,
                         joined: bool, workers: seq<Pc>, busy: set<nat>, done: nat, waiters: seq<Waiter>)

  datatype Step =
    | Submit(hasQuery: bool)
    | Work(i: nat)
    | StartWait(k: nat)
    | Check(k: nat)
    | Block(k: nat)
    | SpuriousWake(k: nat)
    | Stop
    | Join

  function Init(hasTheta: bool, w: nat, waiters: nat): State {
    State(hasTheta, [], [], 0, false, false, seq(w, _ => Fetch), {}, 0, seq(waiters, _ => Away))
  }

  /** A waiter keeps mtx from evaluating its predicate until it has blocked. */
  predicate MutexFree(s: State) {
    forall k | 0 <= k < |s.waiters| :: !s.waiters[k].Blocking?
  }

  predicate Enabled(s: State, step: Step) {
    match step
    case Submit(_) => MutexFree(s) && !s.stop
    case Work(i) =>
      i < |s.workers| && match s.workers[i] {
        case Fetch => MutexFree(s) && (s.stop || s.queue != [])
        case Insert(t) => t < |s.tasks|
        case Theta(t) => t < |s.tasks|
        case Free(t) => t < |s.tasks|
        case Finish(t) => t < |s.tasks|
        case Notify => true
        case Exited => false
      }
    case StartWait(k) => k < |s.waiters| && s.waiters[k].Away?
    case Check(k) => k < |s.waiters| && s.waiters[k].Checking? && MutexFree(s)
    case Block(k) => k < |s.waiters| && s.waiters[k].Blocking?
    case SpuriousWake(k) => k < |s.waiters| && s.waiters[k].Blocked?
    case Stop => MutexFree(s) && !s.stop
    case Join => s.stop && !s.joined && forall i | 0 <= i < |s.workers| :: s.workers[i].Exited?
  }

  predicate IsIdle(s: State) {
    s.queue == [] && s.inflight == 0
  }

  function Emit(tasks: seq<Task>, t: nat, e: Event): (r: seq<Task>)
    requires t < |tasks|
    ensures |r| == |tasks|
  {
    tasks[t := tasks[t].(events := tasks[t].events + [e])]
  }

  function WakeAll(ws: seq<Waiter>): (r: seq<Waiter>)
    ensures |r| == |ws|
  {
    seq(|ws|, k requires 0 <= k < |ws| => if ws[k].Blocked? then Checking(ws[k].since) else ws[k])
  }

  function Do(s: State, step: Step): State
    requires Enabled(s, step)
  {
    match step
    case Submit(hasQuery) =>
      s.(tasks := s.tasks + [Task(hasQuery, Queued, [])], queue := s.queue + [|s.tasks|])
    case Work(i) => DoWork(s, i)
    case StartWait(k) => s.(waiters := s.waiters[k := Checking(|s.tasks|)])
    case Check(k) =>
      s.(waiters := s.waiters[k := if IsIdle(s) then Away else Blocking(s.waiters[k].since)])
    case Block(k) => s.(waiters := s.waiters[k := Blocked(s.waiters[k].since)])
    case SpuriousWake(k) => s.(waiters := s.waiters[k := Checking(s.waiters[k].since)])
    case Stop => s.(stop := true)
    case Join => s.(joined := true)
  }

  function DoWork(s: State, i: nat): State
    requires Enabled(s, Work(i))
  {
    match s.workers[i]
    case Fetch =>
      if s.queue == [] then s.(workers := s.workers[i := Exited])
      else
        var t := s.queue[0];
        s.(queue := s.queue[1..], inflight := s.inflight + 1, busy := s.busy + {i},
           workers := s.workers[i := Insert(t)],
           tasks := if t < |s.tasks| then s.tasks[t := s.tasks[t].(stage := Held(i))] else s.tasks)
    case Insert(t) =>
      var q := s.tasks[t].hasQuery;
      s.(tasks := Emit(s.tasks, t, Inserted),
         workers := s.workers[i := if q && s.hasTheta then Theta(t) else if q then Free(t) else Finish(t)])
    case Theta(t) => s.(tasks := Emit(s.tasks, t, ThetaUpdated), workers := s.workers[i := Free(t)])
    case Free(t) => s.(tasks := Emit(s.tasks, t, Freed), workers := s.workers[i := Finish(t)])
    case Finish(t) =>
      // the invariant shows inflight is positive here
      s.(inflight := if s.inflight == 0 then 0 else s.inflight - 1, busy := s.busy - {i}, done := s.done + 1,
         tasks := s.tasks[t := s.tasks[t].(stage := Done)], workers := s.workers[i := Notify])
    case Notify => s.(waiters := WakeAll(s.waiters), workers := s.workers[i := Fetch])
  }

  ghost predicate IsRun(s: State, steps: seq<Step>)
    decreases |steps|
  {
    steps == [] || (Enabled(s, steps[0]) && IsRun(Do(s, steps[0]), steps[1..]))
  }

  ghost function After(s: State, steps: seq<Step>): State
    requires IsRun(s, steps)
    decreases |steps|
  {
    if steps == [] then s else After(Do(s, steps[0]), steps[1..])
  }

  // ---------------------------------------------------------------- invariant

  /** The whole life of a task's query copy. */
  function Expected(hasTheta: bool, hasQuery: bool): seq<Event> {
    if hasQuery && hasTheta then [Inserted, ThetaUpdated, Freed]
    else if hasQuery then [Inserted, Freed]
    else [Inserted]
  }

  predicate Holds(pc: Pc, t: nat) {
    pc == Insert(t) || pc == Theta(t) || pc == Free(t) || pc == Finish(t)
  }

  /** The events a worker at `pc` has already caused for the task it holds. */
  function EventsAt(hasTheta: bool, hasQuery: bool, pc: Pc): seq<Event> {
    match pc
    case Theta(_) => [Inserted]
    case Free(_) => if hasTheta then [Inserted, ThetaUpdated] else [Inserted]
    case Finish(_) => Expected(hasTheta, hasQuery)
    case _ => []
  }

  /** Tasks are taken in the order of submission: `queue` is the tail of the submissions. */
  ghost predicate TaskOk(s: State, t: nat)
    requires t < |s.tasks|
  {
    var task := s.tasks[t];
    && (task.stage.Queued? <==> |s.tasks| - |s.queue| <= t)
    && match task.stage {
         case Queued => task.events == []
         case Held(i) =>
           && i < |s.workers| && i in s.busy && Holds(s.workers[i], t)
           && task.events == EventsAt(s.hasTheta, task.hasQuery, s.workers[i])
         case Done => task.events == Expected(s.hasTheta, task.hasQuery)
       }
  }

  ghost predicate WorkerOk(s: State, i: nat)
    requires i < |s.workers|
  {
    match s.workers[i]
    case Insert(t) => i in s.busy && t < |s.tasks| && s.tasks[t].stage == Held(i)
    case Theta(t) => i in s.busy && t < |s.tasks| && s.tasks[t].stage == Held(i) && s.tasks[t].hasQuery && s.hasTheta
    case Free(t) => i in s.busy && t < |s.tasks| && s.tasks[t].stage == Held(i) && s.tasks[t].hasQuery
    case Finish(t) => i in s.busy && t < |s.tasks| && s.tasks[t].stage == Held(i)
    case Exited => i !in s.busy && s.stop && s.queue == []
    case _ => i !in s.busy
  }

  ghost predicate Counts(s: State) {
    && |s.queue| <= |s.tasks|
    && (forall j: nat | j < |s.queue| :: s.queue[j] == |s.tasks| - |s.queue| + j)
    && s.inflight == |s.busy|
    && s.busy <= Below(|s.workers|)
    && |s.tasks| == |s.queue| + s.inflight + s.done
    && (|s.workers| == 0 ==> s.done == 0)
    && (s.joined ==> s.stop && forall i: nat | i < |s.workers| :: s.workers[i].Exited?)
  }

  ghost predicate Invariant(s: State) {
    && Counts(s)
    && (forall t: nat | t < |s.tasks| :: TaskOk(s, t))
    && (forall i: nat | i < |s.workers| :: WorkerOk(s, i))
  }

  lemma WorkKeepsCounts(s: State, i: nat)
    requires Invariant(s) && Enabled(s, Work(i))
    ensures Counts(DoWork(s, i))
  {
    assert WorkerOk(s, i);
  }

  lemma FetchKeepsTask(s: State, i: nat, t: nat)
    requires Enabled(s, Work(i)) && s.workers[i].Fetch? && Counts(s)
    requires t < |s.tasks| && TaskOk(s, t)
    ensures TaskOk(DoWork(s, i), t)
  {}

  lemma FinishKeepsTask(s: State, i: nat, t: nat)
    requires Enabled(s, Work(i)) && s.workers[i].Finish? && WorkerOk(s, i)
    requires t < |s.tasks| && TaskOk(s, t)
    ensures TaskOk(DoWork(s, i), t)
  {}

  lemma InsertKeepsTask(s: State, i: nat, t: nat)
    requires Enabled(s, Work(i)) && s.workers[i].Insert? && WorkerOk(s, i)
    requires t < |s.tasks| && TaskOk(s, t)
    ensures TaskOk(DoWork(s, i), t)
  {}

  lemma EffectKeepsTask(s: State, i: nat, t: nat)
    requires Enabled(s, Work(i)) && !s.workers[i].Fetch? && WorkerOk(s, i)
    requires t < |s.tasks| && TaskOk(s, t)
    ensures TaskOk(DoWork(s, i), t)
  {
    if s.workers[i].Finish? {
      FinishKeepsTask(s, i, t);
    } else if s.workers[i].Insert? {
      InsertKeepsTask(s, i, t);
    }
  }

  lemma WorkKeepsTasks(s: State, i: nat)
    requires Invariant(s) && Enabled(s, Work(i))
    ensures var s' := DoWork(s, i); forall t: nat | t < |s'.tasks| :: TaskOk(s', t)
  {
    var s' := DoWork(s, i);
    assert WorkerOk(s, i);
    assert |s'.tasks| == |s.tasks|;
    forall t: nat | t < |s'.tasks| ensures TaskOk(s', t) {
      assert TaskOk(s, t);
      if s.workers[i].Fetch? { FetchKeepsTask(s, i, t); } else { EffectKeepsTask(s, i, t); }
    }
  }

  lemma WorkKeepsWorkers(s: State, i: nat)
    requires Invariant(s) && Enabled(s, Work(i))
    ensures var s' := DoWork(s, i); forall j: nat | j < |s'.workers| :: WorkerOk(s', j)
  {
    var s' := DoWork(s, i);
    assert WorkerOk(s, i);
    forall j: nat | j < |s'.workers| ensures WorkerOk(s', j) {
      assert WorkerOk(s, j);
      if s.workers[i].Fetch? {
        if s.queue != [] { assert TaskOk(s, s.queue[0]); }
        FetchKeepsWorker(s, i, j);
      } else {
        EffectKeepsWorker(s, i, j);
      }
    }
  }

  lemma FetchKeepsWorker(s: State, i: nat, j: nat)
    requires Enabled(s, Work(i)) && s.workers[i].Fetch? && WorkerOk(s, i)
    requires s.queue != [] ==> s.queue[0] < |s.tasks| && s.tasks[s.queue[0]].stage.Queued?
    requires j < |s.workers| && WorkerOk(s, j)
    ensures WorkerOk(DoWork(s, i), j)
  {}

  lemma EffectKeepsWorker(s: State, i: nat, j: nat)
    requires Enabled(s, Work(i)) && !s.workers[i].Fetch? && WorkerOk(s, i)
    requires j < |s.workers| && WorkerOk(s, j)
    ensures WorkerOk(DoWork(s, i), j)
  {}

  lemma StepKeepsInvariant(s: State, step: Step)
    requires Invariant(s) && Enabled(s, step)
    ensures Invariant(Do(s, step))
  {
    if step.Work? {
      WorkKeepsCounts(s, step.i);
      WorkKeepsTasks(s, step.i);
      WorkKeepsWorkers(s, step.i);
    } else {
      QuietKeepsInvariant(s, step);
    }
  }

  lemma QuietKeepsInvariant(s: State, step: Step)
    requires Invariant(s) && Enabled(s, step) && !step.Work?
    ensures Invariant(Do(s, step))
  {
    var s' := Do(s, step);
    forall t: nat | t < |s'.tasks| ensures TaskOk(s', t) {
      if t < |s.tasks| { assert TaskOk(s, t); }
    }
    forall i: nat | i < |s'.workers| ensures WorkerOk(s', i) {
      assert WorkerOk(s, i);
    }
  }

  lemma RunKeepsInvariant(s: State, steps: seq<Step>)
    requires Invariant(s) && IsRun(s, steps)
    ensures Invariant(After(s, steps))
    decreases |steps|
  {
    if steps != [] {
      StepKeepsInvariant(s, steps[0]);
      RunKeepsInvariant(Do(s, steps[0]), steps[1..]);
    }
  }

  lemma Invariance(hasTheta: bool, w: nat, waiters: nat, steps: seq<Step>)
    requires IsRun(Init(hasTheta, w, waiters), steps)
    ensures Invariant(After(Init(hasTheta, w, waiters), steps))
  {
    RunKeepsInvariant(Init(hasTheta, w, waiters), steps);
  }

  // ---------------------------------------------------------------- what the pool promises

  /** Nothing submitted is lost or counted twice. */
  lemma Conservation(hasTheta: bool, w: nat, waiters: nat, steps: seq<Step>)
    requires IsRun(Init(hasTheta, w, waiters), steps)
    ensures var s := After(Init(hasTheta, w, waiters), steps); |s.tasks| == |s.queue| + s.inflight + s.done
  {
    Invariance(hasTheta, w, waiters, steps);
  }

  /** When wait_idle returns, every task submitted so far (in particular every one submitted before the
      wait began) has run to its end. */
  lemma WaitIdleMeansDone(hasTheta: bool, w: nat, waiters: nat, steps: seq<Step>, k: nat)
    requires IsRun(Init(hasTheta, w, waiters), steps)
    requires var s := After(Init(hasTheta, w, waiters), steps);
      Enabled(s, Check(k)) && Do(s, Check(k)).waiters[k].Away?
    ensures var s := After(Init(hasTheta, w, waiters), steps);
      forall t: nat | t < |s.tasks| :: s.tasks[t].stage.Done?
        && s.tasks[t].events == Expected(hasTheta, s.tasks[t].hasQuery)
  {
    Invariance(hasTheta, w, waiters, steps);
    SameTheta(Init(hasTheta, w, waiters), steps);
    var s := After(Init(hasTheta, w, waiters), steps);
    forall t: nat | t < |s.tasks| ensures s.tasks[t].stage.Done? {
      assert TaskOk(s, t);
    }
    forall t: nat | t < |s.tasks| ensures s.tasks[t].events == Expected(hasTheta, s.tasks[t].hasQuery) {
      assert TaskOk(s, t);
    }
  }

  lemma SameTheta(s: State, steps: seq<Step>)
    requires IsRun(s, steps)
    ensures After(s, steps).hasTheta == s.hasTheta && |After(s, steps).workers| == |s.workers|
    decreases |steps|
  {
    if steps != [] {
      SameTheta(Do(s, steps[0]), steps[1..]);
    }
  }

  /** At every moment, what a task has done is a beginning of its whole life. */
  lemma QueryLife(hasTheta: bool, w: nat, waiters: nat, steps: seq<Step>, t: nat)
    requires IsRun(Init(hasTheta, w, waiters), steps)
    requires t < |After(Init(hasTheta, w, waiters), steps).tasks|
    ensures var task := After(Init(hasTheta, w, waiters), steps).tasks[t];
      && task.events <= Expected(hasTheta, task.hasQuery)
      && (task.stage.Done? ==> task.events == Expected(hasTheta, task.hasQuery))
  {
    Invariance(hasTheta, w, waiters, steps);
    SameTheta(Init(hasTheta, w, waiters), steps);
    var s := After(Init(hasTheta, w, waiters), steps);
    assert TaskOk(s, t);
    if s.tasks[t].stage.Held? {
      assert WorkerOk(s, s.tasks[t].stage.worker);
    }
  }

  /** A query copy is freed at most once, never before its insertion and its threshold update are over,
      and it has been freed when its task is done. */
  lemma FreedOnce(hasTheta: bool, w: nat, waiters: nat, steps: seq<Step>, t: nat)
    requires IsRun(Init(hasTheta, w, waiters), steps)
    requires t < |After(Init(hasTheta, w, waiters), steps).tasks|
    ensures var task := After(Init(hasTheta, w, waiters), steps).tasks[t];
      && multiset(task.events)[Freed] <= (if task.hasQuery then 1 else 0)
      && (task.stage.Done? && task.hasQuery ==> multiset(task.events)[Freed] == 1)
      && (Freed in task.events ==> Inserted in task.events && (hasTheta ==> ThetaUpdated in task.events))
  {
    QueryLife(hasTheta, w, waiters, steps, t);
    var task := After(Init(hasTheta, w, waiters), steps).tasks[t];
    var all := Expected(hasTheta, task.hasQuery);
    assert task.events == all[..|task.events|];
    assert all[..0] == [] && all[..1] == [Inserted];
    assert |all| >= 2 ==> all[..2] == [Inserted, all[1]];
    assert |all| == 3 ==> all[..3] == [Inserted, ThetaUpdated, Freed];
  }

  /** A finished task has inserted once, updated the threshold once if there is a callback and a query, and freed its
      query once if it has one. */
  lemma EachEffectOnce(hasTheta: bool, w: nat, waiters: nat, steps: seq<Step>, t: nat)
    requires IsRun(Init(hasTheta, w, waiters), steps)
    requires t < |After(Init(hasTheta, w, waiters), steps).tasks|
    requires After(Init(hasTheta, w, waiters), steps).tasks[t].stage.Done?
    ensures var task := After(Init(hasTheta, w, waiters), steps).tasks[t];
      && multiset(task.events)[Inserted] == 1
      && multiset(task.events)[ThetaUpdated] == (if hasTheta && task.hasQuery then 1 else 0)
      && multiset(task.events)[Freed] == if task.hasQuery then 1 else 0
  {
    QueryLife(hasTheta, w, waiters, steps, t);
  }

  /** Tasks are taken in the order in which they were submitted. */
  lemma FirstInFirstOut(hasTheta: bool, w: nat, waiters: nat, steps: seq<Step>, t: nat, u: nat)
    requires IsRun(Init(hasTheta, w, waiters), steps)
    requires u < t < |After(Init(hasTheta, w, waiters), steps).tasks|
    ensures var tasks := After(Init(hasTheta, w, waiters), steps).tasks;
      tasks[u].stage.Queued? ==> tasks[t].stage.Queued?
  {
    Invariance(hasTheta, w, waiters, steps);
    var s := After(Init(hasTheta, w, waiters), steps);
    assert TaskOk(s, t) && TaskOk(s, u);
  }

  /** When the destructor has joined its workers, the queue has been drained, provided there was a
      worker to drain it or nothing to drain. */
  lemma DestructorDrains(hasTheta: bool, w: nat, waiters: nat, steps: seq<Step>)
    requires IsRun(Init(hasTheta, w, waiters), steps)
    requires After(Init(hasTheta, w, waiters), steps).joined
    ensures var s := After(Init(hasTheta, w, waiters), steps);
      (forall t: nat | t < |s.tasks| :: s.tasks[t].stage.Done?) <==> w >= 1 || s.tasks == []
  {
    Invariance(hasTheta, w, waiters, steps);
    SameTheta(Init(hasTheta, w, waiters), steps);
    var s := After(Init(hasTheta, w, waiters), steps);
    if w >= 1 {
      assert WorkerOk(s, 0);
    }
    forall t: nat | t < |s.tasks| ensures s.tasks[t].stage.Done? <==> w >= 1 {
      assert TaskOk(s, t);
    }
    if s.tasks != [] { assert s.tasks[0].stage.Done? <==> w >= 1; }
  }

  // ---------------------------------------------------------------- a wake-up can be lost

  /** Waiter k is blocked, the pool is idle, and no step of a worker is left that could wake it. */
  ghost predicate Stranded(s: State, k: nat) {
    && k < |s.waiters| && s.waiters[k].Blocked? && IsIdle(s)
    && forall step | Enabled(s, step) ::
         step.Submit? || step.Stop? || step.SpuriousWake? || step.StartWait? || step.Check? || step.Block?
  }

  /** One worker at `pc`, one waiter, one task that frees nothing. */
  function Scene(task: Task, queued: bool, pc: Pc, waiter: Waiter): State {
    var held := Holds(pc, 0);
    State(false, [task], if queued then [0] else [], if held then 1 else 0, false, false, [pc],
          if held then {0} else {}, if task.stage.Done? then 1 else 0, [waiter])
  }

  const QUEUED := Task(false, Queued, [])
  const HELD := Task(false, Held(0), [])
  const OVER := Task(false, Done, [Inserted])

  /** The waiter has tested but not blocked: the worker finishes and notifies nobody. */
  lemma FinishUnheard() returns (r: seq<Step>)
    ensures var s := Scene(HELD, false, Insert(0), Blocking(1));
      IsRun(s, r) && After(s, r) == Scene(OVER, false, Fetch, Blocked(1))
  {
    var end := Scene(OVER, false, Fetch, Blocked(1));
    assert HELD.events + [Inserted] == [Inserted];
    r := Prepend(Scene(OVER, false, Fetch, Blocking(1)), Block(0), end, [], end);
    r := Prepend(Scene(OVER, false, Notify, Blocking(1)), Work(0), Scene(OVER, false, Fetch, Blocking(1)), r, end);
    r := Prepend(Scene(HELD.(events := [Inserted]), false, Finish(0), Blocking(1)), Work(0),
                 Scene(OVER, false, Notify, Blocking(1)), r, end);
    r := Prepend(Scene(HELD, false, Insert(0), Blocking(1)), Work(0),
                 Scene(HELD.(events := [Inserted]), false, Finish(0), Blocking(1)), r, end);
  }

  lemma TestTooEarly() returns (r: seq<Step>)
    ensures var s := Scene(HELD, false, Insert(0), Away);
      IsRun(s, r) && After(s, r) == Scene(OVER, false, Fetch, Blocked(1))
  {
    var end := Scene(OVER, false, Fetch, Blocked(1));
    r := FinishUnheard();
    r := Prepend(Scene(HELD, false, Insert(0), Checking(1)), Check(0),
                 Scene(HELD, false, Insert(0), Blocking(1)), r, end);
    r := Prepend(Scene(HELD, false, Insert(0), Away), StartWait(0), Scene(HELD, false, Insert(0), Checking(1)), r, end);
  }

  /** wait_idle can wait for ever although the pool is idle: the decrement of inflight and the notify
      happen outside mtx, so both can fall between a waiter's test and its block. */
  lemma WakeupCanBeLost()
    ensures exists steps :: IsRun(Init(false, 1, 1), steps) && Stranded(After(Init(false, 1, 1), steps), 0)
  {
    var end := Scene(OVER, false, Fetch, Blocked(1));
    EndIsStranded();
    var r := TestTooEarly();
    r := Prepend(Scene(QUEUED, true, Fetch, Away), Work(0), Scene(HELD, false, Insert(0), Away), r, end);
    r := Prepend(Init(false, 1, 1), Submit(false), Scene(QUEUED, true, Fetch, Away), r, end);
  }

  lemma EndIsStranded()
    ensures Stranded(Scene(OVER, false, Fetch, Blocked(1)), 0)
  {}

  lemma Prepend(s: State, step: Step, s': State, rest: seq<Step>, end: State) returns (r: seq<Step>)
    requires Enabled(s, step) && Do(s, step) == s' && IsRun(s', rest) && After(s', rest) == end
    ensures r == [step] + rest && IsRun(s, r) && After(s, r) == end
  {
    r := [step] + rest;
    assert r[1..] == rest;
  }

  // ---------------------------------------------------------------- exactly when it can be lost

  /** No new submission, no destruction, no spurious wake-up. */
  ghost predicate Quiet(steps: seq<Step>) {
    forall i | 0 <= i < |steps| :: !steps[i].Submit? && !steps[i].Stop? && !steps[i].SpuriousWake?
  }

  ghost predicate CanStrand(s: State, k: nat) {
    exists steps :: IsRun(s, steps) && Quiet(steps) && Stranded(After(s, steps), k)
  }

  /** From an idle pool the test succeeds, and idleness lasts. */
  lemma IdleNeverStrands(s: State, k: nat, steps: seq<Step>)
    requires IsIdle(s) && k < |s.waiters| && (s.waiters[k].Away? || s.waiters[k].Checking?)
    requires IsRun(s, steps) && Quiet(steps)
    ensures !Stranded(After(s, steps), k)
    decreases |steps|
  {
    if steps != [] {
      assert Quiet(steps[1..]);
      IdleNeverStrands(Do(s, steps[0]), k, steps[1..]);
    }
  }

  /** How many steps a worker takes back to cv.wait. */
  function Remaining(pc: Pc): nat {
    match pc
    case Insert(_) => 5
    case Theta(_) => 4
    case Free(_) => 3
    case Finish(_) => 2
    case Notify => 1
    case _ => 0
  }

  function Effort(workers: seq<Pc>): nat {
    if workers == [] then 0 else Effort(workers[..|workers| - 1]) + Remaining(workers[|workers| - 1])
  }

  lemma {:induction false} EffortMoves(workers: seq<Pc>, i: nat, pc: Pc)
    requires i < |workers|
    ensures Effort(workers[i := pc]) == Effort(workers) - Remaining(workers[i]) + Remaining(pc)
  {
    var l := |workers| - 1;
    if i < l {
      EffortMoves(workers[..l], i, pc);
      assert workers[i := pc][..l] == workers[..l][i := pc];
    } else {
      assert workers[i := pc][..l] == workers[..l];
    }
  }

  /** A bound on the steps until everything submitted has been worked off. */
  function Left(s: State): nat {
    6 * |s.queue| + Effort(s.workers)
  }

  /** A waiter about to test a pool that is not idle. */
  ghost predicate Testing(s: State, k: nat) {
    && Invariant(s) && MutexFree(s) && !s.stop && |s.workers| >= 1
    && k < |s.waiters| && s.waiters[k].Checking? && !IsIdle(s)
  }

  lemma WorkLowersLeft(s: State, i: nat)
    requires Enabled(s, Work(i)) && !s.stop
    ensures Left(DoWork(s, i)) < Left(s)
  {
    EffortMoves(s.workers, i, DoWork(s, i).workers[i]);
  }

  lemma WorkKeepsTesting(s: State, k: nat, i: nat)
    requires Testing(s, k) && Enabled(s, Work(i)) && !IsIdle(DoWork(s, i))
    ensures Testing(DoWork(s, i), k)
  {
    StepKeepsInvariant(s, Work(i));
  }

  /** The last task is about to be counted off: worker i is past its effects, all others wait for work. */
  ghost predicate LastInFlight(s: State, i: nat) {
    && s.queue == [] && s.inflight == 1 && i < |s.workers| && s.workers[i].Finish? && s.workers[i].t < |s.tasks|
    && forall j: nat | j < |s.workers| && j != i :: s.workers[j].Fetch?
  }

  /** Unless some worker can go on and leave the pool busy, the last task is about to be counted off. */
  lemma BusyOrLast(s: State, k: nat) returns (i: nat)
    requires Testing(s, k)
    ensures LastInFlight(s, i) || (Enabled(s, Work(i)) && !IsIdle(DoWork(s, i)))
  {
    if j: nat :| j < |s.workers| && Enabled(s, Work(j)) && !IsIdle(DoWork(s, j)) {
      i := j;
    } else {
      forall j: nat | j < |s.workers| ensures s.workers[j].Fetch? || (s.workers[j].Finish? && s.inflight == 1) {
        assert WorkerOk(s, j);
        assert !Enabled(s, Work(j)) || IsIdle(DoWork(s, j));
      }
      i := LastWorker(s);
    }
  }

  lemma LastWorker(s: State) returns (i: nat)
    requires Invariant(s) && MutexFree(s) && !s.stop && |s.workers| >= 1 && !IsIdle(s)
    requires forall j: nat | j < |s.workers| :: s.workers[j].Fetch? || (s.workers[j].Finish? && s.inflight == 1)
    requires forall j: nat | j < |s.workers| && Enabled(s, Work(j)) :: IsIdle(DoWork(s, j))
    ensures LastInFlight(s, i)
  {
    if s.queue != [] {
      assert WorkerOk(s, 0);
      assert Enabled(s, Work(0));
      assert false;
    }
    i :| i in s.busy;
    forall j: nat | j < |s.workers| && j != i ensures s.workers[j].Fetch? {
      assert WorkerOk(s, j) && WorkerOk(s, i);
      if j in s.busy { SubsetSize({i, j}, s.busy); }
    }
    assert WorkerOk(s, i);
  }

  lemma Strand(s: State, k: nat, i: nat) returns (r: seq<Step>)
    requires Testing(s, k) && LastInFlight(s, i)
    ensures IsRun(s, r) && Quiet(r) && Stranded(After(s, r), k)
  {
    var s1 := Do(s, Check(k));
    var s2 := Do(s1, Work(i));
    var s3 := Do(s2, Work(i));
    var s4 := Do(s3, Block(k));
    assert IsRun(s4, []);
    r := Prepend(s3, Block(k), s4, [], s4);
    r := Prepend(s2, Work(i), s3, r, s4);
    r := Prepend(s1, Work(i), s2, r, s4);
    r := Prepend(s, Check(k), s1, r, s4);
  }

  lemma BusyCanStrand(s: State, k: nat) returns (r: seq<Step>)
    requires Testing(s, k)
    ensures IsRun(s, r) && Quiet(r) && Stranded(After(s, r), k)
    decreases Left(s)
  {
    var i := BusyOrLast(s, k);
    if LastInFlight(s, i) {
      r := Strand(s, k, i);
    } else {
      WorkKeepsTesting(s, k, i);
      WorkLowersLeft(s, i);
      var rest := BusyCanStrand(DoWork(s, i), k);
      r := Prepend(s, Work(i), DoWork(s, i), rest, After(DoWork(s, i), rest));
    }
  }

  /** Without a worker the queue is never worked off. */
  lemma NobodyWorks(s: State, steps: seq<Step>)
    requires s.workers == [] && !IsIdle(s) && IsRun(s, steps)
    ensures !IsIdle(After(s, steps))
    decreases |steps|
  {
    if steps != [] {
      NobodyWorks(Do(s, steps[0]), steps[1..]);
    }
  }

  /** In every reachable state of a running pool, a caller about to test the predicate of wait_idle can be stranded by
      the pool's own steps if and only if the pool is not idle at that moment and has a worker to become idle. */
  lemma LostIff(hasTheta: bool, w: nat, waiters: nat, steps: seq<Step>, k: nat)
    requires IsRun(Init(hasTheta, w, waiters), steps)
    requires var s := After(Init(hasTheta, w, waiters), steps);
      MutexFree(s) && !s.stop && k < |s.waiters| && s.waiters[k].Checking?
    ensures var s := After(Init(hasTheta, w, waiters), steps); CanStrand(s, k) <==> !IsIdle(s) && w >= 1
  {
    Invariance(hasTheta, w, waiters, steps);
    SameTheta(Init(hasTheta, w, waiters), steps);
    var s := After(Init(hasTheta, w, waiters), steps);
    if IsIdle(s) {
      forall r | IsRun(s, r) && Quiet(r) ensures !Stranded(After(s, r), k) {
        IdleNeverStrands(s, k, r);
      }
    } else if w == 0 {
      forall r | IsRun(s, r) ensures !IsIdle(After(s, r)) { NobodyWorks(s, r); }
    } else {
      var r := BusyCanStrand(s, k);
    }
  }

  /** Waiter k is blocked on an idle pool whose workers wait for work or are gone. */
  ghost predicate Asleep(s: State, k: nat) {
    && k < |s.waiters| && s.waiters[k].Blocked? && IsIdle(s)
    && forall i: nat | i < |s.workers| :: s.workers[i].Fetch? || s.workers[i].Exited?
  }

  lemma AsleepForGood(s: State, k: nat, steps: seq<Step>)
    requires Asleep(s, k) && IsRun(s, steps)
    requires forall i | 0 <= i < |steps| :: !steps[i].Submit? && steps[i] != SpuriousWake(k)
    ensures Asleep(After(s, steps), k)
    decreases |steps|
  {
    if steps != [] {
      assert forall i | 0 <= i < |steps| - 1 :: steps[1..][i] == steps[i + 1];
      AsleepForGood(Do(s, steps[0]), k, steps[1..]);
    }
  }

  /** A stranded waiter stays blocked on an idle pool, through any run without a submission or a spurious wake-up of
      its own; destroying the pool does not wake it either. */
  lemma StrandedForGood(s: State, k: nat, steps: seq<Step>)
    requires Invariant(s) && Stranded(s, k) && IsRun(s, steps)
    requires forall i | 0 <= i < |steps| :: !steps[i].Submit? && steps[i] != SpuriousWake(k)
    ensures Asleep(After(s, steps), k)
  {
    forall i: nat | i < |s.workers| ensures s.workers[i].Fetch? || s.workers[i].Exited? {
      assert WorkerOk(s, i) && !Enabled(s, Work(i));
    }
    AsleepForGood(s, k, steps);
  }
}
