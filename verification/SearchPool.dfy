/** The fork-join pool that runs one mini-index search per worker: `parallel_for`, `worker_main`
    and the destructor, as a step system. Each step is one atomic access, one futex call, one
    locked block, or the start or end of one job. The mutex `call_mu_` admits one caller at a
    time, so the model has one caller, which may make any number of calls one after another. */
module SearchPool {
  import opened Base

  const EPOCH_MODULUS: nat := 0x1_0000_0000

  /** Where a worker is in worker_main. */
  datatype WorkerPc =
    | LoadEpoch            // first load of epoch_
    | Spin(k: nat)         // the bounded spin, at most 64 further loads
    | Reload               // second load of epoch_
    | CheckStopIdle        // nothing new: stop_?
    | EnterWait            // futex_wait: the kernel compares epoch_ with seen, atomically
    | Asleep               // parked in the kernel
    | CheckStopRun         // a new epoch: stop_?
    | LoadJob
    | LoadN
    | FetchNext            // next_.fetch_add(1)
    | RunJob(id: nat)
    | Record(id: nat)      // catch block, under error_mu_
    | Arrive               // arrived_.fetch_sub(1)
    | Exited

  /** `seen` and `gen` are the 32-bit words; `seenAt` and `genAt` count the increments behind them. */
  datatype Worker = Worker(pc: WorkerPc, seen: nat, gen: nat, job: Option<nat>, n: nat,
                           seenAt: nat, genAt: nat)

  datatype CallerPc =
    | Idle | ClearError | StoreNext | StoreArrived | StoreN | StoreJob | BumpEpoch | Wake
    | RunZero | RecordZero | SpinArrived | ClearJob | TakeError
    | DtorStop | DtorBump | DtorWake | DtorJoin | Destroyed

  /** The atomics of the pool, and error_. `job` names the call whose function job_ points to. */
  datatype Memory = Memory(job: Option<nat>, jobN: nat, next: nat, arrived: nat, epoch: nat,
                           stop: bool, error: Option<nat>)

  /** What became of a claimed id. The caller counts as participant number |workers|. */
  datatype Status = Running(who: nat) | Throwing(who: nat) | Finished | Threw

  /** What has happened; no step branches on it.
      serial: calls begun. bumps: increments of epoch_. owing: workers that have not yet answered
      the latest increment. ran: starts per id in the current call. recorded: ids whose exception
      reached error_mu_, in order. throwers: workers that caught an exception in this call, and whose. */
  datatype Log = Log(serial: nat, bumps: nat, owing: set<nat>, ran: multiset<nat>,
                     status: map<nat, Status>, recorded: seq<nat>, throwers: map<nat, nat>)

  datatype State = State(mem: Memory, workers: seq<Worker>, caller: CallerPc, n: nat, log: Log)

  datatype Step =
    | Begin(n: nat)
    | Caller(throws: bool)
    | Destroy
    | Work(i: nat, throws: bool)
    | SpuriousWake(i: nat)

  function Init(w: nat): State {
    State(Memory(None, 0, 0, 0, 0, false, None), seq(w, _ => Worker(LoadEpoch, 0, 0, None, 0, 0, 0)),
          Idle, 0, Log(0, 0, {}, multiset{}, map[], [], map[]))
  }

  function WakeAll(ws: seq<Worker>): (r: seq<Worker>)
    ensures |r| == |ws|
  {
    seq(|ws|, i requires 0 <= i < |ws| => if ws[i].pc == Asleep then ws[i].(pc := LoadEpoch) else ws[i])
  }

  function RecordError(error: Option<nat>, id: nat): Option<nat> {
    if error.None? then Some(id) else error
  }

  // ---------------------------------------------------------------- steps

  predicate Enabled(s: State, step: Step) {
    match step
    case Begin(n) => s.caller == Idle && n >= 2 && |s.workers| >= 1
    case Caller(_) =>
      s.caller != Idle && s.caller != Destroyed
      && (s.caller == DtorJoin ==> forall i | 0 <= i < |s.workers| :: s.workers[i].pc == Exited)
    case Destroy => s.caller == Idle
    case Work(i, _) => i < |s.workers| && CanWork(s.workers[i].pc)
    case SpuriousWake(i) => i < |s.workers| && s.workers[i].pc == Asleep
  }

  predicate CanWork(pc: WorkerPc) {
    pc != Asleep && pc != Exited
  }

  function Do(s: State, step: Step): State
    requires Enabled(s, step)
  {
    match step
    case Begin(n) =>
      s.(caller := ClearError, n := n,
         log := Log(s.log.serial + 1, s.log.bumps, s.log.owing, multiset{}, map[], [], map[]))
    case Caller(throws) =>
      if Preparing(s.caller) then DoPrepare(s)
      else if Stopping(s.caller) then DoStop(s)
      else DoCall(s, throws)
    case Destroy => s.(caller := DtorStop)
    case Work(i, throws) => Worked(s, i, throws)
    case SpuriousWake(i) => s.(workers := s.workers[i := s.workers[i].(pc := LoadEpoch)])
  }

  predicate Preparing(c: CallerPc) {
    c.ClearError? || c.StoreNext? || c.StoreArrived? || c.StoreN? || c.StoreJob?
  }

  predicate Stopping(c: CallerPc) {
    c.DtorStop? || c.DtorBump? || c.DtorWake? || c.DtorJoin? || c.Destroyed?
  }

  /** parallel_for up to the store of job_. */
  function DoPrepare(s: State): State
    requires Preparing(s.caller)
  {
    var m := s.mem;
    match s.caller
    case ClearError => s.(mem := m.(error := None), caller := StoreNext)
    case StoreNext => s.(mem := m.(next := 1), caller := StoreArrived)
    case StoreArrived => s.(mem := m.(arrived := |s.workers|), caller := StoreN)
    case StoreN => s.(mem := m.(jobN := s.n), caller := StoreJob)
    case StoreJob => s.(mem := m.(job := Some(s.log.serial)), caller := BumpEpoch)
  }

  /** parallel_for from the increment of epoch_ to its return. */
  function DoCall(s: State, throws: bool): State
    requires !s.caller.Idle? && !Preparing(s.caller) && !Stopping(s.caller)
  {
    var m, log, me := s.mem, s.log, |s.workers|;
    match s.caller
    case BumpEpoch =>
      s.(mem := m.(epoch := (m.epoch + 1) % EPOCH_MODULUS), caller := Wake,
         log := log.(bumps := log.bumps + 1, owing := Below(me)))
    case Wake =>
      s.(workers := WakeAll(s.workers), caller := RunZero,
         log := log.(ran := log.ran + multiset{0}, status := log.status[0 := Running(me)]))
    case RunZero =>
      if throws then s.(caller := RecordZero, log := log.(status := log.status[0 := Throwing(me)]))
      else s.(caller := SpinArrived, log := log.(status := log.status[0 := Finished]))
    case RecordZero =>
      s.(mem := m.(error := RecordError(m.error, 0)), caller := SpinArrived,
         log := log.(recorded := log.recorded + [0], status := log.status[0 := Threw]))
    case SpinArrived => if m.arrived != 0 then s else s.(caller := ClearJob)
    case ClearJob => s.(mem := m.(job := None), caller := TakeError)
    case TakeError => s.(mem := m.(error := None), caller := Idle)
  }

  /** The destructor. */
  function DoStop(s: State): State
    requires Stopping(s.caller) && !s.caller.Destroyed?
  {
    var m := s.mem;
    match s.caller
    case DtorStop => s.(mem := m.(stop := true), caller := DtorBump)
    case DtorBump =>
      s.(mem := m.(epoch := (m.epoch + 1) % EPOCH_MODULUS), caller := DtorWake,
         log := s.log.(bumps := s.log.bumps + 1,
                       owing := set i | i in Below(|s.workers|) && s.workers[i].pc != Exited))
    case DtorWake => s.(workers := WakeAll(s.workers), caller := DtorJoin)
    case DtorJoin => s.(caller := Destroyed)
  }

  /** Looking for a new epoch. */
  predicate Looking(pc: WorkerPc) {
    pc.LoadEpoch? || pc.Spin? || pc.Reload? || pc.CheckStopIdle? || pc.EnterWait? || pc.Asleep?
  }

  /** worker_main until it notices a new epoch, sleeps or leaves. Only reads shared memory. */
  function DoLook(m: Memory, log: Log, i: nat, w: Worker): (r: (Worker, set<nat>))
    requires Looking(w.pc) && CanWork(w.pc)
  {
    match w.pc
    case LoadEpoch =>
      (w.(gen := m.epoch, genAt := log.bumps, pc := if m.epoch == w.seen then Spin(0) else CheckStopRun), log.owing)
    case Spin(k) => (w.(pc := if k < 64 && m.epoch == w.seen then Spin(k + 1) else Reload), log.owing)
    case Reload =>
      (w.(gen := m.epoch, genAt := log.bumps, pc := if m.epoch == w.seen then CheckStopIdle else CheckStopRun),
       log.owing)
    case CheckStopIdle => if m.stop then (w.(pc := Exited), log.owing - {i}) else (w.(pc := EnterWait), log.owing)
    case EnterWait => (w.(pc := if m.epoch == w.seen then Asleep else LoadEpoch), log.owing)
  }

  /** worker_main from noticing a new epoch to answering it. */
  function DoJob(m: Memory, log: Log, i: nat, w: Worker, throws: bool): (r: (Memory, Worker, Log))
    requires !Looking(w.pc) && CanWork(w.pc)
  {
    match w.pc
    case CheckStopRun =>
      if m.stop then (m, w.(pc := Exited), log.(owing := log.owing - {i}))
      else (m, w.(pc := LoadJob, seen := w.gen, seenAt := w.genAt), log)
    case LoadJob => (m, w.(pc := LoadN, job := m.job), log)
    case LoadN => (m, w.(pc := if w.job.None? then Arrive else FetchNext, n := m.jobN), log)
    case FetchNext =>
      if m.next >= w.n then (m.(next := m.next + 1), w.(pc := Arrive), log)
      else (m.(next := m.next + 1), w.(pc := RunJob(m.next)),
            log.(ran := log.ran + multiset{m.next}, status := log.status[m.next := Running(i)]))
    case RunJob(id) =>
      if throws then (m, w.(pc := Record(id)),
                      log.(status := log.status[id := Throwing(i)], throwers := log.throwers[i := id]))
      else (m, w.(pc := FetchNext), log.(status := log.status[id := Finished]))
    case Record(id) =>
      (m.(error := RecordError(m.error, id)), w.(pc := Arrive),
       log.(recorded := log.recorded + [id], status := log.status[id := Threw]))
    case Arrive =>
      // arrived_ is a size_t; the invariant shows it is positive here
      (m.(arrived := if m.arrived == 0 then 0 else m.arrived - 1), w.(pc := LoadEpoch),
       log.(owing := log.owing - {i}))
  }

  // ---------------------------------------------------------------- runs

  /** A run is a sequence of steps, each enabled when it is taken. */
  ghost predicate IsRun(s: State, steps: seq<Step>)
    decreases |steps|
  {
    steps == [] || (Enabled(s, steps[0]) && IsRun(Do(s, steps[0]), steps[1..]))
  }

  ghost function After(s: State, steps: seq<Step>): State
    requires IsRun(s, steps)
    decreases |steps|
  {
    if steps == [] then s else After(Do(s, steps[0]), steps[1..])
  }

  // ---------------------------------------------------------------- invariant

  /** Between noticing an epoch and answering it. */
  predicate InBody(pc: WorkerPc) {
    pc.LoadJob? || pc.LoadN? || pc.FetchNext? || pc.RunJob? || pc.Record? || pc.Arrive?
  }

  /** About to use, or using, the caller's function. */
  predicate HoldsJob(w: Worker) {
    w.job.Some? && (w.pc.LoadN? || w.pc.FetchNext? || w.pc.RunJob? || w.pc.Record?)
  }

  /** Workers of the current call may still be out. */
  predicate Open(c: CallerPc) {
    c.Wake? || c.RunZero? || c.RecordZero? || c.SpinArrived?
  }

  /** The destructor has incremented the epoch. */
  predicate StopBumped(c: CallerPc) {
    c.DtorWake? || c.DtorJoin? || c.Destroyed?
  }

  predicate Closing(c: CallerPc) {
    c.ClearJob? || c.TakeError?
  }

  /** What holds of worker i's own fields. */
  ghost predicate WorkerOk(m: Memory, log: Log, c: CallerPc, n: nat, i: nat, w: Worker) {
    && w.seen == w.seenAt % EPOCH_MODULUS
    && w.gen == w.genAt % EPOCH_MODULUS
    && (i in log.owing ==> OwingOk(log, c, w))
    && (i !in log.owing ==>
          if w.pc.Exited? then m.stop else Looking(w.pc) && w.seenAt == log.bumps && !StopBumped(c))
    && (w.pc.LoadN? ==> w.job == Some(log.serial))
    && (w.pc.FetchNext? || w.pc.RunJob? || w.pc.Record? ==> w.job == Some(log.serial) && w.n == n)
    && (w.pc.RunJob? ==> w.pc.id in log.status && log.status[w.pc.id] == Running(i))
    && (w.pc.Record? ==> w.pc.id in log.status && log.status[w.pc.id] == Throwing(i) && i in log.throwers)
    && (i in log.throwers ==>
          && log.throwers[i] in log.status
          && (log.status[log.throwers[i]] == Throwing(i) || log.status[log.throwers[i]] == Threw))
    && (Open(c) && (w.pc.Arrive? || i !in log.owing) ==> i in log.throwers || m.next >= n)
  }

  /** A worker that has not answered is at most one increment behind, and awake once the wake is done. */
  ghost predicate OwingOk(log: Log, c: CallerPc, w: Worker) {
    && !w.pc.Exited?
    && (Open(c) || StopBumped(c))
    && (if InBody(w.pc) then w.seenAt == log.bumps && Open(c) else w.seenAt + 1 == log.bumps)
    && (w.pc.CheckStopRun? ==> w.genAt == log.bumps)
    && (w.pc.Asleep? ==> c.Wake? || c.DtorWake?)
  }

  ghost predicate MemoryOk(m: Memory, log: Log, c: CallerPc, n: nat, workers: nat) {
    && m.epoch == log.bumps % EPOCH_MODULUS
    && (m.stop <==> Stopping(c) && !c.DtorStop?)
    && log.owing <= Below(workers)
    && m.arrived == (if c.StoreN? || c.StoreJob? || c.BumpEpoch? then workers
                     else if Open(c) then |log.owing| else 0)
    && (!Open(c) && !StopBumped(c) ==> log.owing == {})
    && m.job == (if c.BumpEpoch? || Open(c) || c.ClearJob? then Some(log.serial) else None)
    && (c.StoreJob? || c.BumpEpoch? || Open(c) ==> m.jobN == n)
    && (c.StoreArrived? || c.StoreN? || c.StoreJob? || c.BumpEpoch? ==> m.next == 1)
    && (!c.Idle? && !Stopping(c) ==> n >= 2 && workers >= 1)
  }

  /** Whether `id` has been handed out once next_ has reached `next`. */
  predicate Claimed(c: CallerPc, next: nat, n: nat, id: nat) {
    if id == 0 then !c.Wake? else id < next && id < n
  }

  ghost predicate LogShape(m: Memory, log: Log, c: CallerPc, n: nat, workers: nat) {
    && (forall id :: log.ran[id] == if id in log.status then 1 else 0)
    && (Preparing(c) || c.BumpEpoch? ==> log.status == map[] && log.recorded == [] && log.throwers == map[])
    && (c.ClearError? || c.Idle? || Stopping(c) ==> m.error == None)
    && (Open(c) || Closing(c) ==>
          m.next >= 1 && n >= 2 && forall id :: id in log.status <==> Claimed(c, m.next, n, id))
    && (!c.Idle? && !Stopping(c) ==> m.error == if log.recorded == [] then None else Some(log.recorded[0]))
    && (forall id | id in log.recorded :: id in log.status && log.status[id] == Threw)
    && (Closing(c) ==> log.owing == {} && forall i: nat | i < workers :: i in log.throwers || m.next >= n)
  }

  ghost predicate ShapeOk(s: State) {
    LogShape(s.mem, s.log, s.caller, s.n, |s.workers|)
  }

  ghost predicate StatusesOk(s: State) {
    forall id | id in s.log.status :: StatusOk(s, id, s.log.status[id])
  }

  ghost predicate LogOk(s: State) {
    ShapeOk(s) && StatusesOk(s)
  }

  ghost predicate StatusOk(s: State, id: nat, st: Status) {
    match st
    case Running(i) =>
      if i < |s.workers| then s.workers[i].pc == RunJob(id) else i == |s.workers| && id == 0 && s.caller.RunZero?
    case Throwing(i) =>
      if i < |s.workers| then s.workers[i].pc == Record(id) else i == |s.workers| && id == 0 && s.caller.RecordZero?
    case Finished => true
    case Threw => id in s.log.recorded
  }

  /** WorkerOk of worker i in state s. */
  ghost predicate Ok(s: State, i: nat)
    requires i < |s.workers|
  {
    WorkerOk(s.mem, s.log, s.caller, s.n, i, s.workers[i])
  }

  ghost predicate WorkersOk(s: State) {
    forall i: nat | i < |s.workers| :: Ok(s, i)
  }

  ghost predicate SharedOk(s: State) {
    MemoryOk(s.mem, s.log, s.caller, s.n, |s.workers|)
  }

  ghost predicate ZeroOk(s: State) {
    && (s.caller.RunZero? ==> 0 in s.log.status && s.log.status[0] == Running(|s.workers|))
    && (s.caller.RecordZero? ==> 0 in s.log.status && s.log.status[0] == Throwing(|s.workers|))
  }

  /** Holds in every reachable state; see Invariance. */
  ghost predicate Invariant(s: State) {
    SharedOk(s) && LogOk(s) && ZeroOk(s) && WorkersOk(s)
  }

  lemma InitInvariant(w: nat)
    ensures Invariant(Init(w))
  {}

  lemma PrepareKeepsInvariant(s: State)
    requires Invariant(s) && Preparing(s.caller)
    ensures Invariant(DoPrepare(s))
  {
    var t := DoPrepare(s);
    forall i: nat | i < |s.workers| ensures Ok(t, i) {
      assert Ok(s, i);
    }
  }

  lemma CallKeepsShared(s: State, throws: bool)
    requires SharedOk(s) && !s.caller.Idle? && !Preparing(s.caller) && !Stopping(s.caller)
    ensures SharedOk(DoCall(s, throws))
  {}

  lemma BumpKeepsWorker(s: State, throws: bool, i: nat)
    requires SharedOk(s) && s.caller.BumpEpoch? && i < |s.workers| && Ok(s, i)
    ensures Ok(DoCall(s, throws), i)
  {}

  lemma CallWakeKeepsWorker(s: State, throws: bool, i: nat)
    requires SharedOk(s) && s.caller.Wake? && i < |s.workers| && Ok(s, i) && 0 !in s.log.status
    ensures Ok(DoCall(s, throws), i)
  {}

  lemma ZeroKeepsWorker(s: State, throws: bool, i: nat)
    requires SharedOk(s) && (s.caller.RunZero? || s.caller.RecordZero?) && i < |s.workers| && Ok(s, i) && ZeroOk(s)
    ensures Ok(DoCall(s, throws), i)
  {}

  lemma EndKeepsWorker(s: State, throws: bool, i: nat)
    requires SharedOk(s) && (s.caller.SpinArrived? || Closing(s.caller)) && i < |s.workers| && Ok(s, i)
    ensures Ok(DoCall(s, throws), i)
  {}

  predicate Calling(c: CallerPc) {
    !c.Idle? && !Preparing(c) && !Stopping(c)
  }

  lemma CallKeepsWorker(s: State, throws: bool, i: nat)
    requires SharedOk(s) && Calling(s.caller) && i < |s.workers| && Ok(s, i) && ZeroOk(s)
    requires s.caller.Wake? ==> 0 !in s.log.status
    ensures Ok(DoCall(s, throws), i)
  {
    match s.caller
    case BumpEpoch => BumpKeepsWorker(s, throws, i);
    case Wake => CallWakeKeepsWorker(s, throws, i);
    case RunZero => ZeroKeepsWorker(s, throws, i);
    case RecordZero => ZeroKeepsWorker(s, throws, i);
    case _ => EndKeepsWorker(s, throws, i);
  }

  lemma CallKeepsWorkers(s: State, throws: bool)
    requires SharedOk(s) && Calling(s.caller) && ZeroOk(s) && WorkersOk(s)
    requires s.caller.Wake? ==> 0 !in s.log.status
    ensures WorkersOk(DoCall(s, throws))
  {
    var t := DoCall(s, throws);
    forall i: nat | i < |t.workers| ensures Ok(t, i) {
      assert |t.workers| == |s.workers|;
      assert Ok(s, i);
      CallKeepsWorker(s, throws, i);
    }
  }

  lemma WakeKeepsShape(s: State, throws: bool)
    requires ShapeOk(s) && s.caller.Wake?
    ensures ShapeOk(DoCall(s, throws)) && ZeroOk(DoCall(s, throws))
  {
    assert DoCall(s, throws).log.status.Keys == s.log.status.Keys + {0};
  }

  lemma ZeroKeepsShape(s: State, throws: bool)
    requires ShapeOk(s) && ZeroOk(s) && s.caller.RunZero?
    ensures ShapeOk(DoCall(s, throws)) && ZeroOk(DoCall(s, throws))
  {
    assert DoCall(s, throws).log.status.Keys == s.log.status.Keys;
  }

  lemma RecordKeepsShape(s: State, throws: bool)
    requires ShapeOk(s) && ZeroOk(s) && s.caller.RecordZero?
    ensures ShapeOk(DoCall(s, throws)) && ZeroOk(DoCall(s, throws))
  {
    assert DoCall(s, throws).log.status.Keys == s.log.status.Keys;
  }

  lemma ZeroKeepsStatuses(s: State, throws: bool)
    requires StatusesOk(s) && (s.caller.Wake? || s.caller.RunZero? || s.caller.RecordZero?)
    ensures StatusesOk(DoCall(s, throws))
  {
    var t := DoCall(s, throws);
    forall id | id in t.log.status ensures StatusOk(t, id, t.log.status[id]) {
      if id != 0 { assert StatusOk(s, id, s.log.status[id]); }
    }
  }

  lemma CloseKeepsShape(s: State, throws: bool)
    requires SharedOk(s) && ShapeOk(s) && WorkersOk(s)
    requires s.caller.BumpEpoch? || s.caller.SpinArrived? || s.caller.ClearJob? || s.caller.TakeError?
    ensures ShapeOk(DoCall(s, throws)) && ZeroOk(DoCall(s, throws))
  {
    if s.caller.SpinArrived? && s.mem.arrived == 0 {
      forall i: nat | i < |s.workers| ensures i in s.log.throwers || s.mem.next >= s.n {
        assert Ok(s, i);
      }
    }
  }

  lemma CloseKeepsStatuses(s: State, throws: bool)
    requires StatusesOk(s)
    requires s.caller.BumpEpoch? || s.caller.SpinArrived? || s.caller.ClearJob? || s.caller.TakeError?
    ensures StatusesOk(DoCall(s, throws))
  {
    var t := DoCall(s, throws);
    forall id | id in t.log.status ensures StatusOk(t, id, t.log.status[id]) {
      assert StatusOk(s, id, s.log.status[id]);
    }
  }

  lemma CallKeepsInvariant(s: State, throws: bool)
    requires Invariant(s) && Calling(s.caller)
    ensures Invariant(DoCall(s, throws))
  {
    assert s.caller.Wake? ==> 0 !in s.log.status;
    CallKeepsShared(s, throws);
    if s.caller.Wake? {
      WakeKeepsShape(s, throws);
      ZeroKeepsStatuses(s, throws);
    } else if s.caller.RunZero? {
      ZeroKeepsShape(s, throws);
      ZeroKeepsStatuses(s, throws);
    } else if s.caller.RecordZero? {
      RecordKeepsShape(s, throws);
      ZeroKeepsStatuses(s, throws);
    } else {
      CloseKeepsShape(s, throws);
      CloseKeepsStatuses(s, throws);
    }
    CallKeepsWorkers(s, throws);
  }

  lemma NextWord(count: nat)
    ensures (count % EPOCH_MODULUS + 1) % EPOCH_MODULUS == (count + 1) % EPOCH_MODULUS
  {}

  lemma StopBumpKeepsShared(s: State)
    requires SharedOk(s) && s.caller.DtorBump?
    ensures SharedOk(DoStop(s))
  {
    NextWord(s.log.bumps);
  }

  lemma StopKeepsShared(s: State)
    requires SharedOk(s) && Stopping(s.caller) && !s.caller.Destroyed?
    ensures SharedOk(DoStop(s))
  {
    if s.caller.DtorBump? { StopBumpKeepsShared(s); }
  }

  lemma StopKeepsWorkers(s: State)
    requires SharedOk(s) && Stopping(s.caller) && !s.caller.Destroyed? && WorkersOk(s)
    ensures WorkersOk(DoStop(s))
  {
    var t := DoStop(s);
    forall i: nat | i < |t.workers| ensures Ok(t, i) {
      assert Ok(s, i);
    }
  }

  lemma StopKeepsLog(s: State)
    requires LogOk(s) && Stopping(s.caller) && !s.caller.Destroyed?
    ensures LogOk(DoStop(s)) && ZeroOk(DoStop(s))
  {
    var t := DoStop(s);
    forall id | id in t.log.status ensures StatusOk(t, id, t.log.status[id]) {
      assert StatusOk(s, id, s.log.status[id]);
    }
  }

  lemma StopKeepsInvariant(s: State)
    requires Invariant(s) && Stopping(s.caller) && !s.caller.Destroyed?
    ensures Invariant(DoStop(s))
  {
    StopKeepsShared(s);
    StopKeepsWorkers(s);
    StopKeepsLog(s);
  }

  /** The state after worker i takes one step. */
  function Worked(s: State, i: nat, throws: bool): State
    requires i < |s.workers| && CanWork(s.workers[i].pc)
  {
    if Looking(s.workers[i].pc) then
      var (w, owing) := DoLook(s.mem, s.log, i, s.workers[i]);
      s.(workers := s.workers[i := w], log := s.log.(owing := owing))
    else
      var (m, w, log) := DoJob(s.mem, s.log, i, s.workers[i], throws);
      s.(mem := m, workers := s.workers[i := w], log := log)
  }

  lemma LookKeepsShared(s: State, i: nat)
    requires i < |s.workers| && CanWork(s.workers[i].pc) && Looking(s.workers[i].pc)
    requires SharedOk(s) && Ok(s, i)
    ensures SharedOk(Worked(s, i, false))
  {}

  lemma LookKeepsWorkers(s: State, i: nat)
    requires i < |s.workers| && CanWork(s.workers[i].pc) && Looking(s.workers[i].pc)
    requires SharedOk(s) && WorkersOk(s)
    ensures WorkersOk(Worked(s, i, false))
  {
    var t := Worked(s, i, false);
    assert Ok(s, i);
    forall j: nat | j < |t.workers| ensures Ok(t, j) {
      assert Ok(s, j);
    }
  }

  lemma LookKeepsLog(s: State, i: nat)
    requires i < |s.workers| && CanWork(s.workers[i].pc) && Looking(s.workers[i].pc)
    requires LogOk(s) && ZeroOk(s)
    ensures LogOk(Worked(s, i, false)) && ZeroOk(Worked(s, i, false))
  {
    var t := Worked(s, i, false);
    forall id | id in t.log.status ensures StatusOk(t, id, t.log.status[id]) {
      assert StatusOk(s, id, s.log.status[id]);
    }
  }

  lemma LookKeepsInvariant(s: State, i: nat)
    requires i < |s.workers| && CanWork(s.workers[i].pc) && Looking(s.workers[i].pc)
    requires Invariant(s)
    ensures Invariant(Worked(s, i, false))
  {
    assert Ok(s, i);
    LookKeepsShared(s, i);
    LookKeepsWorkers(s, i);
    LookKeepsLog(s, i);
  }

  lemma JobKeepsShared(s: State, i: nat, throws: bool)
    requires i < |s.workers| && CanWork(s.workers[i].pc) && !Looking(s.workers[i].pc)
    requires SharedOk(s) && Ok(s, i)
    ensures SharedOk(Worked(s, i, throws))
  {}

  /** Taking, running and recording an id, as opposed to answering. */
  predicate AtAnId(pc: WorkerPc) {
    pc.FetchNext? || pc.RunJob? || pc.Record?
  }

  lemma IdKeepsSelf(s: State, i: nat, throws: bool)
    requires i < |s.workers| && AtAnId(s.workers[i].pc)
    requires SharedOk(s) && Ok(s, i)
    requires s.workers[i].pc.FetchNext? && s.mem.next < s.n ==> s.mem.next !in s.log.status
    ensures Ok(Worked(s, i, throws), i)
  {}

  lemma JobKeepsSelf(s: State, i: nat, throws: bool)
    requires i < |s.workers| && CanWork(s.workers[i].pc) && !Looking(s.workers[i].pc)
    requires SharedOk(s) && Ok(s, i)
    requires s.workers[i].pc.FetchNext? && s.mem.next < s.n ==> s.mem.next !in s.log.status
    ensures Ok(Worked(s, i, throws), i)
  {
    if AtAnId(s.workers[i].pc) { IdKeepsSelf(s, i, throws); }
  }

  lemma IdKeepsOther(s: State, i: nat, throws: bool, j: nat)
    requires i < |s.workers| && AtAnId(s.workers[i].pc)
    requires SharedOk(s) && Ok(s, i) && j < |s.workers| && j != i && Ok(s, j)
    requires s.workers[i].pc.FetchNext? && s.mem.next < s.n ==> s.mem.next !in s.log.status
    ensures Ok(Worked(s, i, throws), j)
  {}

  lemma JobKeepsOther(s: State, i: nat, throws: bool, j: nat)
    requires i < |s.workers| && CanWork(s.workers[i].pc) && !Looking(s.workers[i].pc)
    requires SharedOk(s) && Ok(s, i) && j < |s.workers| && j != i && Ok(s, j)
    requires s.workers[i].pc.FetchNext? && s.mem.next < s.n ==> s.mem.next !in s.log.status
    ensures Ok(Worked(s, i, throws), j)
  {
    if AtAnId(s.workers[i].pc) { IdKeepsOther(s, i, throws, j); }
  }

  lemma JobKeepsWorkers(s: State, i: nat, throws: bool)
    requires i < |s.workers| && CanWork(s.workers[i].pc) && !Looking(s.workers[i].pc)
    requires SharedOk(s) && WorkersOk(s)
    requires s.workers[i].pc.FetchNext? && s.mem.next < s.n ==> s.mem.next !in s.log.status
    ensures WorkersOk(Worked(s, i, throws))
  {
    var t := Worked(s, i, throws);
    assert Ok(s, i);
    forall j: nat | j < |t.workers| ensures Ok(t, j) {
      assert |t.workers| == |s.workers|;
      assert Ok(s, j);
      if i == j { JobKeepsSelf(s, i, throws); } else { JobKeepsOther(s, i, throws, j); }
    }
  }

  lemma StartedOnce(ran: multiset<nat>, status: map<nat, Status>, id: nat, st: Status)
    requires id !in status && forall x :: ran[x] == if x in status then 1 else 0
    ensures forall x :: (ran + multiset{id})[x] == if x in status[id := st] then 1 else 0
  {}

  lemma StillRecorded(recorded: seq<nat>, status: map<nat, Status>, id: nat, st: Status)
    requires id !in status && forall x | x in recorded :: x in status && status[x] == Threw
    ensures forall x | x in recorded :: x in status[id := st] && status[id := st][x] == Threw
  {}

  lemma TakeKeepsShape(m: Memory, log: Log, log': Log, c: CallerPc, n: nat, workers: nat, i: nat)
    requires LogShape(m, log, c, n, workers) && Open(c) && m.next < n
    requires log' == log.(ran := log.ran + multiset{m.next}, status := log.status[m.next := Running(i)])
    ensures LogShape(m.(next := m.next + 1), log', c, n, workers)
  {
    StartedOnce(log.ran, log.status, m.next, Running(i));
    StillRecorded(log.recorded, log.status, m.next, Running(i));
  }

  lemma ClaimKeepsShape(s: State, i: nat, throws: bool)
    requires i < |s.workers| && s.workers[i].pc.FetchNext?
    requires s.workers[i].n == s.n && Open(s.caller) && ShapeOk(s) && ZeroOk(s)
    ensures ShapeOk(Worked(s, i, throws)) && ZeroOk(Worked(s, i, throws))
  {
    if s.mem.next < s.n {
      TakeKeepsShape(s.mem, s.log, Worked(s, i, throws).log, s.caller, s.n, |s.workers|, i);
    }
  }

  lemma ClaimKeepsStatuses(s: State, i: nat, throws: bool)
    requires i < |s.workers| && s.workers[i].pc.FetchNext?
    requires StatusesOk(s)
    ensures StatusesOk(Worked(s, i, throws))
  {
    var t := Worked(s, i, throws);
    forall id | id in t.log.status ensures StatusOk(t, id, t.log.status[id]) {
      if id in s.log.status { assert StatusOk(s, id, s.log.status[id]); }
    }
  }

  lemma CaughtKeepsShape(s: State, i: nat, throws: bool)
    requires i < |s.workers| && s.workers[i].pc.Record?
    requires SharedOk(s) && Ok(s, i) && ShapeOk(s) && ZeroOk(s)
    ensures ShapeOk(Worked(s, i, throws)) && ZeroOk(Worked(s, i, throws))
  {
    assert Worked(s, i, throws).log.status.Keys == s.log.status.Keys;
  }

  lemma RunKeepsShape(s: State, i: nat, throws: bool)
    requires i < |s.workers| && (s.workers[i].pc.RunJob? || s.workers[i].pc.Record?)
    requires SharedOk(s) && Ok(s, i) && ShapeOk(s) && ZeroOk(s)
    ensures ShapeOk(Worked(s, i, throws)) && ZeroOk(Worked(s, i, throws))
  {
    if s.workers[i].pc.Record? {
      CaughtKeepsShape(s, i, throws);
    } else {
      assert Worked(s, i, throws).log.status.Keys == s.log.status.Keys;
    }
  }

  lemma RunKeepsStatuses(s: State, i: nat, throws: bool)
    requires i < |s.workers| && (s.workers[i].pc.RunJob? || s.workers[i].pc.Record?)
    requires StatusesOk(s) && Ok(s, i)
    ensures StatusesOk(Worked(s, i, throws))
  {
    var t := Worked(s, i, throws);
    forall id | id in t.log.status ensures StatusOk(t, id, t.log.status[id]) {
      assert StatusOk(s, id, s.log.status[id]);
    }
  }

  lemma QuietKeepsLog(s: State, i: nat, throws: bool)
    requires i < |s.workers| && CanWork(s.workers[i].pc) && !Looking(s.workers[i].pc)
    requires !s.workers[i].pc.RunJob? && !s.workers[i].pc.Record? && !s.workers[i].pc.FetchNext?
    requires LogOk(s) && ZeroOk(s)
    ensures LogOk(Worked(s, i, throws)) && ZeroOk(Worked(s, i, throws))
  {
    var t := Worked(s, i, throws);
    forall id | id in t.log.status ensures StatusOk(t, id, t.log.status[id]) {
      assert StatusOk(s, id, s.log.status[id]);
    }
  }

  lemma JobKeepsInvariant(s: State, i: nat, throws: bool)
    requires i < |s.workers| && CanWork(s.workers[i].pc) && !Looking(s.workers[i].pc)
    requires Invariant(s)
    ensures Invariant(Worked(s, i, throws))
  {
    assert Ok(s, i);
    assert s.workers[i].pc.FetchNext? && s.mem.next < s.n ==> s.mem.next !in s.log.status;
    JobKeepsShared(s, i, throws);
    JobKeepsWorkers(s, i, throws);
    if s.workers[i].pc.FetchNext? {
      ClaimKeepsShape(s, i, throws);
      ClaimKeepsStatuses(s, i, throws);
    } else if s.workers[i].pc.RunJob? || s.workers[i].pc.Record? {
      RunKeepsShape(s, i, throws);
      RunKeepsStatuses(s, i, throws);
    } else {
      QuietKeepsLog(s, i, throws);
    }
  }

  lemma WakeKeepsInvariant(s: State, i: nat)
    requires i < |s.workers| && s.workers[i].pc == Asleep
    requires Invariant(s)
    ensures Invariant(Do(s, SpuriousWake(i)))
  {
    var t := Do(s, SpuriousWake(i));
    forall j: nat | j < |t.workers| ensures Ok(t, j) {
      assert Ok(s, j);
    }
    forall id | id in t.log.status ensures StatusOk(t, id, t.log.status[id]) {
      assert StatusOk(s, id, s.log.status[id]);
    }
  }

  lemma BeginKeepsInvariant(s: State, n: nat)
    requires Invariant(s) && Enabled(s, Begin(n))
    ensures Invariant(Do(s, Begin(n)))
  {
    forall i: nat | i < |s.workers| ensures Ok(Do(s, Begin(n)), i) { assert Ok(s, i); }
  }

  lemma DestroyKeepsInvariant(s: State)
    requires Invariant(s) && Enabled(s, Destroy)
    ensures Invariant(Do(s, Destroy))
  {
    forall i: nat | i < |s.workers| ensures Ok(Do(s, Destroy), i) { assert Ok(s, i); }
    forall id | id in s.log.status ensures StatusOk(Do(s, Destroy), id, s.log.status[id]) {
      assert StatusOk(s, id, s.log.status[id]);
    }
  }

  lemma StepKeepsInvariant(s: State, step: Step)
    requires Invariant(s) && Enabled(s, step)
    ensures Invariant(Do(s, step))
  {
    match step
    case Begin(n) => BeginKeepsInvariant(s, n);
    case Caller(throws) =>
      if Preparing(s.caller) {
        PrepareKeepsInvariant(s);
      } else if Stopping(s.caller) {
        StopKeepsInvariant(s);
      } else {
        CallKeepsInvariant(s, throws);
      }
    case Destroy => DestroyKeepsInvariant(s);
    case Work(i, throws) =>
      if Looking(s.workers[i].pc) {
        LookKeepsInvariant(s, i);
        assert Worked(s, i, false) == Worked(s, i, throws);
      } else {
        JobKeepsInvariant(s, i, throws);
      }
    case SpuriousWake(i) => WakeKeepsInvariant(s, i);
  }

  // ---------------------------------------------------------------- safety over whole runs

  lemma RunKeepsInvariant(s: State, steps: seq<Step>)
    requires IsRun(s, steps) && Invariant(s)
    ensures Invariant(After(s, steps))
    decreases |steps|
  {
    if steps != [] {
      StepKeepsInvariant(s, steps[0]);
      RunKeepsInvariant(Do(s, steps[0]), steps[1..]);
    }
  }

  lemma Invariance(w: nat, steps: seq<Step>)
    requires IsRun(Init(w), steps)
    ensures Invariant(After(Init(w), steps))
  {
    InitInvariant(w);
    RunKeepsInvariant(Init(w), steps);
  }

  /** At every moment of every run, no id of the current call has been started twice. */
  lemma AtMostOnce(w: nat, steps: seq<Step>, id: nat)
    requires IsRun(Init(w), steps)
    ensures After(Init(w), steps).log.ran[id] <= 1
  {
    Invariance(w, steps);
  }

  ghost predicate Ended(log: Log, id: nat) {
    id in log.status && (log.status[id] == Finished || log.status[id] == Threw)
  }

  /** What a call to parallel_for has achieved when it is about to return. Only ids below n ran, each
      once, and all that started have ended. If some worker caught no exception, every id ran. The
      exception returned is the first one recorded, and there is one exactly when a job threw. */
  ghost predicate CallResult(s: State) {
    var m, log := s.mem, s.log;
    && (forall id: nat :: log.ran[id] == if id in log.status then 1 else 0)
    && (forall id: nat | id in log.status :: id < s.n && Ended(log, id))
    && ((exists i: nat :: i < |s.workers| && i !in log.throwers) ==>
          forall id: nat | id < s.n :: id in log.status)
    && (m.error.Some? <==> exists id: nat :: id in log.status && log.status[id] == Threw)
    && (m.error.Some? ==> log.recorded != [] && m.error == Some(log.recorded[0]))
    && (m.error.None? ==> forall id: nat | id < s.n :: id in log.status && log.status[id] == Finished)
  }

  lemma ExactlyOnceAtReturn(w: nat, steps: seq<Step>)
    requires IsRun(Init(w), steps)
    requires After(Init(w), steps).caller == TakeError
    ensures CallResult(After(Init(w), steps))
  {
    Invariance(w, steps);
    CallResultHolds(After(Init(w), steps));
  }

  lemma CallResultHolds(s: State)
    requires Invariant(s) && s.caller == TakeError
    ensures CallResult(s)
  {
    var log := s.log;
    forall id: nat | id in log.status ensures id < s.n && Ended(log, id) {
      assert Claimed(s.caller, s.mem.next, s.n, id);
      assert StatusOk(s, id, log.status[id]);
      NobodyInBody(s);
    }
    if i: nat :| i < |s.workers| && i !in log.throwers {
      forall id: nat | id < s.n ensures id in log.status {
        assert Claimed(s.caller, s.mem.next, s.n, id);
      }
    }
    if s.mem.error.Some? {
      assert log.recorded[0] in log.recorded;
    } else {
      forall id | id in log.status ensures log.status[id] == Finished {
        assert StatusOk(s, id, log.status[id]);
      }
      assert Ok(s, 0);
      assert 0 < |s.workers| && 0 !in log.throwers;
    }
  }

  /** Outside a call no worker is between noticing an epoch and answering it. */
  lemma NobodyInBody(s: State)
    requires Invariant(s) && !Open(s.caller)
    ensures forall i: nat | i < |s.workers| :: !InBody(s.workers[i].pc) && !HoldsJob(s.workers[i])
  {
    forall i: nat | i < |s.workers| ensures !InBody(s.workers[i].pc) && !HoldsJob(s.workers[i]) {
      assert Ok(s, i);
    }
  }

  /** No worker dereferences job_ except for the current call, and only while that call is open:
      the function the caller passed cannot be touched after parallel_for returns. */
  lemma JobOnlyWhileOpen(w: nat, steps: seq<Step>, i: nat)
    requires IsRun(Init(w), steps) && i < w
    ensures var s := After(Init(w), steps);
      |s.workers| == w && (HoldsJob(s.workers[i]) ==> Open(s.caller) && s.workers[i].job == Some(s.log.serial))
  {
    Invariance(w, steps);
    WorkerCount(Init(w), steps);
    assert Ok(After(Init(w), steps), i);
  }

  lemma WorkerCount(s: State, steps: seq<Step>)
    requires IsRun(s, steps)
    ensures |After(s, steps).workers| == |s.workers|
    decreases |steps|
  {
    if steps != [] {
      WorkerCount(Do(s, steps[0]), steps[1..]);
    }
  }

  /** A live worker is at most one increment behind, so comparing the 32-bit words tells exactly
      whether it is behind, however often epoch_ has wrapped. */
  lemma EpochWordsAreExact(w: nat, steps: seq<Step>, i: nat)
    requires IsRun(Init(w), steps) && i < w
    ensures var s := After(Init(w), steps);
      && |s.workers| == w
      && (!s.workers[i].pc.Exited? ==>
            && s.workers[i].seenAt <= s.log.bumps <= s.workers[i].seenAt + 1
            && (s.workers[i].seen == s.mem.epoch <==> s.workers[i].seenAt == s.log.bumps))
  {
    Invariance(w, steps);
    WorkerCount(Init(w), steps);
    assert Ok(After(Init(w), steps), i);
  }

  // ---------------------------------------------------------------- progress

  /** An upper bound on the steps a worker that owes an answer can still take, apart from jobs it
      has yet to claim. */
  function Rank(pc: WorkerPc): nat {
    match pc
    case Exited => 0
    case Arrive => 1
    case Record(_) => 2
    case FetchNext => 2
    case RunJob(_) => 3
    case LoadN => 4
    case LoadJob => 5
    case CheckStopRun => 6
    case LoadEpoch => 7
    case Reload => 7
    case Spin(_) => 8
    case EnterWait => 8
    case CheckStopIdle => 9
    case Asleep => 9
  }

  ghost function SumRank(ws: seq<Worker>, owing: set<nat>): nat {
    if ws == [] then 0
    else SumRank(ws[..|ws| - 1], owing) + if |ws| - 1 in owing then Rank(ws[|ws| - 1].pc) else 0
  }

  lemma {:induction false} SumRankUpdate(ws: seq<Worker>, owing: set<nat>, i: nat, w: Worker, owing': set<nat>)
    requires i < |ws| && forall j: nat | j < |ws| && j != i :: j in owing <==> j in owing'
    ensures SumRank(ws[i := w], owing') + (if i in owing then Rank(ws[i].pc) else 0)
         == SumRank(ws, owing) + (if i in owing' then Rank(w.pc) else 0)
    decreases |ws|
  {
    var k := |ws| - 1;
    if i == k {
      assert ws[i := w][..k] == ws[..k];
      SumRankSame(ws[..k], owing, owing');
    } else {
      assert ws[i := w][..k] == ws[..k][i := w];
      SumRankUpdate(ws[..k], owing, i, w, owing');
    }
  }

  lemma SumRankSame(ws: seq<Worker>, owing: set<nat>, owing': set<nat>)
    requires forall i: nat | i < |ws| :: i in owing <==> i in owing'
    ensures SumRank(ws, owing) == SumRank(ws, owing')
  {
    if ws != [] {
      SumRankSame(ws[..|ws| - 1], owing, owing');
    }
  }

  lemma SumRankWake(ws: seq<Worker>, owing: set<nat>)
    ensures SumRank(WakeAll(ws), owing) <= SumRank(ws, owing)
  {
    if ws != [] {
      var k := |ws| - 1;
      assert WakeAll(ws)[..k] == WakeAll(ws[..k]);
      SumRankWake(ws[..k], owing);
    }
  }

  /** The steps that remain before every worker has answered. */
  ghost function Measure(s: State): nat {
    3 * Unclaimed(s.mem.next, s.n) + SumRank(s.workers, s.log.owing)
  }

  function Unclaimed(next: nat, n: nat): nat {
    if next < n then n - next else 0
  }

  /** Between an increment of epoch_ and the moment its answers have been collected. */
  predicate Waiting(c: CallerPc) {
    Open(c) || c.DtorWake? || c.DtorJoin?
  }

  predicate Answers(s: State, step: Step) {
    match step
    case Work(i, _) => i in s.log.owing
    case SpuriousWake(i) => i in s.log.owing
    case _ => false
  }

  lemma LookDecreases(s: State, i: nat)
    requires i < |s.workers| && CanWork(s.workers[i].pc) && Looking(s.workers[i].pc)
    requires SharedOk(s) && Ok(s, i) && i in s.log.owing
    ensures Measure(Worked(s, i, false)) < Measure(s)
  {
    var (w, owing) := DoLook(s.mem, s.log, i, s.workers[i]);
    SumRankUpdate(s.workers, s.log.owing, i, w, owing);
  }

  lemma JobLowersRank(s: State, i: nat, throws: bool)
    requires i < |s.workers| && CanWork(s.workers[i].pc) && !Looking(s.workers[i].pc)
    requires SharedOk(s) && Ok(s, i)
    ensures var (m, w, log) := DoJob(s.mem, s.log, i, s.workers[i], throws);
      && (forall j: nat | j != i :: j in s.log.owing <==> j in log.owing)
      && 3 * Unclaimed(m.next, s.n) + (if i in log.owing then Rank(w.pc) else 0)
         < 3 * Unclaimed(s.mem.next, s.n) + if i in s.log.owing then Rank(s.workers[i].pc) else 0
  {}

  lemma JobDecreases(s: State, i: nat, throws: bool)
    requires i < |s.workers| && CanWork(s.workers[i].pc) && !Looking(s.workers[i].pc)
    requires SharedOk(s) && Ok(s, i)
    ensures Measure(Worked(s, i, throws)) < Measure(s)
  {
    JobLowersRank(s, i, throws);
    var (m, w, log) := DoJob(s.mem, s.log, i, s.workers[i], throws);
    SumRankUpdate(s.workers, s.log.owing, i, w, log.owing);
  }

  /** Idle polling by workers that have answered changes nothing that matters. */
  lemma IdleKeepsMeasure(s: State, step: Step)
    requires Invariant(s) && Enabled(s, step) && (step.Work? || step.SpuriousWake?) && !Answers(s, step)
    ensures Measure(Do(s, step)) == Measure(s)
  {
    var i := step.i;
    assert Ok(s, i);
    match step
    case Work(_, throws) =>
      var (w, owing) := DoLook(s.mem, s.log, i, s.workers[i]);
      assert owing == s.log.owing;
      SumRankUpdate(s.workers, s.log.owing, i, w, owing);
    case SpuriousWake(_) =>
      SumRankUpdate(s.workers, s.log.owing, i, s.workers[i].(pc := LoadEpoch), s.log.owing);
  }

  lemma CallerKeepsMeasure(s: State, throws: bool)
    requires Enabled(s, Caller(throws)) && Waiting(s.caller)
    ensures Measure(Do(s, Caller(throws))) <= Measure(s)
  {
    SumRankWake(s.workers, s.log.owing);
  }

  lemma AnswerDecreases(s: State, i: nat, throws: bool)
    requires Invariant(s) && Enabled(s, Work(i, throws)) && i in s.log.owing
    ensures Measure(Worked(s, i, throws)) < Measure(s)
  {
    assert Ok(s, i);
    if Looking(s.workers[i].pc) {
      LookDecreases(s, i);
      assert Worked(s, i, false) == Worked(s, i, throws);
    } else {
      JobDecreases(s, i, throws);
    }
  }

  /** Each step of a worker that owes an answer brings the end nearer; no other step moves it away. */
  lemma StepMeasure(s: State, step: Step)
    requires Invariant(s) && Enabled(s, step) && Waiting(s.caller)
    ensures Answers(s, step) ==> Measure(Do(s, step)) < Measure(s)
    ensures Measure(Do(s, step)) <= Measure(s)
  {
    match step
    case Begin(_) =>
    case Destroy =>
    case Caller(throws) => CallerKeepsMeasure(s, throws);
    case Work(i, throws) =>
      if i !in s.log.owing { IdleKeepsMeasure(s, step); } else { AnswerDecreases(s, i, throws); }
    case SpuriousWake(i) =>
      if i !in s.log.owing {
        IdleKeepsMeasure(s, step);
      } else {
        SumRankUpdate(s.workers, s.log.owing, i, s.workers[i].(pc := LoadEpoch), s.log.owing);
      }
  }

  /** How many steps of the run are taken by workers that still owe an answer. */
  ghost function AnswerSteps(s: State, steps: seq<Step>): nat
    requires IsRun(s, steps)
    decreases |steps|
  {
    if steps == [] then 0
    else (if Answers(s, steps[0]) then 1 else 0) + AnswerSteps(Do(s, steps[0]), steps[1..])
  }

  ghost predicate StaysWaiting(s: State, steps: seq<Step>)
    requires IsRun(s, steps)
    decreases |steps|
  {
    Waiting(s.caller) && (steps != [] ==> StaysWaiting(Do(s, steps[0]), steps[1..]))
  }

  /** While the caller waits, the workers can take only boundedly many useful steps, whatever the
      schedule and however many spurious wake-ups and idle polls are mixed in. */
  lemma {:induction false} AnswersAreBounded(s: State, steps: seq<Step>)
    requires Invariant(s) && IsRun(s, steps) && StaysWaiting(s, steps)
    ensures AnswerSteps(s, steps) + Measure(After(s, steps)) <= Measure(s)
    decreases |steps|
  {
    if steps != [] {
      StepKeepsInvariant(s, steps[0]);
      StepMeasure(s, steps[0]);
      AnswersAreBounded(Do(s, steps[0]), steps[1..]);
    }
  }

  /** And they are never stuck: as long as an answer is missing, a worker that owes one is awake once
      the caller has issued its wake. So the spin on arrived_ and the join both end. */
  lemma NeverStuck(w: nat, steps: seq<Step>)
    requires IsRun(Init(w), steps)
    ensures var s := After(Init(w), steps);
      && (s.caller.SpinArrived? && s.mem.arrived != 0 ==>
            exists i: nat :: i in s.log.owing && Enabled(s, Work(i, false)))
      && (s.caller.DtorJoin? && !Enabled(s, Caller(false)) ==>
            exists i: nat :: i in s.log.owing && Enabled(s, Work(i, false)))
  {
    Invariance(w, steps);
    var s := After(Init(w), steps);
    if s.caller.SpinArrived? && s.mem.arrived != 0 {
      var i :| i in s.log.owing;
      assert i in Below(|s.workers|);
      assert Ok(s, i);
      assert Enabled(s, Work(i, false));
    }
    if s.caller.DtorJoin? && !Enabled(s, Caller(false)) {
      var i: nat :| i < |s.workers| && s.workers[i].pc != Exited;
      assert Ok(s, i);
      assert i in s.log.owing && Enabled(s, Work(i, false));
    }
  }
}
