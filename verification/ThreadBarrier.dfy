/** The thread pool as an interleaving of steps on shared memory: one caller, any number of workers,
    one mutex and the two sets of threads that wait on its condition variables. Every step does at
    most one access to shared memory. */
module ThreadBarrier {
  import opened Arith
  import opened WorkSplit

  /** Turns of a wait loop before a thread parks. */
  const SPIN_BUDGET: nat := 8192

  /** The generation counter is a 64-bit word. */
  const WORD: nat := 0x1_0000_0000_0000_0000

  type pos = x: nat | x > 0 witness 1

  datatype Task = Task(fn: int, ctx: int, n: nat, align: pos)

  /** One call of a task's function. */
  datatype Call = Call(task: Task, begin: nat, end: nat)

  datatype WorkerPc =
    | SpinGen(k: nat) | SpinStop(k: nat)
    | ParkLock | ParkStop | ParkGen | ParkWait | Parked
    | ReadGen | ReadUnlock | CheckStop
    | ReadTask | Running(task: Task) | Leave
    | DoneLock | DoneNotify | DoneUnlock
    | Exited

  datatype Worker = Worker(pc: WorkerPc, seen: nat, log: seq<Call>)

  datatype CallerPc =
    | Idle | Direct(t: Task)
    | PubLock(t: Task) | PubTask(t: Task) | PubActive(t: Task) | PubGeneration(t: Task)
    | PubUnlock(t: Task) | PubNotify(t: Task) | OwnRange(t: Task)
    | JoinSpin(k: nat) | JoinLock | JoinCheck | JoinWait | JoinParked | JoinUnlock
    | StopLock | StopSet | StopUnlock | StopNotify | JoinThreads | Destroyed

  datatype Owner = Nobody | Caller | Thread(i: nat)

  /** `calls`, `published` and the logs record the history; the other components are the pool's. */
  datatype State = State(
    count: nat, task: Task, generation: nat, active: nat, stop: bool, lock: Owner,
    caller: CallerPc, workers: seq<Worker>,
    calls: seq<Task>, published: nat, callerLog: seq<Call>)

  // ---- the parts of a call ----------------------------------------------------------------------

  function RunRange(t: Task, idx: nat, count: nat): seq<Call>
    requires count > 0
  {
    var (begin, end) := Split(idx, count, t.n, t.align);
    if begin < end then [Call(t, begin, end)] else []
  }

  /** The caller runs the whole range itself. */
  predicate RunsAlone(t: Task, count: nat) {
    count == 1 || t.n <= t.align
  }

  /** What a call makes a thread run. */
  function Part(t: Task, idx: nat, count: nat): seq<Call>
    requires count > 0
  {
    if RunsAlone(t, count) then
      if idx == 0 then [Call(t, 0, t.n)] else []
    else RunRange(t, idx, count)
  }

  /** What a thread has run when a list of calls has been served. */
  function Served(calls: seq<Task>, idx: nat, count: nat): seq<Call>
    requires count > 0
  {
    if calls == [] then []
    else Served(calls[..|calls| - 1], idx, count) + Part(calls[|calls| - 1], idx, count)
  }

  lemma ServedNext(calls: seq<Task>, t: Task, idx: nat, count: nat)
    requires count > 0
    ensures Served(calls + [t], idx, count) == Served(calls, idx, count) + Part(t, idx, count)
    ensures (calls + [t])[..|calls|] == calls
  {
    assert (calls + [t])[..|calls|] == calls;
  }

  ghost predicate Touches(t: Task, idx: nat, count: nat, k: nat)
    requires count > 0
  {
    |Part(t, idx, count)| == 1 && Part(t, idx, count)[0].begin <= k < Part(t, idx, count)[0].end
  }

  ghost predicate TouchedBySome(t: Task, count: nat, k: nat)
    requires count > 0
  {
    exists idx: nat :: idx < count && Touches(t, idx, count, k)
  }

  /** What a thread has run after one more call: the whole range, its piece of it, or nothing. */
  lemma ServedIs(calls: seq<Task>, t: Task, idx: nat, count: nat)
    requires count > 0
    ensures Served([], idx, count) == []
    ensures var (begin, end) := Split(idx, count, t.n, t.align);
      Served(calls + [t], idx, count) == Served(calls, idx, count)
        + if count == 1 || t.n <= t.align then (if idx == 0 then [Call(t, 0, t.n)] else [])
          else if begin < end then [Call(t, begin, end)] else []
  {
    hide Split;
    assert (calls + [t])[..|calls|] == calls;
  }

  /** Together the threads' parts of a call hold every index below n exactly once. */
  lemma PartsPartition(t: Task, count: nat)
    requires count > 0
    ensures forall idx: nat :: |Part(t, idx, count)| <= 1
    ensures forall k: nat :: k < t.n ==> TouchedBySome(t, count, k)
    ensures forall k: nat, i: nat, j: nat :: Touches(t, i, count, k) && Touches(t, j, count, k) ==> i == j
    ensures forall idx: nat, k: nat :: Touches(t, idx, count, k) ==> k < t.n
  {
    hide Split;
    SplitPartitions(count, t.n, t.align);
    forall k: nat | k < t.n ensures TouchedBySome(t, count, k) {
      if RunsAlone(t, count) {
        assert Touches(t, 0, count, k);
      } else {
        assert Covered(k, count, t.n, t.align);
        var idx: nat :| idx < count && Within(k, idx, count, t.n, t.align);
        assert Touches(t, idx, count, k);
      }
    }
    forall k: nat, i: nat, j: nat | Touches(t, i, count, k) && Touches(t, j, count, k) ensures i == j {
      if !RunsAlone(t, count) {
        assert Within(k, i, count, t.n, t.align) && Within(k, j, count, t.n, t.align);
      }
    }
    forall idx: nat, k: nat | Touches(t, idx, count, k) ensures k < t.n {
      assert Split(idx, count, t.n, t.align).1 <= t.n;
    }
  }

  // ---- steps ------------------------------------------------------------------------------------

  predicate Init(s: State) {
    && s.count == |s.workers| + 1 && s.count < WORD
    && s.generation == 0 && s.active == 0 && !s.stop && s.lock == Nobody && s.caller == Idle
    && s.calls == [] && s.published == 0 && s.callerLog == []
    && (forall i :: 0 <= i < |s.workers| ==> s.workers[i] == Worker(SpinGen(0), 0, []))
  }

  datatype Action =
    | Begin(fn: int, ctx: int, n: nat, align: nat)
    | Destroy
    | CallerStep
    | WorkerStep(i: nat)
    | SpuriousWake(i: nat)
    | SpuriousJoin

  predicate CallerReady(s: State) {
    match s.caller
    case Idle => false
    case Destroyed => false
    case JoinParked => false
    case PubLock(_) => s.lock == Nobody
    case JoinLock => s.lock == Nobody
    case StopLock => s.lock == Nobody
    case JoinThreads => forall i :: 0 <= i < |s.workers| ==> s.workers[i].pc.Exited?
    case _ => true
  }

  predicate WorkerReady(s: State, i: nat)
    requires i < |s.workers|
  {
    match s.workers[i].pc
    case Parked => false
    case Exited => false
    case ParkLock => s.lock == Nobody
    case DoneLock => s.lock == Nobody
    case _ => true
  }

  predicate Enabled(s: State, a: Action) {
    match a
    case Begin(_, _, _, _) => s.caller.Idle?
    case Destroy => s.caller.Idle?
    case CallerStep => s.count > 0 && CallerReady(s)
    case WorkerStep(i) => s.count > 0 && i < |s.workers| && WorkerReady(s, i)
    case SpuriousWake(i) => i < |s.workers| && s.workers[i].pc.Parked?
    case SpuriousJoin => s.caller.JoinParked?
  }

  function Wake(w: Worker): Worker {
    if w.pc.Parked? then w.(pc := ParkLock) else w
  }

  function WakeAll(ws: seq<Worker>): (r: seq<Worker>)
    ensures |r| == |ws|
  {
    seq(|ws|, i requires 0 <= i < |ws| => Wake(ws[i]))
  }

  /** Steps of a caller that publishes a task under the lock and wakes the workers. */
  function Publishing(s: State): State
    requires InPublish(s.caller)
  {
    match s.caller
    case PubLock(t) => s.(lock := Caller, caller := PubTask(t))
    case PubTask(t) => s.(task := t, caller := PubActive(t))
    case PubActive(t) => s.(active := |s.workers|, caller := PubGeneration(t))
    case PubGeneration(t) =>
      s.(generation := (s.generation + 1) % WORD, published := s.published + 1, calls := s.calls + [t],
         caller := PubUnlock(t))
    case PubUnlock(t) => s.(lock := Nobody, caller := PubNotify(t))
    case PubNotify(t) => s.(workers := WakeAll(s.workers), caller := OwnRange(t))
  }

  /** Steps of a caller that runs its own range and then waits for the workers. */
  function Joining(s: State): State
    requires s.count > 0 && InJoin(s.caller)
  {
    match s.caller
    case OwnRange(t) => s.(callerLog := s.callerLog + RunRange(t, 0, s.count), caller := JoinSpin(0))
    case JoinSpin(k) =>
      if s.active == 0 then s.(caller := Idle)
      else s.(caller := if k + 1 < SPIN_BUDGET then JoinSpin(k + 1) else JoinLock)
    case JoinLock => s.(lock := Caller, caller := JoinCheck)
    case JoinCheck => s.(caller := if s.active == 0 then JoinUnlock else JoinWait)
    case JoinWait => s.(lock := Nobody, caller := JoinParked)
    case JoinUnlock => s.(lock := Nobody, caller := Idle)
  }

  /** A call the caller serves alone, and the steps of the destructor. */
  function Alone(s: State): State
    requires !InPublish(s.caller) && !InJoin(s.caller) && CallerReady(s)
  {
    match s.caller
    case Direct(t) =>
      s.(calls := s.calls + [t], callerLog := s.callerLog + [Call(t, 0, t.n)], caller := Idle)
    case StopLock => s.(lock := Caller, caller := StopSet)
    case StopSet => s.(stop := true, caller := StopUnlock)
    case StopUnlock => s.(lock := Nobody, caller := StopNotify)
    case StopNotify => s.(workers := WakeAll(s.workers), caller := JoinThreads)
    case JoinThreads => s.(caller := Destroyed)
  }

  predicate InPublish(c: CallerPc) {
    c.PubLock? || c.PubTask? || c.PubActive? || c.PubGeneration? || c.PubUnlock? || c.PubNotify?
  }

  predicate InJoin(c: CallerPc) {
    c.OwnRange? || c.JoinSpin? || c.JoinLock? || c.JoinCheck? || c.JoinWait? || c.JoinUnlock?
  }

  function CallerDoes(s: State): State
    requires s.count > 0 && CallerReady(s)
  {
    if InPublish(s.caller) then Publishing(s)
    else if InJoin(s.caller) then Joining(s)
    else Alone(s)
  }

  function Put(s: State, i: nat, w: Worker): State
    requires i < |s.workers|
  {
    s.(workers := s.workers[i := w])
  }

  /** Steps of a worker that waits for work: spinning on the counter, then parking. */
  function Waiting(s: State, i: nat): State
    requires i < |s.workers| && InWait(s.workers[i].pc)
  {
    var w := s.workers[i];
    match w.pc
    case SpinGen(k) =>
      Put(s, i, if s.generation != w.seen then w.(seen := s.generation, pc := CheckStop) else w.(pc := SpinStop(k)))
    case SpinStop(k) =>
      Put(s, i, w.(pc := if s.stop then CheckStop else if k + 1 < SPIN_BUDGET then SpinGen(k + 1) else ParkLock))
    case ParkLock => Put(s, i, w.(pc := ParkStop)).(lock := Thread(i))
    case ParkStop => Put(s, i, w.(pc := if s.stop then ReadGen else ParkGen))
    case ParkGen => Put(s, i, w.(pc := if s.generation != w.seen then ReadGen else ParkWait))
    case ParkWait => Put(s, i, w.(pc := Parked)).(lock := Nobody)
    case ReadGen => Put(s, i, w.(pc := ReadUnlock, seen := s.generation))
    case ReadUnlock => Put(s, i, w.(pc := CheckStop)).(lock := Nobody)
  }

  /** Steps of a worker that has work or is told to stop. */
  function Working(s: State, i: nat): State
    requires s.count > 0 && i < |s.workers| && InWork(s.workers[i].pc)
  {
    var w := s.workers[i];
    match w.pc
    case CheckStop => Put(s, i, w.(pc := if s.stop then Exited else ReadTask))
    case ReadTask => Put(s, i, w.(pc := Running(s.task)))
    case Running(t) => Put(s, i, w.(pc := Leave, log := w.log + RunRange(t, i + 1, s.count)))
    case Leave =>
      Put(s, i, w.(pc := if s.active == 1 then DoneLock else SpinGen(0))).(active := (s.active + WORD - 1) % WORD)
  }

  /** Steps of the last worker to leave a barrier, which wakes the caller. */
  function Finishing(s: State, i: nat): State
    requires i < |s.workers| && !InWait(s.workers[i].pc) && !InWork(s.workers[i].pc) && WorkerReady(s, i)
  {
    var w := s.workers[i];
    match w.pc
    case DoneLock => Put(s, i, w.(pc := DoneNotify)).(lock := Thread(i))
    case DoneNotify =>
      Put(s, i, w.(pc := DoneUnlock)).(caller := if s.caller.JoinParked? then JoinLock else s.caller)
    case DoneUnlock => Put(s, i, w.(pc := SpinGen(0))).(lock := Nobody)
  }

  predicate InWait(pc: WorkerPc) {
    match pc
    case SpinGen(_) => true
    case SpinStop(_) => true
    case ParkLock => true
    case ParkStop => true
    case ParkGen => true
    case ParkWait => true
    case ReadGen => true
    case ReadUnlock => true
    case _ => false
  }

  predicate InWork(pc: WorkerPc) {
    pc.CheckStop? || pc.ReadTask? || pc.Running? || pc.Leave?
  }

  function WorkerDoes(s: State, i: nat): State
    requires s.count > 0 && i < |s.workers| && WorkerReady(s, i)
  {
    if InWait(s.workers[i].pc) then Waiting(s, i)
    else if InWork(s.workers[i].pc) then Working(s, i)
    else Finishing(s, i)
  }

  function Does(s: State, a: Action): State
    requires Enabled(s, a)
  {
    match a
    case Begin(fn, ctx, n, align) =>
      var t := Task(fn, ctx, n, if align == 0 then 1 else align);
      s.(caller := if RunsAlone(t, s.count) then Direct(t) else PubLock(t))
    case Destroy => s.(caller := StopLock)
    case CallerStep => CallerDoes(s)
    case WorkerStep(i) => WorkerDoes(s, i)
    case SpuriousWake(i) => Put(s, i, Wake(s.workers[i]))
    case SpuriousJoin => s.(caller := JoinLock)
  }
}
