/** What every step of the thread pool keeps, and what a caller can rely on when a call returns. */
module BarrierSafety {
  import opened Arith
  import opened WorkSplit
  import opened ThreadBarrier

  function Counter(published: nat): nat {
    published % WORD
  }

  lemma CounterNext(published: nat)
    ensures Counter(published + 1) == (Counter(published) + 1) % WORD
    ensures Counter(published + 1) != Counter(published)
  {
  }

  predicate Waits(pc: WorkerPc) {
    match pc
    case SpinGen(_) => true
    case SpinStop(_) => true
    case ParkLock => true
    case ParkStop => true
    case ParkGen => true
    case ParkWait => true
    case Parked => true
    case ReadGen => true
    case DoneLock => true
    case DoneNotify => true
    case DoneUnlock => true
    case _ => false
  }

  /** The worker has yet to leave the barrier of the current generation. */
  predicate Pending(w: Worker, generation: nat, stop: bool) {
    if Waits(w.pc) then w.seen != generation else !w.pc.Exited? && !stop
  }

  /** Of those, the workers that have yet to run their range. */
  predicate Owes(w: Worker, generation: nat, stop: bool) {
    Pending(w, generation, stop) && !w.pc.Leave?
  }

  function Mark(w: Worker, generation: nat, stop: bool): int {
    if Pending(w, generation, stop) then 1 else 0
  }

  function Marks(ws: seq<Worker>, generation: nat, stop: bool): (r: seq<int>)
    ensures |r| == |ws|
  {
    seq(|ws|, i requires 0 <= i < |ws| => Mark(ws[i], generation, stop))
  }

  /** No barrier is open. */
  predicate Quiet(c: CallerPc) {
    match c
    case PubUnlock(_) => false
    case PubNotify(_) => false
    case OwnRange(_) => false
    case JoinSpin(_) => false
    case JoinLock => false
    case JoinCheck => false
    case JoinWait => false
    case JoinParked => false
    case _ => true
  }

  predicate WorkerHolds(pc: WorkerPc) {
    pc.ParkStop? || pc.ParkGen? || pc.ParkWait? || pc.ReadGen? || pc.ReadUnlock? || pc.DoneNotify? || pc.DoneUnlock?
  }

  predicate CallerHolds(c: CallerPc) {
    c.PubTask? || c.PubActive? || c.PubGeneration? || c.PubUnlock? || c.JoinCheck? || c.JoinWait? || c.JoinUnlock?
    || c.StopSet? || c.StopUnlock?
  }

  predicate Stopping(c: CallerPc) {
    c.StopUnlock? || c.StopNotify? || c.JoinThreads? || c.Destroyed?
  }

  /** A notification of the workers is still to come. */
  predicate WillNotify(c: CallerPc) {
    c.PubUnlock? || c.PubNotify? || c.StopUnlock? || c.StopNotify?
  }

  predicate WillNotifyCaller(pc: WorkerPc) {
    pc.DoneLock? || pc.DoneNotify?
  }

  predicate SomeoneNotifiesCaller(ws: seq<Worker>) {
    exists i :: 0 <= i < |ws| && WillNotifyCaller(ws[i].pc)
  }

  /** The calls a worker has served: all, or all but the one in progress. */
  function ServedBy(s: State, w: Worker): seq<Task> {
    if Owes(w, s.generation, s.stop) && s.calls != [] then s.calls[..|s.calls| - 1] else s.calls
  }

  predicate WorkerPlace(s: State, i: nat, w: Worker) {
    && (WorkerHolds(w.pc) <==> s.lock == Thread(i))
    && (w.seen == s.generation || (s.published > 0 && w.seen == Counter(s.published - 1)))
    && (!Waits(w.pc) && !w.pc.Exited? ==> w.seen == s.generation)
    && (Quiet(s.caller) ==> !Pending(w, s.generation, s.stop))
    && (w.pc.ParkGen? || w.pc.ReadTask? || w.pc.Running? || w.pc.Leave? ==> !s.stop)
    && (w.pc.ParkWait? ==> !s.stop && w.seen == s.generation)
    && (w.pc.ReadGen? ==> s.stop || w.seen != s.generation)
    && (w.pc.Exited? ==> s.stop)
    && (w.pc.SpinGen? || w.pc.SpinStop? ==> w.pc.k < SPIN_BUDGET)
    && (w.pc.Running? ==> w.pc.task == s.task)
    && (w.pc.Parked? && (s.stop || w.seen != s.generation) ==> WillNotify(s.caller))
  }

  predicate WorkerOk(s: State, i: nat, w: Worker)
    requires s.count > 0
  {
    WorkerPlace(s, i, w) && w.log == Served(ServedBy(s, w), i + 1, s.count)
  }

  predicate WorkersOk(s: State) {
    s.count > 0 && forall i: nat :: i < |s.workers| ==> WorkerOk(s, i, s.workers[i])
  }

  /** The task of a call in progress. */
  predicate CallerTask(s: State)
    requires s.count > 0
  {
    && (s.caller.PubLock? || s.caller.PubTask? || s.caller.PubActive? || s.caller.PubGeneration? ==>
          !RunsAlone(s.caller.t, s.count))
    && (s.caller.Direct? ==> RunsAlone(s.caller.t, s.count))
    && (s.caller.PubActive? || s.caller.PubGeneration? ==> s.task == s.caller.t)
    && (!Quiet(s.caller) ==> s.calls != [] && s.task == s.calls[|s.calls| - 1] && !RunsAlone(s.task, s.count))
    && (s.caller.PubUnlock? || s.caller.PubNotify? || s.caller.OwnRange? ==> s.task == s.caller.t)
  }

  function ServedByCaller(s: State): seq<Task> {
    if (s.caller.PubUnlock? || s.caller.PubNotify? || s.caller.OwnRange?) && s.calls != []
    then s.calls[..|s.calls| - 1] else s.calls
  }

  predicate CallerOk(s: State) {
    && s.count == |s.workers| + 1 && s.count < WORD
    && s.generation == Counter(s.published)
    && (CallerHolds(s.caller) <==> s.lock == Caller)
    && (s.lock.Thread? ==> s.lock.i < |s.workers|)
    && (s.stop <==> Stopping(s.caller))
    && CallerTask(s)
    && s.callerLog == Served(ServedByCaller(s), 0, s.count)
    && (s.caller.JoinSpin? ==> s.caller.k < SPIN_BUDGET)
    && (s.caller.Destroyed? ==> forall i :: 0 <= i < |s.workers| ==> s.workers[i].pc.Exited?)
  }

  /** The count of workers still in the barrier, and the wake-up of a caller parked on it. */
  predicate CountOk(s: State) {
    && s.active == Sum(Marks(s.workers, s.generation, s.stop)) + (if s.caller.PubGeneration? then |s.workers| else 0)
    && ((s.caller.JoinWait? || s.caller.JoinParked?) && s.active == 0 ==> SomeoneNotifiesCaller(s.workers))
  }

  predicate Inv(s: State) {
    CallerOk(s) && WorkersOk(s) && CountOk(s)
  }

  // ---- counting ---------------------------------------------------------------------------------

  lemma {:induction false} SumOfNone(xs: seq<int>)
    requires forall i :: 0 <= i < |xs| ==> xs[i] == 0
    ensures Sum(xs) == 0
  {
    if xs != [] {
      SumOfNone(xs[1..]);
    }
  }

  lemma {:induction false} SumOfOnes(xs: seq<int>)
    requires forall i :: 0 <= i < |xs| ==> xs[i] == 1
    ensures Sum(xs) == |xs|
  {
    if xs != [] {
      SumOfOnes(xs[1..]);
    }
  }

  lemma {:induction false} SumOfMarks(xs: seq<int>)
    requires forall i :: 0 <= i < |xs| ==> 0 <= xs[i] <= 1
    ensures 0 <= Sum(xs) <= |xs|
    ensures Sum(xs) == 0 ==> forall i :: 0 <= i < |xs| ==> xs[i] == 0
    ensures Sum(xs) > 0 ==> exists i :: 0 <= i < |xs| && xs[i] == 1
  {
    if xs != [] {
      SumOfMarks(xs[1..]);
      assert forall i :: 0 < i < |xs| ==> xs[i] == xs[1..][i - 1];
      if Sum(xs[1..]) > 0 {
        var i :| 0 <= i < |xs[1..]| && xs[1..][i] == 1;
        assert xs[i + 1] == 1;
      }
    }
  }

  lemma MarksPut(s: State, i: nat, w: Worker)
    requires i < |s.workers|
    ensures Sum(Marks(s.workers[i := w], s.generation, s.stop))
         == Sum(Marks(s.workers, s.generation, s.stop)) - Mark(s.workers[i], s.generation, s.stop)
            + Mark(w, s.generation, s.stop)
  {
    var marks := Marks(s.workers, s.generation, s.stop);
    assert Marks(s.workers[i := w], s.generation, s.stop) == marks[i := Mark(w, s.generation, s.stop)];
    SumUpdate(marks, i, Mark(w, s.generation, s.stop));
  }

  // ---- worker steps -----------------------------------------------------------------------------

  /** What a worker's step leaves to the others. */
  predicate OthersKeep(s: State, r: State, i: nat) {
    && r.count == s.count && r.task == s.task && r.generation == s.generation && r.stop == s.stop
    && r.calls == s.calls && r.published == s.published && r.callerLog == s.callerLog
    && (r.caller == s.caller || (s.caller.JoinParked? && r.caller.JoinLock?))
    && (r.lock == s.lock || (s.lock == Nobody && r.lock == Thread(i)) || (s.lock == Thread(i) && r.lock == Nobody))
    && |r.workers| == |s.workers|
    && (forall j :: 0 <= j < |s.workers| && j != i ==> r.workers[j] == s.workers[j])
  }

  lemma OthersStayOk(s: State, r: State, i: nat)
    requires Inv(s) && i < |s.workers| && OthersKeep(s, r, i)
    requires WorkerOk(r, i, r.workers[i])
    ensures WorkersOk(r)
  {
    hide Served;
    forall j: nat | j < |r.workers| ensures WorkerOk(r, j, r.workers[j]) {
      if j != i {
        assert WorkerOk(s, j, s.workers[j]);
      }
    }
  }

  /** What a worker's step does to itself and to what it shares, apart from the log. */
  predicate StepOk(s: State, r: State, i: nat)
    requires i < |s.workers|
  {
    && OthersKeep(s, r, i)
    && WorkerPlace(r, i, r.workers[i])
    && CountStep(s, r, i)
    && (s.workers[i].pc.Running?
        || (r.workers[i].log == s.workers[i].log
            && Owes(r.workers[i], r.generation, r.stop) == Owes(s.workers[i], s.generation, s.stop)))
  }

  /** The count drops exactly when a worker leaves the barrier; who brings it to zero will notify. */
  predicate CountStep(s: State, r: State, i: nat)
    requires i < |s.workers| && |r.workers| == |s.workers|
  {
    var w := s.workers[i];
    && (if w.pc.Leave? then
          Pending(w, s.generation, s.stop)
          && (s.active >= 1 ==> r.active == s.active - 1)
          && (s.active == 1 ==> WillNotifyCaller(r.workers[i].pc))
        else r.active == s.active)
    && Mark(r.workers[i], r.generation, r.stop) == Mark(w, s.generation, s.stop) - (if w.pc.Leave? then 1 else 0)
    && (WillNotifyCaller(w.pc) && !WillNotifyCaller(r.workers[i].pc) ==>
          !r.caller.JoinWait? && !r.caller.JoinParked?)
  }

  lemma WaitingOk(s: State, i: nat)
    requires CallerOk(s) && i < |s.workers| && InWait(s.workers[i].pc) && WorkerReady(s, i)
    requires WorkerPlace(s, i, s.workers[i])
    ensures StepOk(s, Waiting(s, i), i)
  {
    hide Served;
    hide CallerTask;
    hide Counter;
    if s.workers[i].pc.SpinGen? || s.workers[i].pc.SpinStop? {
      SpinningOk(s, i);
    }
  }

  lemma SpinningOk(s: State, i: nat)
    requires CallerOk(s) && i < |s.workers| && (s.workers[i].pc.SpinGen? || s.workers[i].pc.SpinStop?)
    requires WorkerPlace(s, i, s.workers[i])
    ensures StepOk(s, Waiting(s, i), i)
  {
    hide Served;
    hide CallerTask;
    hide Counter;
  }

  lemma WorkingOk(s: State, i: nat)
    requires CallerOk(s) && i < |s.workers| && InWork(s.workers[i].pc) && s.active < WORD
    requires WorkerPlace(s, i, s.workers[i])
    ensures StepOk(s, Working(s, i), i)
  {
    hide Served;
    hide RunRange;
  }

  lemma FinishingOk(s: State, i: nat)
    requires CallerOk(s) && i < |s.workers| && !InWait(s.workers[i].pc) && !InWork(s.workers[i].pc) && WorkerReady(s, i)
    requires WorkerPlace(s, i, s.workers[i])
    ensures StepOk(s, Finishing(s, i), i)
  {
    hide Served;
  }

  lemma WorkerStepOk(s: State, i: nat)
    requires Inv(s) && i < |s.workers| && WorkerReady(s, i)
    ensures StepOk(s, WorkerDoes(s, i), i)
  {
    hide StepOk;
    hide Waiting;
    hide Working;
    hide Finishing;
    hide WorkerReady;
    hide CallerOk;
    assert WorkerOk(s, i, s.workers[i]);
    if InWait(s.workers[i].pc) {
      WaitingOk(s, i);
    } else if InWork(s.workers[i].pc) {
      ActiveInWord(s);
      WorkingOk(s, i);
    } else {
      FinishingOk(s, i);
    }
  }

  lemma ActiveInWord(s: State)
    requires Inv(s)
    ensures s.active < WORD
  {
    hide Sum;
    hide Marks;
    SumOfMarksAt(s);
    if s.caller.PubGeneration? {
      assert forall i: nat :: i < |s.workers| ==> WorkerOk(s, i, s.workers[i]);
    }
  }

  lemma WorkerLogs(s: State, i: nat)
    requires Inv(s) && i < |s.workers| && WorkerReady(s, i)
    requires StepOk(s, WorkerDoes(s, i), i)
    ensures var r := WorkerDoes(s, i); r.workers[i].log == Served(ServedBy(r, r.workers[i]), i + 1, r.count)
  {
    hide Served;
    hide RunRange;
    hide WorkerReady;
    hide WorkerDoes;
    hide CallerOk;
    hide CountOk;
    hide WorkerPlace;
    var w := s.workers[i];
    assert WorkerOk(s, i, w);
    if w.pc.Running? {
      RunningLogs(s, i);
    }
  }

  /** The worker that ran its range has served the call in progress. */
  lemma RunningLogs(s: State, i: nat)
    requires Inv(s) && i < |s.workers| && s.workers[i].pc.Running?
    ensures var r := WorkerDoes(s, i); r.workers[i].log == Served(ServedBy(r, r.workers[i]), i + 1, r.count)
  {
    hide RunRange;
    hide CountOk;
    var w := s.workers[i];
    assert WorkerOk(s, i, w);
    var last := s.calls[|s.calls| - 1];
    assert Served(s.calls, i + 1, s.count)
        == Served(s.calls[..|s.calls| - 1], i + 1, s.count) + Part(last, i + 1, s.count);
    hide Served;
    assert w.log == Served(s.calls[..|s.calls| - 1], i + 1, s.count);
    assert Part(last, i + 1, s.count) == RunRange(s.task, i + 1, s.count);
  }

  lemma CallerStaysOk(s: State, r: State, i: nat)
    requires Inv(s) && i < |s.workers| && WorkerReady(s, i) && StepOk(s, r, i)
    ensures CallerOk(r)
  {
    hide Served;
    hide CountStep;
    assert WorkerOk(s, i, s.workers[i]);
  }

  lemma WorkerCounts(s: State, r: State, i: nat)
    requires Inv(s) && i < |s.workers| && StepOk(s, r, i)
    ensures CountOk(r)
  {
    hide Sum;
    hide Marks;
    hide WorkerPlace;
    hide CallerOk;
    var w := s.workers[i];
    assert r.workers == s.workers[i := r.workers[i]];
    MarksPut(s, i, r.workers[i]);
    SumOfMarksAt(s);
    assert w.pc.Leave? ==> s.active >= 1;
    if (r.caller.JoinWait? || r.caller.JoinParked?) && r.active == 0 {
      if w.pc.Leave? {
        assert WillNotifyCaller(r.workers[i].pc);
      } else {
        var j :| 0 <= j < |s.workers| && WillNotifyCaller(s.workers[j].pc);
        assert WillNotifyCaller(r.workers[j].pc);
      }
    }
  }

  lemma SumOfMarksAt(s: State)
    ensures 0 <= Sum(Marks(s.workers, s.generation, s.stop)) <= |s.workers|
    ensures Sum(Marks(s.workers, s.generation, s.stop)) == 0 ==>
      forall i :: 0 <= i < |s.workers| ==> !Pending(s.workers[i], s.generation, s.stop)
    ensures Sum(Marks(s.workers, s.generation, s.stop)) > 0 ==>
      exists i :: 0 <= i < |s.workers| && Pending(s.workers[i], s.generation, s.stop)
    ensures (forall i :: 0 <= i < |s.workers| ==> !Pending(s.workers[i], s.generation, s.stop)) ==>
      Sum(Marks(s.workers, s.generation, s.stop)) == 0
    ensures (forall i :: 0 <= i < |s.workers| ==> Pending(s.workers[i], s.generation, s.stop)) ==>
      Sum(Marks(s.workers, s.generation, s.stop)) == |s.workers|
  {
    var xs := Marks(s.workers, s.generation, s.stop);
    SumOfMarks(xs);
    assert forall i :: 0 <= i < |xs| ==> xs[i] == Mark(s.workers[i], s.generation, s.stop);
    if forall i :: 0 <= i < |xs| ==> xs[i] == 0 {
      SumOfNone(xs);
    }
    if forall i :: 0 <= i < |xs| ==> xs[i] == 1 {
      SumOfOnes(xs);
    }
  }

  lemma WorkerStepKeeps(s: State, i: nat)
    requires Inv(s) && i < |s.workers| && WorkerReady(s, i)
    ensures Inv(WorkerDoes(s, i))
  {
    hide WorkerDoes;
    hide CallerOk;
    hide CountOk;
    hide WorkerPlace;
    WorkerStepOk(s, i);
    WorkerLogs(s, i);
    OthersStayOk(s, WorkerDoes(s, i), i);
    CallerStaysOk(s, WorkerDoes(s, i), i);
    WorkerCounts(s, WorkerDoes(s, i), i);
  }

  // ---- caller steps -----------------------------------------------------------------------------

  predicate WorkersPlaced(s: State) {
    forall i: nat :: i < |s.workers| ==> WorkerPlace(s, i, s.workers[i])
  }

  /** The workers are as they were, apart from those a notification woke. */
  predicate OnlyWoken(s: State, r: State) {
    && r.count == s.count && |r.workers| == |s.workers|
    && (forall i :: 0 <= i < |s.workers| ==> r.workers[i] == s.workers[i] || r.workers[i] == Wake(s.workers[i]))
  }

  lemma PublishingPlaces(s: State)
    requires CallerOk(s) && WorkersPlaced(s) && InPublish(s.caller) && CallerReady(s)
    ensures WorkersPlaced(Publishing(s)) && OnlyWoken(s, Publishing(s))
  {
    hide Served;
    CounterNext(s.published);
    var r := Publishing(s);
    forall i: nat | i < |r.workers| ensures WorkerPlace(r, i, r.workers[i]) {
      assert WorkerPlace(s, i, s.workers[i]);
    }
  }

  lemma JoiningPlaces(s: State)
    requires CallerOk(s) && WorkersPlaced(s) && CountOk(s) && InJoin(s.caller) && CallerReady(s)
    ensures WorkersPlaced(Joining(s)) && OnlyWoken(s, Joining(s))
  {
    hide Served;
    hide RunRange;
    hide Sum;
    hide Marks;
    SumOfMarksAt(s);
    var r := Joining(s);
    forall i: nat | i < |r.workers| ensures WorkerPlace(r, i, r.workers[i]) {
      assert WorkerPlace(s, i, s.workers[i]);
    }
  }

  lemma AlonePlaces(s: State)
    requires CallerOk(s) && WorkersPlaced(s) && !InPublish(s.caller) && !InJoin(s.caller) && CallerReady(s)
    ensures WorkersPlaced(Alone(s)) && OnlyWoken(s, Alone(s))
  {
    hide Served;
    var r := Alone(s);
    forall i: nat | i < |r.workers| ensures WorkerPlace(r, i, r.workers[i]) {
      assert WorkerPlace(s, i, s.workers[i]);
    }
  }

  lemma PublishingOk(s: State)
    requires CallerOk(s) && InPublish(s.caller) && CallerReady(s)
    ensures CallerOk(Publishing(s))
  {
    hide Served;
    if s.caller.PubGeneration? {
      GenerationOk(s);
    } else {
      hide Counter;
    }
  }

  lemma GenerationOk(s: State)
    requires CallerOk(s) && s.caller.PubGeneration?
    ensures CallerOk(Publishing(s))
  {
    hide Served;
    CounterNext(s.published);
    hide Counter;
    assert (s.calls + [s.caller.t])[..|s.calls|] == s.calls;
  }

  lemma PublishingCounts(s: State)
    requires CallerOk(s) && WorkersPlaced(s) && CountOk(s) && InPublish(s.caller) && CallerReady(s)
    ensures CountOk(Publishing(s))
  {
    hide Served;
    hide Sum;
    hide Marks;
    hide CallerTask;
    var r := Publishing(s);
    SumOfMarksAt(s);
    SumOfMarksAt(r);
    if s.caller.PubGeneration? {
      CounterNext(s.published);
      forall i: nat | i < |s.workers|
        ensures !Pending(s.workers[i], s.generation, s.stop) && Pending(r.workers[i], r.generation, r.stop)
      {
        assert WorkerPlace(s, i, s.workers[i]);
      }
    } else {
      if s.caller.PubActive? {
        assert forall i: nat :: i < |s.workers| ==> WorkerPlace(s, i, s.workers[i]);
      }
      hide WorkerPlace;
      MarksOfWoken(s, r);
    }
  }

  lemma MarksOfWoken(s: State, r: State)
    requires OnlyWoken(s, r) && r.generation == s.generation && r.stop == s.stop
    ensures Marks(r.workers, r.generation, r.stop) == Marks(s.workers, s.generation, s.stop)
  {
  }

  lemma JoiningOk(s: State)
    requires Inv(s) && InJoin(s.caller) && CallerReady(s)
    ensures CallerOk(Joining(s)) && CountOk(Joining(s))
  {
    hide RunRange;
    hide Sum;
    hide Marks;
    hide WorkersOk;
    if s.caller.OwnRange? {
      var last := s.calls[|s.calls| - 1];
      assert Part(last, 0, s.count) == RunRange(s.task, 0, s.count);
    } else {
      hide Served;
    }
  }

  lemma AloneOk(s: State)
    requires CallerOk(s) && !InPublish(s.caller) && !InJoin(s.caller) && CallerReady(s)
    ensures CallerOk(Alone(s))
  {
    if s.caller.Direct? {
      ServedNext(s.calls, s.caller.t, 0, s.count);
    }
    hide Served;
  }

  lemma AloneCounts(s: State)
    requires CallerOk(s) && WorkersPlaced(s) && CountOk(s)
    requires !InPublish(s.caller) && !InJoin(s.caller) && CallerReady(s)
    ensures CountOk(Alone(s))
  {
    AlonePlaces(s);
    hide Served;
    hide Sum;
    hide Marks;
    hide CallerTask;
    var r := Alone(s);
    SumOfMarksAt(s);
    SumOfMarksAt(r);
    forall i: nat | i < |s.workers|
      ensures !Pending(s.workers[i], s.generation, s.stop) && !Pending(r.workers[i], r.generation, r.stop)
    {
      assert WorkerPlace(s, i, s.workers[i]) && WorkerPlace(r, i, r.workers[i]);
    }
  }

  lemma WorkersArePlaced(s: State)
    requires WorkersOk(s)
    ensures WorkersPlaced(s)
  {
    hide WorkerPlace;
    forall i: nat | i < |s.workers| ensures WorkerPlace(s, i, s.workers[i]) {
      assert WorkerOk(s, i, s.workers[i]);
    }
  }

  /** A call the caller serves alone asks nothing of the workers. */
  lemma DirectLeavesLogs(s: State, i: nat)
    requires Inv(s) && s.caller.Direct? && i < |s.workers| && WorkerPlace(Alone(s), i, s.workers[i])
    ensures s.workers[i].log == Served(ServedBy(Alone(s), s.workers[i]), i + 1, s.count)
  {
    hide RunRange;
    var w := s.workers[i];
    assert WorkerOk(s, i, w);
    ServedNext(s.calls, s.caller.t, i + 1, s.count);
    assert Part(s.caller.t, i + 1, s.count) == [];
    hide Served;
    hide Part;
  }

  /** A new generation makes every worker owe its part. */
  lemma GenerationLeavesLogs(s: State, i: nat)
    requires Inv(s) && s.caller.PubGeneration? && i < |s.workers|
    ensures s.workers[i].log == Served(ServedBy(Publishing(s), s.workers[i]), i + 1, s.count)
  {
    hide RunRange;
    hide Served;
    var w := s.workers[i];
    assert WorkerOk(s, i, w);
    CounterNext(s.published);
    ServedNext(s.calls, s.caller.t, i + 1, s.count);
  }

  /** No other step of the caller changes what a worker owes. */
  lemma CallerLeavesDues(s: State, r: State, i: nat)
    requires CallerOk(s) && CallerReady(s) && r == CallerDoes(s) && i < |s.workers|
    requires WorkerPlace(s, i, s.workers[i])
    requires OnlyWoken(s, r) && WorkerPlace(r, i, r.workers[i])
    requires !s.caller.Direct? && !s.caller.PubGeneration?
    ensures ServedBy(r, r.workers[i]) == ServedBy(s, s.workers[i]) && r.workers[i].log == s.workers[i].log
  {
    hide Served;
    hide RunRange;
    if !s.caller.StopSet? {
      hide WorkerPlace;
      assert r.generation == s.generation && r.stop == s.stop && r.calls == s.calls;
    }
  }

  lemma CallerLeavesLogs(s: State, r: State, i: nat)
    requires Inv(s) && CallerReady(s) && r == CallerDoes(s) && i < |s.workers|
    requires OnlyWoken(s, r) && WorkersPlaced(r)
    ensures r.workers[i].log == Served(ServedBy(r, r.workers[i]), i + 1, r.count)
  {
    hide Served;
    hide RunRange;
    hide CallerOk;
    hide CountOk;
    hide CallerReady;
    assert WorkerOk(s, i, s.workers[i]);
    assert WorkerPlace(r, i, r.workers[i]);
    hide WorkerPlace;
    if s.caller.Direct? {
      DirectLeavesLogs(s, i);
    } else if s.caller.PubGeneration? {
      GenerationLeavesLogs(s, i);
    } else {
      hide CallerDoes;
      CallerLeavesDues(s, r, i);
    }
  }

  lemma CallerStepKeeps(s: State)
    requires Inv(s) && CallerReady(s)
    ensures Inv(CallerDoes(s))
  {
    hide Served;
    hide WorkerPlace;
    hide CallerOk;
    hide CountOk;
    hide Publishing;
    hide Joining;
    hide Alone;
    hide CallerReady;
    hide OnlyWoken;
    WorkersArePlaced(s);
    if InPublish(s.caller) {
      PublishingPlaces(s);
      PublishingOk(s);
      PublishingCounts(s);
    } else if InJoin(s.caller) {
      JoiningPlaces(s);
      JoiningOk(s);
    } else {
      AlonePlaces(s);
      AloneOk(s);
      AloneCounts(s);
    }
    var r := CallerDoes(s);
    OnlyWokenSize(s, r);
    forall i: nat | i < |r.workers| ensures WorkerOk(r, i, r.workers[i]) {
      CallerLeavesLogs(s, r, i);
    }
  }

  lemma OnlyWokenSize(s: State, r: State)
    requires OnlyWoken(s, r)
    ensures |r.workers| == |s.workers| && r.count == s.count
  {
  }

  // ---- runs -------------------------------------------------------------------------------------

  lemma WakeKeeps(s: State, a: Action)
    requires Inv(s) && Enabled(s, a) && (a.SpuriousWake? || a.SpuriousJoin?)
    ensures Inv(Does(s, a))
  {
    hide Served;
    hide Sum;
    hide Marks;
    var r := Does(s, a);
    assert OnlyWoken(s, r);
    MarksOfWoken(s, r);
    forall i: nat | i < |r.workers| ensures WorkerOk(r, i, r.workers[i]) {
      assert WorkerOk(s, i, s.workers[i]);
    }
    if s.caller.JoinParked? && a.SpuriousWake? && s.active == 0 {
      var j :| 0 <= j < |s.workers| && WillNotifyCaller(s.workers[j].pc);
      assert WillNotifyCaller(r.workers[j].pc);
    }
    hide WorkerPlace;
  }

  lemma RequestKeeps(s: State, a: Action)
    requires Inv(s) && Enabled(s, a) && (a.Begin? || a.Destroy?)
    ensures Inv(Does(s, a))
  {
    hide Served;
    hide Sum;
    hide Marks;
    var r := Does(s, a);
    forall i: nat | i < |r.workers| ensures WorkerOk(r, i, r.workers[i]) {
      assert WorkerOk(s, i, s.workers[i]);
    }
    hide WorkerPlace;
  }

  lemma StepKeeps(s: State, a: Action)
    requires Inv(s) && Enabled(s, a)
    ensures Inv(Does(s, a))
  {
    hide Inv;
    hide CallerDoes;
    hide WorkerDoes;
    match a
    case CallerStep => CallerStepKeeps(s);
    case WorkerStep(i) => WorkerStepKeeps(s, i);
    case Begin(_, _, _, _) => RequestKeeps(s, a);
    case Destroy => RequestKeeps(s, a);
    case SpuriousWake(_) => WakeKeeps(s, a);
    case SpuriousJoin => WakeKeeps(s, a);
  }

  lemma InitIsInv(s: State)
    requires Init(s)
    ensures Inv(s)
  {
    hide Sum;
    hide Marks;
    SumOfMarksAt(s);
    assert Counter(0) == 0;
    forall i: nat | i < |s.workers| ensures WorkerOk(s, i, s.workers[i]) {
    }
  }

  ghost predicate Legal(s: State, acts: seq<Action>)
    decreases |acts|
  {
    acts == [] || (Enabled(s, acts[0]) && Legal(Does(s, acts[0]), acts[1..]))
  }

  ghost function After(s: State, acts: seq<Action>): State
    requires Legal(s, acts)
    decreases |acts|
  {
    if acts == [] then s else After(Does(s, acts[0]), acts[1..])
  }

  /** Every interleaving keeps the invariant. */
  lemma {:induction false} RunKeeps(s: State, acts: seq<Action>)
    requires Inv(s) && Legal(s, acts)
    ensures Inv(After(s, acts))
    decreases |acts|
  {
    hide Inv;
    hide Does;
    if acts != [] {
      StepKeeps(s, acts[0]);
      RunKeeps(Does(s, acts[0]), acts[1..]);
    }
  }

  /** The task of a call that has not joined the history yet. */
  function Upcoming(c: CallerPc): seq<Task> {
    match c
    case Direct(t) => [t]
    case PubLock(t) => [t]
    case PubTask(t) => [t]
    case PubActive(t) => [t]
    case PubGeneration(t) => [t]
    case _ => []
  }

  /** The tasks of the calls a run begins; an alignment of 0 counts as 1. */
  function Begun(acts: seq<Action>): seq<Task> {
    if acts == [] then []
    else
      (match acts[0]
       case Begin(fn, ctx, n, align) => [Task(fn, ctx, n, if align == 0 then 1 else align)]
       case _ => [])
      + Begun(acts[1..])
  }

  lemma StepBegins(s: State, a: Action)
    requires Enabled(s, a)
    ensures Does(s, a).calls + Upcoming(Does(s, a).caller) == s.calls + Upcoming(s.caller) + Begun([a])
    ensures Does(s, a).count == s.count
  {
    hide RunRange;
    hide WakeAll;
    assert Begun([a][1..]) == [];
    match a
    case CallerStep =>
      hide Enabled;
      CallerBegins(s);
    case WorkerStep(i) =>
      hide Enabled;
      WorkerBegins(s, i);
    case _ =>
  }

  lemma CallerBegins(s: State)
    requires s.count > 0 && CallerReady(s)
    ensures var r := CallerDoes(s); r.calls + Upcoming(r.caller) == s.calls + Upcoming(s.caller) && r.count == s.count
  {
    hide RunRange;
    hide WakeAll;
  }

  lemma WorkerBegins(s: State, i: nat)
    requires s.count > 0 && i < |s.workers| && WorkerReady(s, i)
    ensures var r := WorkerDoes(s, i); r.calls == s.calls && Upcoming(r.caller) == Upcoming(s.caller) && r.count == s.count
  {
    hide RunRange;
  }

  lemma {:induction false} RunBegins(s: State, acts: seq<Action>)
    requires Legal(s, acts)
    ensures var r := After(s, acts); r.calls + Upcoming(r.caller) == s.calls + Upcoming(s.caller) + Begun(acts)
    ensures After(s, acts).count == s.count
    decreases |acts|
  {
    hide Does;
    hide Enabled;
    hide Upcoming;
    if acts != [] {
      var first := [acts[0]];
      StepBegins(s, acts[0]);
      RunBegins(Does(s, acts[0]), acts[1..]);
      BegunSplits(acts);
      Regrouped(s.calls, Upcoming(s.caller), Begun(first), Begun(acts[1..]));
    }
  }

  lemma BegunSplits(acts: seq<Action>)
    requires acts != []
    ensures Begun(acts) == Begun([acts[0]]) + Begun(acts[1..])
  {
    assert [acts[0]][1..] == [];
    assert Begun([]) == [];
  }

  lemma Regrouped<T>(a: seq<T>, b: seq<T>, c: seq<T>, d: seq<T>)
    ensures a + b + c + d == a + b + (c + d)
  {
  }

  /** The calls of a run in their order, each with an alignment of at least one. */
  lemma BegunIs(fn: int, ctx: int, n: nat, align: nat, a: Action, acts: seq<Action>)
    ensures Begun([]) == []
    ensures Begun([Begin(fn, ctx, n, align)] + acts) == [Task(fn, ctx, n, if align == 0 then 1 else align)] + Begun(acts)
    ensures !a.Begin? ==> Begun([a] + acts) == Begun(acts)
  {
    assert ([Begin(fn, ctx, n, align)] + acts)[1..] == acts && ([a] + acts)[1..] == acts;
  }

  /** What thread `idx` has run so far; thread 0 is the caller. */
  function LogOf(s: State, idx: nat): seq<Call>
    requires idx <= |s.workers|
  {
    if idx == 0 then s.callerLog else s.workers[idx - 1].log
  }

  predicate UsesTask(pc: WorkerPc) {
    pc.ReadTask? || pc.Running?
  }

  /** Whatever the interleaving, when the caller is back every thread has run exactly its part of
      every call begun, once and in order, and no worker reads the task or runs its function. When
      the pool is destroyed, every worker has exited besides. */
  lemma ReturnsWhenServed(s: State, acts: seq<Action>)
    requires Init(s) && Legal(s, acts)
    requires After(s, acts).caller.Idle? || After(s, acts).caller.Destroyed?
    ensures var r := After(s, acts);
      && |r.workers| == |s.workers| == s.count - 1
      && (forall idx: nat :: idx < s.count ==> LogOf(r, idx) == Served(Begun(acts), idx, s.count))
      && (forall i: nat :: i < |r.workers| ==> !UsesTask(r.workers[i].pc))
      && (r.caller.Destroyed? ==> forall i: nat :: i < |r.workers| ==> r.workers[i].pc.Exited?)
  {
    hide Served;
    hide Legal;
    hide After;
    hide CountOk;
    var r := After(s, acts);
    InitIsInv(s);
    RunKeeps(s, acts);
    RunBegins(s, acts);
    var begun := Begun(acts);
    calc {
      r.calls;
      r.calls + Upcoming(r.caller);
      s.calls + Upcoming(s.caller) + begun;
      begun;
    }
    forall i: nat | i < |r.workers|
      ensures r.workers[i].log == Served(r.calls, i + 1, r.count) && !UsesTask(r.workers[i].pc)
    {
      assert WorkerOk(r, i, r.workers[i]);
    }
  }

  /** The task fields are written only while no worker reads them, and whatever a worker runs is the
      task of the call in progress. */
  lemma TaskIsNotRaced(s: State, acts: seq<Action>)
    requires Init(s) && Legal(s, acts)
    ensures var r := After(s, acts);
      forall i: nat :: i < |r.workers| && UsesTask(r.workers[i].pc) ==>
        !r.caller.PubTask? && !Quiet(r.caller) && r.calls != [] && r.task == r.calls[|r.calls| - 1]
        && (r.workers[i].pc.Running? ==> r.workers[i].pc.task == r.task)
  {
    hide Served;
    hide Legal;
    hide After;
    hide CountOk;
    var r := After(s, acts);
    InitIsInv(s);
    RunKeeps(s, acts);
    forall i: nat | i < |r.workers| && UsesTask(r.workers[i].pc)
      ensures !Quiet(r.caller) && (r.workers[i].pc.Running? ==> r.workers[i].pc.task == r.task)
    {
      assert WorkerOk(r, i, r.workers[i]);
    }
  }

  /** No wake-up is lost: a parked worker with something to do has a notification coming, and so has
      a caller parked on a barrier everyone has left. */
  lemma NoLostWakeUp(s: State, acts: seq<Action>)
    requires Init(s) && Legal(s, acts)
    ensures var r := After(s, acts);
      && (forall i: nat :: i < |r.workers| && r.workers[i].pc.Parked? && (r.stop || r.workers[i].seen != r.generation)
            ==> WillNotify(r.caller))
      && (r.caller.JoinParked? && r.active == 0 ==> SomeoneNotifiesCaller(r.workers))
  {
    hide Served;
    hide Legal;
    hide After;
    hide CallerOk;
    var r := After(s, acts);
    InitIsInv(s);
    RunKeeps(s, acts);
    forall i: nat | i < |r.workers| ensures WorkerPlace(r, i, r.workers[i]) {
      assert WorkerOk(r, i, r.workers[i]);
    }
  }
}
