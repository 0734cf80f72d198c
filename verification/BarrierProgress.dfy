/** Every call of the thread pool returns: a measure bounds the steps of any interleaving, and until
    the caller is back some thread can step. */
module BarrierProgress {
  import opened Arith
  import opened ThreadBarrier
  import opened BarrierSafety

  // ---- the measure ------------------------------------------------------------------------------

  /** What a worker has left to do before it parks or exits. */
  function PcRank(pc: WorkerPc): nat {
    match pc
    case Exited => 0
    case Parked => 0
    case ReadGen => 1
    case ParkWait => 1
    case ParkGen => 2
    case ParkStop => 3
    case ParkLock => 4
    case SpinStop(k) => 5 + if k < SPIN_BUDGET then 2 * (SPIN_BUDGET - 1 - k) else 0
    case SpinGen(k) => 6 + if k < SPIN_BUDGET then 2 * (SPIN_BUDGET - 1 - k) else 0
    case DoneUnlock => ROUND
    case DoneNotify => ROUND + 4
    case DoneLock => ROUND + 5
    case Leave => ROUND + 6
    case Running(_) => ROUND + 7
    case ReadTask => ROUND + 8
    case CheckStop => ROUND + 9
    case ReadUnlock => ROUND + 10
  }

  /** More than a worker does from its first look at the counter until it parks. */
  const ROUND: nat := 2 * SPIN_BUDGET + 5

  /** More than a worker does for one generation. */
  const TURN: nat := ROUND + 11

  function Rank(w: Worker, generation: nat, stop: bool): int {
    PcRank(w.pc) + if Waits(w.pc) && (stop || w.seen != generation) then TURN else 0
  }

  function Ranks(ws: seq<Worker>, generation: nat, stop: bool): (r: seq<int>)
    ensures |r| == |ws|
  {
    seq(|ws|, i requires 0 <= i < |ws| => Rank(ws[i], generation, stop))
  }

  /** What the caller has left to do, with `wake` the cost of waking the workers and `turn` that of
      making each of them do a turn. */
  function CallerRank(c: CallerPc, wake: nat, turn: nat): nat {
    match c
    case Idle => 0
    case Destroyed => 0
    case JoinParked => 0
    case Direct(_) => 1
    case JoinUnlock => 1
    case JoinWait => 1
    case JoinCheck => 2
    case JoinLock => 3
    case JoinSpin(k) => 4 + if k < SPIN_BUDGET then SPIN_BUDGET - 1 - k else 0
    case OwnRange(_) => 4 + SPIN_BUDGET
    case PubNotify(_) => 5 + SPIN_BUDGET + wake
    case PubUnlock(_) => 6 + SPIN_BUDGET + wake
    case PubGeneration(_) => 7 + SPIN_BUDGET + wake + turn
    case PubActive(_) => 8 + SPIN_BUDGET + wake + turn
    case PubTask(_) => 9 + SPIN_BUDGET + wake + turn
    case PubLock(_) => 10 + SPIN_BUDGET + wake + turn
    case JoinThreads => 1
    case StopNotify => 2 + wake
    case StopUnlock => 3 + wake
    case StopSet => 4 + wake + turn
    case StopLock => 5 + wake + turn
  }

  function CallerPart(s: State): nat {
    CallerRank(s.caller, 4 * |s.workers|, TURN * |s.workers|)
  }

  /** An upper bound on the steps from here until the caller is back and the workers rest. */
  function Measure(s: State): int {
    CallerPart(s) + Sum(Ranks(s.workers, s.generation, s.stop))
  }

  lemma {:induction false} SumAtMost(xs: seq<int>, ys: seq<int>, d: int)
    requires |xs| == |ys| && forall i :: 0 <= i < |xs| ==> ys[i] <= xs[i] + d
    ensures Sum(ys) <= Sum(xs) + d * |xs|
  {
    if xs != [] {
      SumAtMost(xs[1..], ys[1..], d);
      NextProduct(|xs| - 1, d);
    }
  }

  lemma {:induction false} SumNotNegative(xs: seq<int>)
    requires forall i :: 0 <= i < |xs| ==> xs[i] >= 0
    ensures Sum(xs) >= 0
  {
    if xs != [] {
      SumNotNegative(xs[1..]);
    }
  }

  lemma MeasureNotNegative(s: State)
    ensures Measure(s) >= 0
  {
    SumNotNegative(Ranks(s.workers, s.generation, s.stop));
  }

  // ---- every step lowers it ---------------------------------------------------------------------

  lemma RanksPut(s: State, i: nat, w: Worker)
    requires i < |s.workers|
    ensures Sum(Ranks(s.workers[i := w], s.generation, s.stop))
         == Sum(Ranks(s.workers, s.generation, s.stop)) - Rank(s.workers[i], s.generation, s.stop)
            + Rank(w, s.generation, s.stop)
  {
    var ranks := Ranks(s.workers, s.generation, s.stop);
    assert Ranks(s.workers[i := w], s.generation, s.stop) == ranks[i := Rank(w, s.generation, s.stop)];
    SumUpdate(ranks, i, Rank(w, s.generation, s.stop));
  }

  /** A worker's step lowers its rank by more than it raises the caller's. */
  predicate Pays(s: State, r: State, i: nat)
    requires i < |s.workers| && |r.workers| == |s.workers|
  {
    Rank(r.workers[i], r.generation, r.stop) + CallerPart(r) < Rank(s.workers[i], s.generation, s.stop) + CallerPart(s)
  }

  lemma WaitingPays(s: State, i: nat)
    requires i < |s.workers| && InWait(s.workers[i].pc)
    requires WorkerPlace(s, i, s.workers[i])
    ensures Pays(s, Waiting(s, i), i)
  {
    hide CallerRank;
  }

  lemma WorkingPays(s: State, i: nat)
    requires s.count > 0 && i < |s.workers| && InWork(s.workers[i].pc)
    requires WorkerPlace(s, i, s.workers[i])
    ensures Pays(s, Working(s, i), i)
  {
    hide CallerRank;
    hide RunRange;
  }

  lemma FinishingPays(s: State, i: nat)
    requires i < |s.workers| && !InWait(s.workers[i].pc) && !InWork(s.workers[i].pc) && WorkerReady(s, i)
    ensures Pays(s, Finishing(s, i), i)
  {
    hide WorkerPlace;
  }

  lemma WorkerLowers(s: State, i: nat)
    requires Inv(s) && i < |s.workers| && WorkerReady(s, i)
    ensures Measure(WorkerDoes(s, i)) < Measure(s)
  {
    hide Sum;
    hide Ranks;
    hide Rank;
    hide CallerPart;
    hide CallerOk;
    hide CountOk;
    hide WorkerReady;
    var r := WorkerDoes(s, i);
    WorkerStepOk(s, i);
    assert WorkerOk(s, i, s.workers[i]);
    assert r.workers == s.workers[i := r.workers[i]];
    RanksPut(s, i, r.workers[i]);
    hide WorkerPlace;
    if InWait(s.workers[i].pc) {
      WaitingPays(s, i);
    } else if InWork(s.workers[i].pc) {
      WorkingPays(s, i);
    } else {
      FinishingPays(s, i);
    }
  }

  /** How much a step of the caller may raise the rank of each worker. */
  function Raises(c: CallerPc): nat {
    if c.PubGeneration? || c.StopSet? then TURN
    else if c.PubNotify? || c.StopNotify? then 4
    else 0
  }

  lemma CallerRaises(s: State, r: State, i: nat)
    requires s.count > 0 && CallerReady(s) && r == CallerDoes(s) && i < |s.workers| && |r.workers| == |s.workers|
    ensures Rank(r.workers[i], r.generation, r.stop) <= Rank(s.workers[i], s.generation, s.stop) + Raises(s.caller)
  {
    hide RunRange;
    if s.caller.PubNotify? || s.caller.StopNotify? {
      assert r.workers[i] == Wake(s.workers[i]);
    } else {
      assert r.workers[i] == s.workers[i];
      hide CallerDoes;
      hide PcRank;
    }
  }

  lemma CallerPays(s: State)
    requires CallerOk(s) && CallerReady(s)
    ensures CallerPart(CallerDoes(s)) + Raises(s.caller) * |s.workers| < CallerPart(s)
    ensures |CallerDoes(s).workers| == |s.workers|
  {
    hide Served;
    hide RunRange;
    hide CallerTask;
    hide Rank;
    hide Counter;
    if InPublish(s.caller) {
      hide Joining;
      hide Alone;
    } else if InJoin(s.caller) {
      hide Publishing;
      hide Alone;
    } else {
      hide Publishing;
      hide Joining;
    }
  }

  lemma CallerLowers(s: State)
    requires Inv(s) && CallerReady(s)
    ensures Measure(CallerDoes(s)) < Measure(s)
  {
    hide Sum;
    hide Rank;
    hide CallerPart;
    hide CallerDoes;
    hide CallerReady;
    hide WorkersOk;
    hide CountOk;
    var r := CallerDoes(s);
    CallerPays(s);
    forall i: nat | i < |s.workers|
      ensures Rank(r.workers[i], r.generation, r.stop) <= Rank(s.workers[i], s.generation, s.stop) + Raises(s.caller)
    {
      CallerRaises(s, r, i);
    }
    SumAtMost(Ranks(s.workers, s.generation, s.stop), Ranks(r.workers, r.generation, r.stop), Raises(s.caller));
  }

  lemma SpuriousRaises(s: State, a: Action)
    requires Enabled(s, a) && (a.SpuriousWake? || a.SpuriousJoin?)
    ensures Measure(Does(s, a)) <= Measure(s) + 4
  {
    hide Sum;
    hide Ranks;
    var r := Does(s, a);
    if a.SpuriousWake? {
      RanksPut(s, a.i, Wake(s.workers[a.i]));
    }
  }

  // ---- runs -------------------------------------------------------------------------------------

  /** A step that is neither a new request of the caller's owner nor a wake-up without a notification. */
  predicate Internal(a: Action) {
    a.CallerStep? || a.WorkerStep?
  }

  predicate Spurious(a: Action) {
    a.SpuriousWake? || a.SpuriousJoin?
  }

  function SpuriousIn(acts: seq<Action>): nat {
    if acts == [] then 0 else (if Spurious(acts[0]) then 1 else 0) + SpuriousIn(acts[1..])
  }

  /** In any interleaving without a new request, the number of steps is bounded by the measure and
      the number of spurious wake-ups: no thread spins, waits or runs forever. */
  lemma {:induction false} StepsAreBounded(s: State, acts: seq<Action>)
    requires Inv(s) && Legal(s, acts)
    requires forall i :: 0 <= i < |acts| ==> Internal(acts[i]) || Spurious(acts[i])
    ensures |acts| <= Measure(s) + 5 * SpuriousIn(acts)
    ensures |acts| + Measure(After(s, acts)) <= Measure(s) + 5 * SpuriousIn(acts)
    decreases |acts|
  {
    hide Measure;
    hide Inv;
    if acts == [] {
      MeasureNotNegative(s);
    } else {
      var a, rest := acts[0], acts[1..];
      var r := Does(s, a);
      StepKeeps(s, a);
      match a {
        case CallerStep => CallerLowers(s);
        case WorkerStep(i) => WorkerLowers(s, i);
        case _ => SpuriousRaises(s, a);
      }
      assert forall i :: 0 <= i < |rest| ==> rest[i] == acts[i + 1];
      hide Does;
      hide Enabled;
      StepsAreBounded(r, rest);
    }
  }

  // ---- some thread can always step --------------------------------------------------------------

  ghost predicate SomeStep(s: State) {
    Enabled(s, CallerStep) || exists i: nat :: Enabled(s, WorkerStep(i))
  }

  lemma WorkerCanStep(s: State, i: nat)
    requires Enabled(s, WorkerStep(i))
    ensures SomeStep(s)
  {
  }

  /** A thread that holds the lock can step. */
  lemma HolderCanStep(s: State)
    requires Inv(s) && s.lock != Nobody
    ensures SomeStep(s)
  {
    hide Served;
    hide CountOk;
    match s.lock
    case Caller =>
      assert Enabled(s, CallerStep);
    case Thread(i) =>
      assert WorkerOk(s, i, s.workers[i]);
      WorkerCanStep(s, i);
  }

  /** With the lock free, only parked and exited workers cannot step. */
  lemma RestlessCanStep(s: State, i: nat)
    requires s.count > 0 && s.lock == Nobody && i < |s.workers| && !s.workers[i].pc.Parked? && !s.workers[i].pc.Exited?
    ensures SomeStep(s)
  {
    assert WorkerReady(s, i);
    WorkerCanStep(s, i);
  }

  /** The caller is never stuck: parked on the barrier or joining the threads, some worker can step. */
  lemma NoDeadlock(s: State)
    requires Inv(s) && !s.caller.Idle? && !s.caller.Destroyed?
    ensures SomeStep(s)
  {
    hide Served;
    hide Sum;
    hide Marks;
    hide SomeStep;
    if s.lock != Nobody {
      HolderCanStep(s);
    } else if s.caller.JoinParked? {
      SumOfMarksAt(s);
      if s.active == 0 {
        var i :| 0 <= i < |s.workers| && WillNotifyCaller(s.workers[i].pc);
        RestlessCanStep(s, i);
      } else {
        var i :| 0 <= i < |s.workers| && Pending(s.workers[i], s.generation, s.stop);
        assert WorkerOk(s, i, s.workers[i]);
        RestlessCanStep(s, i);
      }
    } else if s.caller.JoinThreads? && !CallerReady(s) {
      var i :| 0 <= i < |s.workers| && !s.workers[i].pc.Exited?;
      assert WorkerOk(s, i, s.workers[i]);
      RestlessCanStep(s, i);
    } else {
      CallerCanStep(s);
    }
  }

  lemma CallerCanStep(s: State)
    requires s.count > 0 && CallerReady(s)
    ensures SomeStep(s)
  {
  }

  /** Whatever the schedule, the caller comes back: a run without new requests and without spurious
      wake-ups is no longer than the measure of the state it starts in, and where no thread can step
      any more the caller has returned. */
  lemma EveryCallReturns(s0: State, before: seq<Action>, acts: seq<Action>)
    requires Init(s0) && Legal(s0, before) && Legal(After(s0, before), acts)
    requires forall i :: 0 <= i < |acts| ==> Internal(acts[i])
    ensures |acts| <= Measure(After(s0, before))
    ensures var r := After(After(s0, before), acts); !SomeStep(r) ==> r.caller.Idle? || r.caller.Destroyed?
  {
    hide Measure;
    hide Inv;
    hide SomeStep;
    var s := After(s0, before);
    InitIsInv(s0);
    RunKeeps(s0, before);
    RunKeeps(s, acts);
    NoSpurious(acts);
    StepsAreBounded(s, acts);
    var r := After(s, acts);
    if !r.caller.Idle? && !r.caller.Destroyed? {
      NoDeadlock(r);
    }
  }

  lemma {:induction false} NoSpurious(acts: seq<Action>)
    requires forall i :: 0 <= i < |acts| ==> Internal(acts[i])
    ensures SpuriousIn(acts) == 0
  {
    if acts != [] {
      NoSpurious(acts[1..]);
    }
  }
}
