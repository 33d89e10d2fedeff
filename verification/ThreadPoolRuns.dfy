/**
 Whole runs of the thread pool: safety in every reachable state, and progress, stated
 as a measure that every step but a push or an early spurious wakeup makes smaller.
 */
module ThreadPoolRuns {
  import opened Prelude
  import opened ThreadPool

  /** Every step is enabled in the state in which it is taken. */
  ghost predicate Legal(s: State, steps: seq<Step>)
    decreases |steps|
  {
    steps == [] || (Enabled(s, steps[0]) && Legal(Apply(s, steps[0]), steps[1..]))
  }

  ghost function Exec(s: State, steps: seq<Step>): State
    requires Legal(s, steps)
    decreases |steps|
  {
    if steps == [] then s else Exec(Apply(s, steps[0]), steps[1..])
  }

  lemma {:induction false} ExecInv(s: State, steps: seq<Step>)
    requires Inv(s) && Legal(s, steps)
    ensures Inv(Exec(s, steps))
    decreases |steps|
  {
    if steps != [] {
      StepKeepsInv(s, steps[0]);
      ExecInv(Apply(s, steps[0]), steps[1..]);
    }
  }

  // ---- What a run did, read off its steps alone ----

  datatype Kind = PushKind | NotifyKind | TakeKind | FinishKind | StopKind

  predicate Is(step: Step, kind: Kind) {
    match kind
    case PushKind => step.OutsidePush? || step.TaskPush?
    case NotifyKind => step.OutsideNotify? || step.TaskNotify?
    case TakeKind => step.Take?
    case FinishKind => step.Finish?
    case StopKind => step.SetStop?
  }

  function Count(kind: Kind, steps: seq<Step>): nat {
    if steps == [] then 0 else (if Is(steps[0], kind) then 1 else 0) + Count(kind, steps[1..])
  }

  function Pushes(steps: seq<Step>): nat {
    Count(PushKind, steps)
  }

  lemma {:induction false} CountConcat(kind: Kind, a: seq<Step>, b: seq<Step>)
    ensures Count(kind, a + b) == Count(kind, a) + Count(kind, b)
  {
    if a == [] {
      assert a + b == b;
    } else {
      CountConcat(kind, a[1..], b);
      assert (a + b)[1..] == a[1..] + b;
    }
  }

  /** What one step adds to the number of wakeups owed. */
  lemma StepOwes(s: State, step: Step)
    requires Enabled(s, step)
    ensures Owed(Apply(s, step)) + (if Is(step, NotifyKind) then 1 else 0) == Owed(s) + if Is(step, PushKind) then 1 else 0
  {
    var ws := s.workers;
    var ws' := Apply(s, step).workers;
    if step.TaskPush? {
      SumUpdate(OwingTally, ws, step.w, ws[step.w].(owes := true));
    } else if step.OutsideNotify? || step.TaskNotify? {
      NotifyOwes(s, step);
    } else {
      assert |ws'| == |ws|;
      SumSame(OwingTally, ws, ws');
    }
  }

  lemma NotifyOwes(s: State, step: Step)
    requires Enabled(s, step) && Is(step, NotifyKind)
    ensures Owed(Apply(s, step)) + 1 == Owed(s)
  {
    var ws := s.workers;
    if step.woken.Some? { SumUpdate(OwingTally, ws, step.woken.value, Awake); }
    if step.TaskNotify? {
      SumUpdate(OwingTally, Wake(ws, step.woken), step.w, ws[step.w].(owes := false));
    }
  }

  lemma StepCounts(s: State, step: Step)
    requires Enabled(s, step)
    ensures var s' := Apply(s, step);
            && |s'.workers| == |s.workers|
            && s'.pushed == s.pushed + (if Is(step, PushKind) then 1 else 0)
            && |s'.started| == |s.started| + (if Is(step, TakeKind) then 1 else 0)
            && |s'.finished| == |s.finished| + (if Is(step, FinishKind) then 1 else 0)
            && (s'.stop <==> s.stop || Is(step, StopKind))
  {
  }

  /** How the state moves with the steps taken. */
  lemma {:induction false} ExecCounts(s: State, steps: seq<Step>)
    requires Legal(s, steps)
    ensures var s' := Exec(s, steps);
            && |s'.workers| == |s.workers|
            && s'.pushed == s.pushed + Pushes(steps)
            && |s'.started| == |s.started| + Count(TakeKind, steps)
            && |s'.finished| == |s.finished| + Count(FinishKind, steps)
            && Owed(s') + Count(NotifyKind, steps) == Owed(s) + Pushes(steps)
            && (s'.stop <==> s.stop || Count(StopKind, steps) > 0)
    decreases |steps|
  {
    if steps != [] {
      StepOwes(s, steps[0]);
      StepCounts(s, steps[0]);
      ExecCounts(Apply(s, steps[0]), steps[1..]);
    }
  }

  /**
   The books of a run: every push is a task recorded and a wakeup owed, every notify_one
   pays one, and takes, finishes and stop are what the steps say.
   */
  lemma RunBooks(n: nat, steps: seq<Step>)
    requires Legal(Init(n), steps)
    ensures var s := Exec(Init(n), steps);
            && |s.workers| == n
            && s.pushed == Pushes(steps)
            && |s.started| + |s.queue| == Pushes(steps)
            && |s.started| == Count(TakeKind, steps)
            && |s.finished| == Count(FinishKind, steps)
            && Owed(s) + Count(NotifyKind, steps) == Pushes(steps)
            && (s.stop <==> Count(StopKind, steps) > 0)
  {
    SumZero(OwingTally, Init(n).workers);
    ExecCounts(Init(n), steps);
    ExecQueue(Init(n), steps);
  }

  lemma {:induction false} ExecQueue(s: State, steps: seq<Step>)
    requires QueueConserved(s) && Legal(s, steps)
    ensures QueueConserved(Exec(s, steps))
    ensures var s' := Exec(s, steps); |s'.started| + |s'.queue| == s'.pushed
    decreases |steps|
  {
    if steps == [] {
      assert |s.started + s.queue| == |UpTo(s.pushed)|;
    } else {
      StepKeepsQueue(s, steps[0]);
      ExecQueue(Apply(s, steps[0]), steps[1..]);
    }
  }

  /** What each thread may do next. A worker never has a choice between serving, sleeping and leaving. */
  lemma NextMoves(s: State, w: nat)
    requires w < |s.workers|
    ensures s.workers[w].Awake? ==>
              && (Enabled(s, Take(w)) <==> s.queue != [])
              && (Enabled(s, Sleep(w)) <==> s.queue == [] && !s.stop)
              && (Enabled(s, Exit(w)) <==> s.queue == [] && s.stop)
    ensures s.workers[w].Running? ==>
              if s.workers[w].owes then exists woken :: Enabled(s, TaskNotify(w, woken))
              else Enabled(s, TaskPush(w)) && Enabled(s, Finish(w))
    ensures s.workers[w].Asleep? ==> Enabled(s, SpuriousWake(w))
    ensures !s.stop ==> Enabled(s, OutsidePush) && Enabled(s, SetStop)
    ensures s.stop && !s.notifiedAll ==> Enabled(s, NotifyAll)
    ensures s.outsideOwes > 0 ==> exists woken :: Enabled(s, OutsideNotify(woken))
  {
    var woken := SomeWakeIsPossible(s.workers);
    assert s.workers[w].Running? && s.workers[w].owes ==> Enabled(s, TaskNotify(w, woken));
    assert s.outsideOwes > 0 ==> Enabled(s, OutsideNotify(woken));
  }

  lemma SomeWakeIsPossible(ws: seq<Worker>) returns (woken: Option<nat>)
    ensures CanWake(ws, woken)
  {
    if SomeAsleep(ws) {
      var i :| 0 <= i < |ws| && ws[i].Asleep?;
      woken := Some(i);
    } else {
      woken := None;
    }
  }

  // ---- Safety ----

  /** Tasks 0 to pushes - 1 have each run exactly once, and nothing else has run. */
  ghost predicate AllRanOnce(s: State, pushes: nat) {
    forall t: TaskId :: s.finished[t] == if t < pushes then 1 else 0
  }

  /**
   No worker sleeps through work: with a worker asleep, the queue never holds more
   tasks than there are awake workers and pushes not yet followed by their notify_one.
   */
  lemma NoWorkerSleepsThroughWork(n: nat, steps: seq<Step>)
    requires n >= 1 && Legal(Init(n), steps) && SomeAsleep(Exec(Init(n), steps).workers)
    ensures var s := Exec(Init(n), steps);
            |s.queue| + Count(NotifyKind, steps) <= Sum(AwakeTally, s.workers) + Pushes(steps)
  {
    InitInv(n);
    ExecInv(Init(n), steps);
    RunBooks(n, steps);
  }

  /** Tasks start in the order in which they were pushed, and started and queued ones are all that were. */
  lemma TasksStartInOrder(n: nat, steps: seq<Step>)
    requires n >= 1 && Legal(Init(n), steps)
    ensures var s := Exec(Init(n), steps); s.started + s.queue == UpTo(Pushes(steps))
    ensures forall i :: 0 <= i < |Exec(Init(n), steps).started| ==> Exec(Init(n), steps).started[i] == i
  {
    var s := Exec(Init(n), steps);
    InitInv(n);
    ExecInv(Init(n), steps);
    RunBooks(n, steps);
    forall i | 0 <= i < |s.started| ensures s.started[i] == i {
      assert s.started[i] == (s.started + s.queue)[i];
    }
  }

  lemma {:induction false} UpToCount(n: nat, t: TaskId)
    ensures multiset(UpTo(n))[t] == if t < n then 1 else 0
  {
    if n > 0 {
      UpToCount(n - 1, t);
      assert UpTo(n) == UpTo(n - 1) + [n - 1];
    }
  }

  lemma NothingLeftToRun(s: State)
    requires Inv(s) && s.queue == []
    requires forall i :: 0 <= i < |s.workers| ==> !s.workers[i].Running?
    ensures AllRanOnce(s, s.pushed)
  {
    assert s.started == UpTo(s.pushed);
    forall t: TaskId ensures s.finished[t] == if t < s.pushed then 1 else 0 {
      SumZero(TaskTally(t), s.workers);
      UpToCount(s.pushed, t);
      assert TaskConserved(s, t);
    }
  }

  ghost predicate AllExited(s: State) {
    forall i :: 0 <= i < |s.workers| ==> s.workers[i].Exited?
  }

  /**
   Shutdown drains: once every worker has exited, stop has been set, the queue is empty,
   and of the tasks pushed in the run, before or after stop, each has run exactly once.
   */
  lemma ShutdownDrains(n: nat, steps: seq<Step>)
    requires n >= 1 && Legal(Init(n), steps) && AllExited(Exec(Init(n), steps))
    ensures Exec(Init(n), steps).queue == [] && AllRanOnce(Exec(Init(n), steps), Pushes(steps))
    ensures Count(StopKind, steps) > 0 && Count(FinishKind, steps) == Pushes(steps)
  {
    var s := Exec(Init(n), steps);
    InitInv(n);
    ExecInv(Init(n), steps);
    RunBooks(n, steps);
    assert s.workers[0].Exited?;
    NothingLeftToRun(s);
    SumsOfIdle(s);
  }

  /** With no task running, as many tasks are finished as were started. */
  lemma SumsOfIdle(s: State)
    requires RunsConserved(s)
    requires forall i :: 0 <= i < |s.workers| ==> !s.workers[i].Running?
    ensures |s.finished| == |s.started|
  {
    forall t: TaskId ensures multiset(s.started)[t] == s.finished[t] {
      SumZero(TaskTally(t), s.workers);
      assert TaskConserved(s, t);
    }
    assert multiset(s.started) == s.finished;
  }

  /** After notify_all no worker is asleep, then or ever again. */
  lemma NobodySleepsAfterNotifyAll(n: nat, steps: seq<Step>, i: nat)
    requires n >= 1 && Legal(Init(n), steps) && i < |steps| && steps[i] == NotifyAll
    ensures !SomeAsleep(Exec(Init(n), steps).workers)
  {
    var before, after := steps[..i + 1], steps[i + 1..];
    assert steps == before + after;
    LegalSplit(Init(n), before, after);
    assert before == steps[..i] + [NotifyAll];
    LegalSplit(Init(n), steps[..i], [NotifyAll]);
    var s := Exec(Init(n), steps[..i]);
    assert Exec(Apply(s, NotifyAll), []) == Apply(s, NotifyAll);
    InitInv(n);
    ExecInv(Init(n), before);
    NotifiedStays(Exec(Init(n), before), after);
  }

  lemma {:induction false} LegalSplit(s: State, a: seq<Step>, b: seq<Step>)
    requires Legal(s, a + b)
    ensures Legal(s, a) && Legal(Exec(s, a), b) && Exec(s, a + b) == Exec(Exec(s, a), b)
    decreases |a|
  {
    if a == [] {
      assert a + b == b;
    } else {
      assert (a + b)[1..] == a[1..] + b;
      LegalSplit(Apply(s, a[0]), a[1..], b);
    }
  }

  lemma {:induction false} NotifiedStays(s: State, more: seq<Step>)
    requires Inv(s) && s.notifiedAll && Legal(s, more)
    ensures Exec(s, more).notifiedAll && Inv(Exec(s, more))
    decreases |more|
  {
    if more != [] {
      StepKeepsInv(s, more[0]);
      NotifiedStays(Apply(s, more[0]), more[1..]);
    }
  }

  // ---- Progress ----

  /** Steps the pool takes by itself, leaving out pushes, spurious wakeups and the start of shutdown. */
  predicate Serves(step: Step) {
    !step.OutsidePush? && !step.TaskPush? && !step.SpuriousWake? && !step.SetStop?
  }

  ghost predicate Quiet(s: State) {
    forall step :: Enabled(s, step) ==> !Serves(step)
  }

  /** In a quiet state no worker is awake or running, and nobody owes a wakeup. */
  lemma QuietWorkers(s: State)
    requires Inv(s) && Quiet(s)
    ensures s.outsideOwes == 0
    ensures forall i :: 0 <= i < |s.workers| ==> s.workers[i] == if s.stop then Exited else Asleep
  {
    var woken := SomeWakeIsPossible(s.workers);
    assert Serves(OutsideNotify(woken)) && !Enabled(s, OutsideNotify(woken));
    assert Serves(NotifyAll) && !Enabled(s, NotifyAll);
    forall i | 0 <= i < |s.workers|
      ensures s.workers[i] == if s.stop then Exited else Asleep
    {
      assert Serves(TaskNotify(i, woken)) && !Enabled(s, TaskNotify(i, woken));
      assert Serves(Finish(i)) && !Enabled(s, Finish(i));
      assert Serves(Take(i)) && !Enabled(s, Take(i));
      assert Serves(Sleep(i)) && !Enabled(s, Sleep(i));
      assert Serves(Exit(i)) && !Enabled(s, Exit(i));
    }
  }

  /**
   The pool can stop moving only when its work is done: with no step of its own left,
   the queue is empty, every task pushed in the run has run exactly once, and the workers
   are all asleep or, after stop, all gone.
   */
  lemma QuietMeansDone(n: nat, steps: seq<Step>)
    requires n >= 1 && Legal(Init(n), steps) && Quiet(Exec(Init(n), steps))
    ensures var s := Exec(Init(n), steps);
            && s.queue == [] && AllRanOnce(s, Pushes(steps))
            && |s.workers| == n
            && forall i :: 0 <= i < n ==> s.workers[i] == if Count(StopKind, steps) > 0 then Exited else Asleep
  {
    var s := Exec(Init(n), steps);
    InitInv(n);
    ExecInv(Init(n), steps);
    RunBooks(n, steps);
    QuietWorkers(s);
    assert SomeAsleep(s.workers) || s.stop by {
      if !s.stop { assert s.workers[0].Asleep?; }
    }
    SumZero(AwakeTally, s.workers);
    SumZero(OwingTally, s.workers);
    assert s.queue == [];
    NothingLeftToRun(s);
  }

  /** After stop, until all workers have exited, some worker or the destructor can move. */
  lemma ShutdownNeverStuck(n: nat, steps: seq<Step>)
    requires n >= 1 && Legal(Init(n), steps)
    requires Count(StopKind, steps) > 0 && !AllExited(Exec(Init(n), steps))
    ensures exists step :: Enabled(Exec(Init(n), steps), step) && Serves(step)
  {
    if Quiet(Exec(Init(n), steps)) { QuietMeansDone(n, steps); }
  }

  /** What the pool still has to do. Each term is paid off by some step. */
  function Measure(s: State): nat {
    2 * |s.queue| + 2 * Owed(s) + Sum(WorkTally(s.stop), s.workers)
    + (if !s.stop then 2 * |s.workers| + 2 else if !s.notifiedAll then 1 else 0)
  }

  /** The two kinds of step that add work. */
  function Credit(s: State, step: Step): nat {
    if step.OutsidePush? || step.TaskPush? then 5
    else if step.SpuriousWake? && !s.stop then 2
    else 0
  }

  /** A notification adds at most the waking of one worker. */
  lemma NotifyWork(s: State, step: Step)
    requires Enabled(s, step) && Is(step, NotifyKind)
    ensures Sum(WorkTally(s.stop), Apply(s, step).workers) <= Sum(WorkTally(s.stop), s.workers) + 1
  {
    var ws := s.workers;
    if step.woken.Some? { SumUpdate(WorkTally(s.stop), ws, step.woken.value, Awake); }
    if step.TaskNotify? {
      SumUpdate(WorkTally(s.stop), Wake(ws, step.woken), step.w, ws[step.w].(owes := false));
    }
  }

  lemma NotifyFalls(s: State, step: Step)
    requires Enabled(s, step) && Is(step, NotifyKind)
    ensures Measure(Apply(s, step)) < Measure(s)
  {
    NotifyWork(s, step);
    NotifyOwes(s, step);
    assert |Apply(s, step).workers| == |s.workers|;
  }

  lemma BroadcastFalls(s: State, step: Step)
    requires Enabled(s, step) && (step.SetStop? || step.NotifyAll?)
    requires s.notifiedAll ==> s.stop
    ensures Measure(Apply(s, step)) < Measure(s)
  {
    var s' := Apply(s, step);
    SumSame(OwingTally, s.workers, s'.workers);
    SumBound(WorkTally(s.stop), s.workers, WorkTally(s'.stop), s'.workers, if step.SetStop? then 2 else 0);
  }

  /** A step of one worker other than a notification. */
  lemma WorkerMeasure(s: State, step: Step)
    requires Inv(s) && Enabled(s, step)
    requires step.TaskPush? || step.Take? || step.Finish? || step.Sleep? || step.SpuriousWake? || step.Exit?
    ensures Measure(Apply(s, step)) + 1 <= Measure(s) + Credit(s, step)
  {
    var w' := Apply(s, step).workers[step.w];
    StepOwes(s, step);
    SumUpdate(WorkTally(s.stop), s.workers, step.w, w');
    assert Apply(s, step).workers == s.workers[step.w := w'];
  }

  /** Every step makes the measure fall by at least one, up to its credit. */
  lemma StepMeasure(s: State, step: Step)
    requires Inv(s) && Enabled(s, step)
    ensures Measure(Apply(s, step)) + 1 <= Measure(s) + Credit(s, step)
  {
    if step.OutsideNotify? || step.TaskNotify? {
      NotifyFalls(s, step);
    } else if step.SetStop? || step.NotifyAll? {
      BroadcastFalls(s, step);
    } else if !step.OutsidePush? {
      WorkerMeasure(s, step);
    }
  }

  ghost function TotalCredit(s: State, steps: seq<Step>): nat
    requires Legal(s, steps)
    decreases |steps|
  {
    if steps == [] then 0 else Credit(s, steps[0]) + TotalCredit(Apply(s, steps[0]), steps[1..])
  }

  /** A run is no longer than its starting measure and the work added on the way allow. */
  lemma {:induction false} RunBound(s: State, steps: seq<Step>)
    requires Inv(s) && Legal(s, steps)
    ensures |steps| + Measure(Exec(s, steps)) <= Measure(s) + TotalCredit(s, steps)
    decreases |steps|
  {
    if steps != [] {
      StepKeepsInv(s, steps[0]);
      StepMeasure(s, steps[0]);
      RunBound(Apply(s, steps[0]), steps[1..]);
    }
  }

  lemma {:induction false} CreditAfterStop(s: State, steps: seq<Step>)
    requires s.stop && Legal(s, steps)
    ensures Exec(s, steps).stop && TotalCredit(s, steps) == 5 * Pushes(steps)
    decreases |steps|
  {
    if steps != [] { CreditAfterStop(Apply(s, steps[0]), steps[1..]); }
  }

  /**
   The joins return: after a run in which stop was set, a continuation with p pushes takes
   at most Measure + 5p steps, and one that cannot go on has ended with every worker gone,
   the queue empty and every task pushed before or during it run exactly once.
   */
  lemma ShutdownTerminates(n: nat, steps: seq<Step>, more: seq<Step>)
    requires n >= 1 && Legal(Init(n), steps) && Count(StopKind, steps) > 0
    requires Legal(Exec(Init(n), steps), more)
    ensures |more| <= Measure(Exec(Init(n), steps)) + 5 * Pushes(more)
    ensures var s := Exec(Exec(Init(n), steps), more);
            Quiet(s) ==> AllExited(s) && s.queue == [] && AllRanOnce(s, Pushes(steps) + Pushes(more))
  {
    var s := Exec(Init(n), steps);
    InitInv(n);
    ExecInv(Init(n), steps);
    RunBooks(n, steps);
    RunBound(s, more);
    CreditAfterStop(s, more);
    ExecConcat(Init(n), steps, more);
    CountConcat(PushKind, steps, more);
    CountConcat(StopKind, steps, more);
    if Quiet(Exec(s, more)) { QuietMeansDone(n, steps + more); }
  }

  lemma {:induction false} ExecConcat(s: State, steps: seq<Step>, more: seq<Step>)
    requires Legal(s, steps) && Legal(Exec(s, steps), more)
    ensures Legal(s, steps + more) && Exec(s, steps + more) == Exec(Exec(s, steps), more)
    decreases |steps|
  {
    if steps == [] {
      assert steps + more == more;
    } else {
      ExecConcat(Apply(s, steps[0]), steps[1..], more);
      assert (steps + more)[1..] == steps[1..] + more;
    }
  }
}
