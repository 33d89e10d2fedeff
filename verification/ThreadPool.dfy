/**
 The thread pool of core/thread_pool.cpp as a transition system. Each step is one
 critical section or one condition-variable call of one thread, so a run is any
 interleaving of the workers, the callers of enqueue and the destructor.
 */
module ThreadPool {
  import opened Prelude

  /** Tasks are numbered in the order in which they were pushed. */
  type TaskId = nat

  /** owes: the running task has pushed a task and not yet called notify_one. */
  datatype Worker = Asleep | Awake | Running(task: TaskId, owes: bool) | Exited

  datatype State = State(
    queue: seq<TaskId>,
    workers: seq<Worker>,
    stop: bool,
    notifiedAll: bool,
    outsideOwes: nat,            // outside callers between their push and their notify_one
    pushed: nat,                 // history: how many tasks were ever pushed
    started: seq<TaskId>,        // history: tasks in the order they were taken
    finished: multiset<TaskId>)  // history: tasks that ran to the end

  datatype Step =
    | OutsidePush
    | OutsideNotify(woken: Option<nat>)
    | TaskPush(w: nat)
    | TaskNotify(w: nat, woken: Option<nat>)
    | Take(w: nat)
    | Finish(w: nat)
    | Sleep(w: nat)
    | SpuriousWake(w: nat)
    | SetStop
    | NotifyAll
    | Exit(w: nat)

  function Init(n: nat): State {
    State([], seq(n, _ => Awake), false, false, 0, 0, [], multiset{})
  }

  ghost predicate SomeAsleep(ws: seq<Worker>) {
    exists i :: 0 <= i < |ws| && ws[i].Asleep?
  }

  /** notify_one wakes some sleeping worker, and does nothing only when there is none. */
  ghost predicate CanWake(ws: seq<Worker>, woken: Option<nat>) {
    match woken
    case Some(i) => i < |ws| && ws[i].Asleep?
    case None => !SomeAsleep(ws)
  }

  ghost predicate Enabled(s: State, step: Step) {
    match step
    case OutsidePush => !s.stop
    case OutsideNotify(woken) => s.outsideOwes > 0 && CanWake(s.workers, woken)
    case TaskPush(w) => w < |s.workers| && s.workers[w].Running? && !s.workers[w].owes
    case TaskNotify(w, woken) =>
      w < |s.workers| && s.workers[w].Running? && s.workers[w].owes && CanWake(s.workers, woken)
    case Take(w) => w < |s.workers| && s.workers[w].Awake? && s.queue != []
    case Finish(w) => w < |s.workers| && s.workers[w].Running? && !s.workers[w].owes
    case Sleep(w) => w < |s.workers| && s.workers[w].Awake? && !s.stop && s.queue == []
    case SpuriousWake(w) => w < |s.workers| && s.workers[w].Asleep?
    case SetStop => !s.stop
    case NotifyAll => s.stop && !s.notifiedAll
    case Exit(w) => w < |s.workers| && s.workers[w].Awake? && s.stop && s.queue == []
  }

  function Wake(ws: seq<Worker>, woken: Option<nat>): seq<Worker>
    requires woken.Some? ==> woken.value < |ws|
  {
    match woken
    case Some(i) => ws[i := Awake]
    case None => ws
  }

  function WakeAll(ws: seq<Worker>): seq<Worker> {
    seq(|ws|, i requires 0 <= i < |ws| => if ws[i].Asleep? then Awake else ws[i])
  }

  ghost function Apply(s: State, step: Step): State
    requires Enabled(s, step)
  {
    match step
    case OutsidePush =>
      s.(queue := s.queue + [s.pushed], pushed := s.pushed + 1, outsideOwes := s.outsideOwes + 1)
    case OutsideNotify(woken) =>
      s.(workers := Wake(s.workers, woken), outsideOwes := s.outsideOwes - 1)
    case TaskPush(w) =>
      s.(queue := s.queue + [s.pushed], pushed := s.pushed + 1,
         workers := s.workers[w := s.workers[w].(owes := true)])
    case TaskNotify(w, woken) =>
      s.(workers := Wake(s.workers, woken)[w := s.workers[w].(owes := false)])
    case Take(w) =>
      s.(queue := s.queue[1..], started := s.started + [s.queue[0]],
         workers := s.workers[w := Running(s.queue[0], false)])
    case Finish(w) =>
      s.(workers := s.workers[w := Awake], finished := s.finished + multiset{s.workers[w].task})
    case Sleep(w) => s.(workers := s.workers[w := Asleep])
    case SpuriousWake(w) => s.(workers := s.workers[w := Awake])
    case SetStop => s.(stop := true)
    case NotifyAll => s.(workers := WakeAll(s.workers), notifiedAll := true)
    case Exit(w) => s.(workers := s.workers[w := Exited])
  }

  // ---- Counting workers ----

  /** What is summed over the workers: awake ones, owed notifications, runs of one task, work left. */
  datatype Tally = AwakeTally | OwingTally | TaskTally(task: TaskId) | WorkTally(stop: bool)

  function Value(t: Tally, w: Worker): nat {
    match t
    case AwakeTally => if w.Awake? then 1 else 0
    case OwingTally => if w.Running? && w.owes then 1 else 0
    case TaskTally(task) => if w.Running? && w.task == task then 1 else 0
    case WorkTally(stop) =>
      match w
      case Asleep => if stop then 2 else 0
      case Awake => 1
      case Running(_, _) => 2
      case Exited => 0
  }

  function Sum(t: Tally, ws: seq<Worker>): nat {
    if ws == [] then 0 else Value(t, ws[0]) + Sum(t, ws[1..])
  }

  lemma {:induction false} SumUpdate(t: Tally, ws: seq<Worker>, i: nat, w: Worker)
    requires i < |ws|
    ensures Sum(t, ws[i := w]) == Sum(t, ws) - Value(t, ws[i]) + Value(t, w)
  {
    if i == 0 {
      assert ws[i := w][1..] == ws[1..];
    } else {
      SumUpdate(t, ws[1..], i - 1, w);
      assert ws[i := w][1..] == ws[1..][i - 1 := w];
    }
  }

  lemma {:induction false} SumZero(t: Tally, ws: seq<Worker>)
    requires forall i :: 0 <= i < |ws| ==> Value(t, ws[i]) == 0
    ensures Sum(t, ws) == 0
  {
    if ws != [] { SumZero(t, ws[1..]); }
  }

  /** If every worker's value grows by at most c, the sum grows by at most c per worker. */
  lemma {:induction false} SumBound(t: Tally, ws: seq<Worker>, t': Tally, ws': seq<Worker>, c: nat)
    requires |ws| == |ws'|
    requires forall i :: 0 <= i < |ws| ==> Value(t', ws'[i]) <= Value(t, ws[i]) + c
    ensures Sum(t', ws') <= Sum(t, ws) + c * |ws|
  {
    if ws != [] {
      assert Value(t', ws'[0]) <= Value(t, ws[0]) + c;
      SumBound(t, ws[1..], t', ws'[1..], c);
      assert c * |ws| == c + c * |ws[1..]|;
    }
  }

  lemma {:induction false} SumSame(t: Tally, ws: seq<Worker>, ws': seq<Worker>)
    requires |ws| == |ws'|
    requires forall i :: 0 <= i < |ws| ==> Value(t, ws[i]) == Value(t, ws'[i])
    ensures Sum(t, ws) == Sum(t, ws')
  {
    if ws != [] {
      assert Value(t, ws[0]) == Value(t, ws'[0]);
      SumSame(t, ws[1..], ws'[1..]);
    }
  }

  // ---- The invariant ----

  function Owed(s: State): nat {
    s.outsideOwes + Sum(OwingTally, s.workers)
  }

  /** While a worker sleeps, queued tasks are covered by awake workers and owed wakeups. */
  ghost predicate NoLostWakeup(s: State) {
    SomeAsleep(s.workers) ==> |s.queue| <= Sum(AwakeTally, s.workers) + Owed(s)
  }

  ghost predicate FlagsAgree(s: State) {
    && |s.workers| >= 1
    && (s.notifiedAll ==> s.stop && !SomeAsleep(s.workers))
    && (forall i :: 0 <= i < |s.workers| && s.workers[i].Exited? ==> s.stop)
    && (s.queue != [] ==> exists i :: 0 <= i < |s.workers| && !s.workers[i].Exited?)
  }

  function UpTo(n: nat): seq<TaskId> {
    seq(n, i => i)
  }

  /** Tasks are taken in push order and none is lost. */
  ghost predicate QueueConserved(s: State) {
    s.started + s.queue == UpTo(s.pushed)
  }

  /** Each time a task was taken, it is either still running or was finished. */
  ghost predicate TaskConserved(s: State, t: TaskId) {
    multiset(s.started)[t] == s.finished[t] + Sum(TaskTally(t), s.workers)
  }

  ghost predicate RunsConserved(s: State) {
    forall t: TaskId :: TaskConserved(s, t)
  }

  ghost predicate Inv(s: State) {
    NoLostWakeup(s) && FlagsAgree(s) && QueueConserved(s) && RunsConserved(s)
  }

  lemma InitInv(n: nat)
    requires n >= 1
    ensures Inv(Init(n))
  {
    var s := Init(n);
    assert s.workers[0].Awake?;
    forall t: TaskId ensures TaskConserved(s, t) {
      SumZero(TaskTally(t), s.workers);
    }
  }

  lemma NotifyKeepsWakeups(s: State, step: Step)
    requires NoLostWakeup(s) && Enabled(s, step) && (step.OutsideNotify? || step.TaskNotify?)
    ensures NoLostWakeup(Apply(s, step))
  {
    var ws := s.workers;
    if step.woken.Some? { UpdateBoth(ws, step.woken.value, Awake); }
    if step.TaskNotify? {
      var w := step.w;
      UpdateBoth(Wake(ws, step.woken), w, ws[w].(owes := false));
    }
  }

  lemma StepKeepsWakeups(s: State, step: Step)
    requires NoLostWakeup(s) && Enabled(s, step)
    ensures NoLostWakeup(Apply(s, step))
  {
    var ws := s.workers;
    if step.OutsideNotify? || step.TaskNotify? {
      NotifyKeepsWakeups(s, step);
    } else if step.TaskPush? {
      UpdateBoth(ws, step.w, ws[step.w].(owes := true));
    } else if step.Take? {
      UpdateBoth(ws, step.w, Running(s.queue[0], false));
    } else if step.Finish? || step.SpuriousWake? {
      UpdateBoth(ws, step.w, Awake);
    }
  }

  lemma UpdateBoth(ws: seq<Worker>, i: nat, w: Worker)
    requires i < |ws|
    ensures Sum(AwakeTally, ws[i := w]) == Sum(AwakeTally, ws) - Value(AwakeTally, ws[i]) + Value(AwakeTally, w)
    ensures Sum(OwingTally, ws[i := w]) == Sum(OwingTally, ws) - Value(OwingTally, ws[i]) + Value(OwingTally, w)
    ensures !w.Asleep? && SomeAsleep(ws[i := w]) ==> SomeAsleep(ws)
  {
    SumUpdate(AwakeTally, ws, i, w);
    SumUpdate(OwingTally, ws, i, w);
    if !w.Asleep? && SomeAsleep(ws[i := w]) {
      var j :| 0 <= j < |ws| && ws[i := w][j].Asleep?;
      assert ws[j].Asleep?;
    }
  }

  lemma StepKeepsNotified(s: State, step: Step)
    requires Inv(s) && Enabled(s, step)
    ensures Apply(s, step).notifiedAll ==> Apply(s, step).stop && !SomeAsleep(Apply(s, step).workers)
  {
    var s' := Apply(s, step);
    if s'.notifiedAll && !step.NotifyAll? {
      assert forall i :: 0 <= i < |s.workers| ==> !s.workers[i].Asleep?;
    }
  }

  lemma StepKeepsServer(s: State, step: Step)
    requires Inv(s) && Enabled(s, step)
    requires Apply(s, step).queue != []
    ensures exists i :: 0 <= i < |s.workers| && !Apply(s, step).workers[i].Exited?
  {
    var s' := Apply(s, step);
    if step.OutsidePush? {
      assert !s'.workers[0].Exited?;
    } else if step.TaskPush? {
      assert !s'.workers[step.w].Exited?;
    } else {
      assert s.queue != [];
      var i :| 0 <= i < |s.workers| && !s.workers[i].Exited?;
      assert !s'.workers[i].Exited?;
    }
  }

  lemma StepKeepsExited(s: State, step: Step, i: nat)
    requires Inv(s) && Enabled(s, step)
    requires i < |s.workers| && Apply(s, step).workers[i].Exited?
    ensures Apply(s, step).stop
  {
    if s.workers[i].Exited? { assert s.stop; }
  }

  lemma StepKeepsFlags(s: State, step: Step)
    requires Inv(s) && Enabled(s, step)
    ensures FlagsAgree(Apply(s, step))
  {
    var s' := Apply(s, step);
    StepKeepsNotified(s, step);
    if s'.queue != [] { StepKeepsServer(s, step); }
    assert |s'.workers| == |s.workers|;
    forall i | 0 <= i < |s'.workers| && s'.workers[i].Exited? ensures s'.stop {
      StepKeepsExited(s, step, i);
    }
  }

  lemma StepKeepsQueue(s: State, step: Step)
    requires QueueConserved(s) && Enabled(s, step)
    ensures QueueConserved(Apply(s, step))
  {
    if step.OutsidePush? || step.TaskPush? {
      assert s.started + (s.queue + [s.pushed]) == (s.started + s.queue) + [s.pushed];
    } else if step.Take? {
      assert s.queue == [s.queue[0]] + s.queue[1..];
      assert (s.started + [s.queue[0]]) + s.queue[1..] == s.started + s.queue;
    }
  }

  /** Only taking and finishing a task change what a worker runs. */
  lemma OtherStepsKeepTask(s: State, step: Step, i: nat)
    requires Enabled(s, step) && !step.Take? && !step.Finish? && i < |s.workers|
    ensures |Apply(s, step).workers| == |s.workers|
    ensures var w, w' := s.workers[i], Apply(s, step).workers[i];
            (w.Running? <==> w'.Running?) && (w.Running? ==> w.task == w'.task)
  {
  }

  lemma TakeKeepsTask(s: State, w: nat, t: TaskId)
    requires TaskConserved(s, t) && Enabled(s, Take(w))
    ensures TaskConserved(Apply(s, Take(w)), t)
  {
    SumUpdate(TaskTally(t), s.workers, w, Running(s.queue[0], false));
    assert multiset(s.started + [s.queue[0]]) == multiset(s.started) + multiset{s.queue[0]};
  }

  lemma FinishKeepsTask(s: State, w: nat, t: TaskId)
    requires TaskConserved(s, t) && Enabled(s, Finish(w))
    ensures TaskConserved(Apply(s, Finish(w)), t)
  {
    SumUpdate(TaskTally(t), s.workers, w, Awake);
  }

  lemma StepKeepsTask(s: State, step: Step, t: TaskId)
    requires TaskConserved(s, t) && Enabled(s, step)
    ensures TaskConserved(Apply(s, step), t)
  {
    if step.Take? {
      TakeKeepsTask(s, step.w, t);
    } else if step.Finish? {
      FinishKeepsTask(s, step.w, t);
    } else {
      var ws' := Apply(s, step).workers;
      assert |ws'| == |s.workers|;
      forall i | 0 <= i < |s.workers|
        ensures Value(TaskTally(t), s.workers[i]) == Value(TaskTally(t), ws'[i])
      {
        OtherStepsKeepTask(s, step, i);
      }
      SumSame(TaskTally(t), s.workers, ws');
    }
  }

  /** Every step keeps the invariant, and the tasks it speaks of grow by one with each push and only then. */
  lemma StepKeepsInv(s: State, step: Step)
    requires Inv(s) && Enabled(s, step)
    ensures Inv(Apply(s, step))
    ensures Apply(s, step).pushed == s.pushed + if step.OutsidePush? || step.TaskPush? then 1 else 0
  {
    StepKeepsWakeups(s, step);
    StepKeepsFlags(s, step);
    StepKeepsQueue(s, step);
    forall t: TaskId ensures TaskConserved(Apply(s, step), t) { StepKeepsTask(s, step, t); }
  }
}
