/** The thread pool (src/common/util/thread_pool.h) as a step system.  Taking the mutex makes each of its critical
  sections one step; the condition variable makes a waiting worker's step enabled only when there is work. */
module ThreadPools {

  /** What the queue holds: tasks, and the invalid ones that tell a worker to stop. */
  datatype Item<T> = Task(task: T) | Stop

  datatype Worker<T> = Waiting | Running(task: T) | Stopped

  /** The thread that starts workers and finishes; finish blocks it until all workers are done.  Any thread may add
    tasks and cancel the pending ones in the meantime. */
  datatype Controller = Free | Joining

  /** The fields, the threads, and a record of the tasks.  While joining, early are the tasks queued before finish, of
    which cut are still in the queue and dropped have been cancelled, and lost counts the stop tokens that have been
    cancelled. */
  datatype State<T(==)> = State(
    work: seq<Item<T>>, workers: seq<Worker<T>>, controller: Controller,
    enqueued: seq<T>, cancelled: seq<Item<T>>, ran: seq<T>, early: seq<T>, cut: nat, dropped: seq<Item<T>>, lost: nat)

  datatype Step<T> = Enqueue(task: T) | Start(n: nat) | CancelPending | Finish | Joined | Take(w: nat) | Done(w: nat)

  function Init<T(==)>(): State<T> {
    State([], [], Free, [], [], [], [], 0, [], 0)
  }

  // ---------------------------------------------------------------------------
  // Counting

  /** How often a task occurs. */
  function Count<T(==)>(tasks: seq<T>, x: T): nat {
    if tasks == [] then 0 else Count(tasks[..|tasks| - 1], x) + if tasks[|tasks| - 1] == x then 1 else 0
  }

  function Queued<T(==)>(work: seq<Item<T>>, x: T): nat {
    if work == [] then 0 else (if work[0] == Task(x) then 1 else 0) + Queued(work[1..], x)
  }

  function Holds<T(==)>(w: Worker<T>, x: T): nat {
    if w == Running(x) then 1 else 0
  }

  /** How many workers are running the task. */
  function Held<T(==)>(workers: seq<Worker<T>>, x: T): nat {
    if workers == [] then 0 else Holds(workers[0], x) + Held(workers[1..], x)
  }

  function Live<T>(w: Worker<T>): nat {
    if w.Stopped? then 0 else 1
  }

  /** How many workers have not stopped, and how many of them are running a task. */
  function Alive<T>(workers: seq<Worker<T>>): nat {
    if workers == [] then 0 else Live(workers[0]) + Alive(workers[1..])
  }

  function Busy<T>(workers: seq<Worker<T>>): nat {
    if workers == [] then 0 else (if workers[0].Running? then 1 else 0) + Busy(workers[1..])
  }

  function StopsIn<T>(work: seq<Item<T>>): nat {
    if work == [] then 0 else (if work[0].Stop? then 1 else 0) + StopsIn(work[1..])
  }

  function Min(a: nat, b: nat): nat {
    if a < b then a else b
  }

  function Stops<T>(n: nat): (r: seq<Item<T>>)
    ensures |r| == n && forall i :: 0 <= i < n ==> r[i] == Stop
  {
    seq(n, i => Stop)
  }

  function Recruits<T>(n: nat): (r: seq<Worker<T>>)
    ensures |r| == n && forall i :: 0 <= i < n ==> r[i] == Waiting
  {
    seq(n, i => Waiting)
  }

  lemma CountSnoc<T>(tasks: seq<T>, y: T, x: T)
    ensures Count(tasks + [y], x) == Count(tasks, x) + if y == x then 1 else 0
  {
    assert (tasks + [y])[..|tasks|] == tasks;
  }

  lemma {:induction false} QueuedSplit<T>(a: seq<Item<T>>, b: seq<Item<T>>, x: T)
    ensures Queued(a + b, x) == Queued(a, x) + Queued(b, x)
  {
    if a == [] {
      assert a + b == b;
    } else {
      assert (a + b)[1..] == a[1..] + b;
      QueuedSplit(a[1..], b, x);
    }
  }

  lemma {:induction false} StopsQueueNone<T>(work: seq<Item<T>>, x: T)
    requires forall i :: 0 <= i < |work| ==> work[i] == Stop
    ensures Queued(work, x) == 0
  {
    if work != [] { StopsQueueNone(work[1..], x); }
  }

  lemma {:induction false} StopsInParts<T>(work: seq<Item<T>>, cut: nat, k: nat)
    requires cut + k <= |work| && AllTasks(work[..cut]) && AllTasks(work[cut + k..])
    requires forall i :: cut <= i < cut + k ==> work[i] == Stop
    ensures StopsIn(work) == k
  {
    if work != [] {
      var rest := work[1..];
      if cut > 0 {
        assert work[..cut][0] == work[0] && work[..cut][1..] == rest[..cut - 1]
            && work[cut + k..] == rest[cut - 1 + k..];
        StopsInParts(rest, cut - 1, k);
      } else if k > 0 {
        assert rest[..0] == [] && work[k..] == rest[k - 1..];
        StopsInParts(rest, 0, k - 1);
      } else {
        assert work[0..][0] == work[0] && rest == work[0..][1..] && rest[0..] == rest && rest[..0] == [];
        StopsInParts(rest, 0, 0);
      }
    }
  }

  lemma {:induction false} WorkersSplit<T>(a: seq<Worker<T>>, b: seq<Worker<T>>)
    ensures Alive(a + b) == Alive(a) + Alive(b)
  {
    if a == [] {
      assert a + b == b;
    } else {
      assert (a + b)[1..] == a[1..] + b;
      WorkersSplit(a[1..], b);
    }
  }

  lemma {:induction false} HeldSplit<T>(a: seq<Worker<T>>, b: seq<Worker<T>>, x: T)
    ensures Held(a + b, x) == Held(a, x) + Held(b, x)
  {
    if a == [] {
      assert a + b == b;
    } else {
      assert (a + b)[1..] == a[1..] + b;
      HeldSplit(a[1..], b, x);
    }
  }

  /** What changes when one worker does. */
  lemma {:induction false} WorkerChanges<T>(workers: seq<Worker<T>>, w: nat, y: Worker<T>)
    requires w < |workers|
    ensures Alive(workers[w := y]) + Live(workers[w]) == Alive(workers) + Live(y)
    ensures Busy(workers[w := y]) + (if workers[w].Running? then 1 else 0)
      == Busy(workers) + (if y.Running? then 1 else 0)
  {
    if w > 0 {
      assert workers[w := y][1..] == workers[1..][w - 1 := y];
      WorkerChanges(workers[1..], w - 1, y);
    } else {
      assert workers[w := y][1..] == workers[1..];
    }
  }

  lemma {:induction false} HeldChanges<T>(workers: seq<Worker<T>>, w: nat, y: Worker<T>, x: T)
    requires w < |workers|
    ensures Held(workers[w := y], x) + Holds(workers[w], x) == Held(workers, x) + Holds(y, x)
  {
    if w > 0 {
      assert workers[w := y][1..] == workers[1..][w - 1 := y];
      HeldChanges(workers[1..], w - 1, y, x);
    } else {
      assert workers[w := y][1..] == workers[1..];
    }
  }

  lemma {:induction false} AllRecruits<T>(n: nat)
    ensures Alive(Recruits<T>(n)) == n
  {
    if n > 0 {
      assert Recruits<T>(n)[1..] == Recruits(n - 1);
      AllRecruits<T>(n - 1);
    }
  }

  lemma {:induction false} NoneHeld<T>(workers: seq<Worker<T>>, x: T)
    requires forall i :: 0 <= i < |workers| ==> !workers[i].Running?
    ensures Held(workers, x) == 0
  {
    if workers != [] { NoneHeld(workers[1..], x); }
  }

  lemma {:induction false} AliveBound<T>(workers: seq<Worker<T>>)
    ensures Alive(workers) <= |workers|
    ensures Alive(workers) == 0 ==> forall i :: 0 <= i < |workers| ==> workers[i].Stopped?
    ensures Alive(workers) > 0 ==> exists i :: 0 <= i < |workers| && !workers[i].Stopped?
  {
    if workers != [] {
      var rest := workers[1..];
      AliveBound(rest);
      assert forall i :: 0 < i < |workers| ==> workers[i] == rest[i - 1];
      if Alive(rest) > 0 {
        var i :| 0 <= i < |rest| && !rest[i].Stopped?;
        assert !workers[i + 1].Stopped?;
      } else if Alive(workers) > 0 {
        assert !workers[0].Stopped?;
      }
    }
  }

  // ---------------------------------------------------------------------------
  // The steps

  predicate Enabled<T(==)>(s: State<T>, step: Step<T>) {
    match step
    case Enqueue(_) => true
    case Start(_) => s.controller.Free?
    case CancelPending => true
    case Finish => s.controller.Free?
    case Joined => s.controller.Joining? && Alive(s.workers) == 0
    case Take(w) => w < |s.workers| && s.workers[w].Waiting? && s.work != []
    case Done(w) => w < |s.workers| && s.workers[w].Running?
  }

  function Apply<T(==)>(s: State<T>, step: Step<T>): State<T>
    requires Enabled(s, step)
  {
    match step
    case Enqueue(task) => s.(work := s.work + [Task(task)], enqueued := s.enqueued + [task])
    case Start(n) => s.(workers := s.workers + Recruits(n))
    case CancelPending =>
      s.(work := [], cancelled := s.cancelled + s.work, cut := 0, lost := s.lost + StopsIn(s.work),
         dropped := s.dropped + s.work[..Min(s.cut, |s.work|)])
    case Finish =>
      s.(work := s.work + Stops(|s.workers|), controller := Joining, early := s.enqueued, cut := |s.work|,
         dropped := s.cancelled, lost := 0)
    case Joined => s.(workers := [], controller := Free)
    case Take(w) =>
      s.(work := s.work[1..], cut := if s.cut > 0 then s.cut - 1 else 0,
         workers := s.workers[w := match s.work[0] case Task(task) => Running(task) case Stop => Stopped])
    case Done(w) => s.(ran := s.ran + [s.workers[w].task], workers := s.workers[w := Waiting])
  }

  // ---------------------------------------------------------------------------
  // The invariant

  /** No task is lost or doubled. */
  predicate Conserved<T(==)>(s: State<T>, x: T) {
    Count(s.enqueued, x) == Count(s.ran, x) + Held(s.workers, x) + Queued(s.work, x) + Queued(s.cancelled, x)
  }

  predicate AllTasks<T(==)>(work: seq<Item<T>>) {
    forall i :: 0 <= i < |work| ==> work[i].Task?
  }

  /** While joining, the queue holds the early tasks, then one stop token for each worker that has not stopped, then
    later tasks; a worker has stopped only after the early tasks had all been taken.  Cancelling takes every token
    away. */
  predicate InOrder<T(==)>(s: State<T>) {
    var alive := Alive(s.workers);
    match s.controller
    case Free => AllTasks(s.work) && alive == |s.workers|
    case Joining =>
      && (s.lost == 0 || s.lost == alive) && alive <= |s.workers| &&
      var k := alive - s.lost;
      && s.cut + k <= |s.work|
      && AllTasks(s.work[..s.cut]) && AllTasks(s.work[s.cut + k..])
      && (forall i :: s.cut <= i < s.cut + k ==> s.work[i] == Stop)
      && (k < |s.workers| ==> s.cut == 0)
      && |s.work| - s.cut - k <= |s.enqueued| - |s.early|
  }

  /** The early tasks on their own, as long as no token is lost. */
  predicate EarlyConserved<T(==)>(s: State<T>, x: T) {
    s.controller.Joining? && s.lost == 0 ==>
      && s.cut <= |s.work|
      && Count(s.early, x) == Count(s.ran, x) + Held(s.workers, x) + Queued(s.work[..s.cut], x) + Queued(s.dropped, x)
  }

  predicate Inv<T(==)>(s: State<T>, x: T) {
    Conserved(s, x) && InOrder(s) && EarlyConserved(s, x)
  }

  lemma EnqueueKeepsOrder<T>(s: State<T>, task: T)
    requires InOrder(s)
    ensures InOrder(Apply(s, Enqueue(task)))
  {
    var t := Apply(s, Enqueue(task));
    if s.controller.Joining? {
      var k := Alive(s.workers) - s.lost;
      assert t.work[..t.cut] == s.work[..s.cut];
      assert t.work[s.cut + k..] == s.work[s.cut + k..] + [Task(task)];
    }
  }

  lemma EnqueueKeeps<T>(s: State<T>, task: T, x: T)
    requires Inv(s, x)
    ensures Inv(Apply(s, Enqueue(task)), x)
  {
    var t := Apply(s, Enqueue(task));
    EnqueueKeepsOrder(s, task);
    assert Conserved(t, x) by {
      CountSnoc(s.enqueued, task, x);
      QueuedSplit(s.work, [Task(task)], x);
      QueuedOne(Task(task), x);
    }
    assert EarlyConserved(t, x) by {
      if s.controller.Joining? { assert t.work[..s.cut] == s.work[..s.cut]; }
    }
  }

  lemma QueuedOne<T>(i: Item<T>, x: T)
    ensures Queued([i], x) == if i == Task(x) then 1 else 0
  {
    var one := [i];
    assert one[1..] == [];
  }

  lemma StartKeeps<T>(s: State<T>, n: nat, x: T)
    requires Inv(s, x) && s.controller.Free?
    ensures Inv(Apply(s, Start(n)), x)
  {
    WorkersSplit(s.workers, Recruits(n));
    HeldSplit(s.workers, Recruits(n), x);
    AllRecruits<T>(n);
    NoneHeld(Recruits(n), x);
  }

  /** Cancelling takes away every token there is: one for each worker alive. */
  lemma CancelLoses<T>(s: State<T>)
    requires InOrder(s)
    ensures Apply(s, CancelPending).lost == if s.controller.Joining? then Alive(s.workers) else s.lost
  {
    if s.controller.Joining? {
      StopsInParts(s.work, s.cut, Alive(s.workers) - s.lost);
    } else {
      assert s.work[..0] == [] && s.work[0..] == s.work;
      StopsInParts(s.work, 0, 0);
    }
  }

  lemma CancelKeeps<T>(s: State<T>, x: T)
    requires Inv(s, x)
    ensures Inv(Apply(s, CancelPending), x)
  {
    var t := Apply(s, CancelPending);
    CancelKeepsOrder(s);
    assert Conserved(t, x) by { QueuedSplit(s.cancelled, s.work, x); }
    CancelKeepsEarly(s, x);
  }

  lemma CancelKeepsOrder<T>(s: State<T>)
    requires InOrder(s)
    ensures InOrder(Apply(s, CancelPending))
  {
    CancelLoses(s);
    AliveBound(s.workers);
  }

  lemma CancelKeepsEarly<T>(s: State<T>, x: T)
    requires InOrder(s) && EarlyConserved(s, x)
    ensures EarlyConserved(Apply(s, CancelPending), x)
  {
    hide Count, Held;
    var t := Apply(s, CancelPending);
    CancelLoses(s);
    QueuedSplit(s.dropped, s.work[..Min(s.cut, |s.work|)], x);
    assert t.work[..t.cut] == [];
  }

  lemma FinishKeeps<T>(s: State<T>, x: T)
    requires Inv(s, x) && s.controller.Free?
    ensures Inv(Apply(s, Finish), x)
  {
    var tokens := Stops<T>(|s.workers|);
    QueuedSplit(s.work, tokens, x);
    StopsQueueNone(tokens, x);
    assert (s.work + tokens)[..|s.work|] == s.work;
  }

  lemma TakeKeepsOrder<T>(s: State<T>, w: nat)
    requires InOrder(s) && Enabled(s, Take(w))
    ensures InOrder(Apply(s, Take(w)))
    ensures s.controller.Joining? && s.cut == 0 && s.lost == 0 ==> s.work[0] == Stop
    ensures s.controller.Free? || s.cut > 0 || s.lost > 0 ==> s.work[0].Task?
    ensures s.controller.Joining? ==> Apply(s, Take(w)).lost == s.lost
  {
    hide Alive, Busy;
    var t := Apply(s, Take(w));
    WorkerChanges(s.workers, w, t.workers[w]);
    AliveBound(s.workers);
    AliveBound(t.workers);
    if s.controller.Joining? && s.cut > 0 {
      assert s.work[..s.cut][0] == s.work[0];
    }
  }

  lemma TakeKeeps<T>(s: State<T>, w: nat, x: T)
    requires Inv(s, x) && Enabled(s, Take(w))
    ensures Inv(Apply(s, Take(w)), x)
  {
    var t := Apply(s, Take(w));
    TakeKeepsOrder(s, w);
    hide InOrder;
    HeldChanges(s.workers, w, t.workers[w], x);
    if s.controller.Joining? && s.cut > 0 {
      assert s.work[..s.cut][0] == s.work[0] && s.work[..s.cut][1..] == t.work[..t.cut];
    } else if s.controller.Joining? {
      assert s.work[..0] == [] && t.work[..0] == [];
    }
  }

  lemma DoneKeeps<T>(s: State<T>, w: nat, x: T)
    requires Inv(s, x) && Enabled(s, Done(w))
    ensures Inv(Apply(s, Done(w)), x)
  {
    WorkerChanges(s.workers, w, Waiting);
    HeldChanges(s.workers, w, Waiting, x);
    CountSnoc(s.ran, s.workers[w].task, x);
  }

  lemma JoinedKeeps<T>(s: State<T>, x: T)
    requires Inv(s, x) && Enabled(s, Joined)
    ensures Inv(Apply(s, Joined), x)
  {
    AliveBound(s.workers);
    NoneHeld(s.workers, x);
    assert s.work == s.work[..s.cut] + s.work[s.cut..];
  }

  lemma StepInv<T>(s: State<T>, step: Step<T>, x: T)
    requires Inv(s, x) && Enabled(s, step)
    ensures Inv(Apply(s, step), x)
  {
    match step {
      case Enqueue(task) => EnqueueKeeps(s, task, x);
      case Start(n) => StartKeeps(s, n, x);
      case CancelPending => CancelKeeps(s, x);
      case Finish => FinishKeeps(s, x);
      case Joined => JoinedKeeps(s, x);
      case Take(w) => TakeKeeps(s, w, x);
      case Done(w) => DoneKeeps(s, w, x);
    }
  }

  // ---------------------------------------------------------------------------
  // Draining

  /** A worker's step; every other step belongs to a client or to the controller. */
  predicate IsWorkerStep<T>(step: Step<T>) {
    step.Take? || step.Done?
  }

  function Measure<T(==)>(s: State<T>): nat {
    2 * |s.work| + Busy(s.workers)
  }

  /** Every worker's step makes the measure smaller. */
  lemma MeasureDecreases<T>(s: State<T>, step: Step<T>)
    requires Enabled(s, step) && IsWorkerStep(step)
    ensures Measure(Apply(s, step)) < Measure(s)
  {
    WorkerChanges(s.workers, step.w, Apply(s, step).workers[step.w]);
  }

  /** While joining with no token lost, the join is possible or some worker can go on: the pool does not get stuck. */
  lemma NeverStuck<T>(s: State<T>)
    requires InOrder(s) && s.controller.Joining? && s.lost == 0
    ensures Enabled(s, Joined) || exists step :: IsWorkerStep(step) && Enabled(s, step)
  {
    AliveBound(s.workers);
    if Alive(s.workers) > 0 {
      var w :| 0 <= w < |s.workers| && !s.workers[w].Stopped?;
      var step: Step<T> := if s.workers[w].Waiting? then Take(w) else Done(w);
      assert IsWorkerStep(step) && Enabled(s, step);
    }
  }

  // ---------------------------------------------------------------------------
  // Runs

  ghost predicate IsRun<T>(states: seq<State<T>>, steps: seq<Step<T>>) {
    && |states| == |steps| + 1 && states[0] == Init()
    && forall k :: 0 <= k < |steps| ==> Enabled(states[k], steps[k]) && states[k + 1] == Apply(states[k], steps[k])
  }

  /** Runs begin with an empty pool, and any step that is enabled at their end goes on with them. */
  lemma RunGrows<T>(states: seq<State<T>>, steps: seq<Step<T>>, step: Step<T>)
    ensures IsRun<T>([Init()], [])
    ensures IsRun(states, steps) && Enabled(states[|steps|], step) ==>
      IsRun(states + [Apply(states[|steps|], step)], steps + [step])
  {
    hide Init, Enabled, Apply;
  }

  lemma {:induction false} RunInv<T>(states: seq<State<T>>, steps: seq<Step<T>>, k: nat, x: T)
    requires IsRun(states, steps) && k <= |steps|
    ensures Inv(states[k], x)
  {
    if k > 0 {
      hide Inv, Enabled, Apply;
      RunInv(states, steps, k - 1, x);
      StepInv(states[k - 1], steps[k - 1], x);
    }
  }

  // --- the order of the tasks

  /** The tasks submitted, from the steps alone. */
  function Submitted<T>(steps: seq<Step<T>>): seq<T> {
    if steps == [] then []
    else
      var front, step := steps[..|steps| - 1], steps[|steps| - 1];
      if step.Enqueue? then Submitted(front) + [step.task] else Submitted(front)
  }

  /** The tasks that workers have started to run: each step of a worker leaves it running one, stopped, or waiting. */
  function Started<T>(states: seq<State<T>>, steps: seq<Step<T>>): seq<T>
    requires |steps| < |states|
  {
    if steps == [] then []
    else
      var n := |steps| - 1;
      var step, front := steps[n], Started(states, steps[..n]);
      if step.Take? && step.w < |states[n + 1].workers| && states[n + 1].workers[step.w].Running? then
        front + [states[n + 1].workers[step.w].task]
      else front
  }

  /** What is left of the tasks submitted once those are removed that were cancelled: all that had not been started. */
  function Surviving<T>(states: seq<State<T>>, steps: seq<Step<T>>): seq<T>
    requires |steps| < |states|
  {
    if steps == [] then []
    else
      var n := |steps| - 1;
      var step, front, started := steps[n], Surviving(states, steps[..n]), |Started(states, steps[..n])|;
      if step.Enqueue? then front + [step.task]
      else if step.CancelPending? && started <= |front| then front[..started]
      else front
  }

  function TaskOf<T>(i: Item<T>): seq<T> {
    match i case Task(task) => [task] case Stop => []
  }

  /** The tasks in the queue. */
  function TasksIn<T>(work: seq<Item<T>>): seq<T> {
    if work == [] then [] else TaskOf(work[0]) + TasksIn(work[1..])
  }

  lemma {:induction false} TasksSplit<T>(a: seq<Item<T>>, b: seq<Item<T>>)
    ensures TasksIn(a + b) == TasksIn(a) + TasksIn(b)
  {
    if a == [] {
      assert a + b == b;
    } else {
      hide TaskOf;
      assert (a + b)[1..] == a[1..] + b;
      TasksSplit(a[1..], b);
      Regroup(TaskOf(a[0]), TasksIn(a[1..]), TasksIn(b));
    }
  }

  lemma {:induction false} StopsHoldNone<T>(n: nat)
    ensures TasksIn(Stops<T>(n)) == []
  {
    if n > 0 {
      assert Stops<T>(n)[1..] == Stops(n - 1);
      StopsHoldNone<T>(n - 1);
    }
  }

  lemma TasksOne<T>(task: T)
    ensures TasksIn([Task(task)]) == [task]
  {
    assert [Task(task)][1..] == [];
  }

  /** How a step changes the tasks in the queue. */
  lemma TasksMove<T>(s: State<T>, step: Step<T>)
    requires Enabled(s, step)
    ensures var t := Apply(s, step); match step
      case Enqueue(task) => TasksIn(t.work) == TasksIn(s.work) + [task]
      case CancelPending => TasksIn(t.work) == []
      case Take(w) =>
        w < |t.workers| &&
        TasksIn(s.work) == (if t.workers[w].Running? then [t.workers[w].task] else []) + TasksIn(t.work)
      case _ => TasksIn(t.work) == TasksIn(s.work)
  {
    match step {
      case Enqueue(task) =>
        TasksSplit(s.work, [Task(task)]);
        TasksOne(task);
      case Finish =>
        TasksSplit(s.work, Stops(|s.workers|));
        StopsHoldNone<T>(|s.workers|);
      case _ =>
    }
  }

  lemma OrderSnoc<T>(states: seq<State<T>>, steps: seq<Step<T>>, k: nat)
    requires 0 < k <= |steps| < |states|
    ensures var past, now, step, workers := steps[..k - 1], steps[..k], steps[k - 1], states[k].workers;
      && Started(states, now) == Started(states, past) +
        (if step.Take? && step.w < |workers| && workers[step.w].Running? then [workers[step.w].task] else [])
      && Surviving(states, now) ==
        if step.Enqueue? then Surviving(states, past) + [step.task]
        else if step.CancelPending? && |Started(states, past)| <= |Surviving(states, past)| then
          Surviving(states, past)[..|Started(states, past)|]
        else Surviving(states, past)
  {
    assert steps[..k][..k - 1] == steps[..k - 1];
  }

  lemma Regroup<T>(a: seq<T>, b: seq<T>, c: seq<T>)
    ensures a + (b + c) == (a + b) + c && a + [] == a
  {
  }

  /** In every run tasks are started in the order in which they were submitted, whatever the number of workers: those
    started, and then those in the queue, are the ones submitted, without those cancelled. */
  lemma {:induction false} StartedInOrder<T>(states: seq<State<T>>, steps: seq<Step<T>>, k: nat)
    requires IsRun(states, steps) && k <= |steps|
    ensures Started(states, steps[..k]) + TasksIn(states[k].work) == Surviving(states, steps[..k])
  {
    if k > 0 {
      hide Enabled, Apply, TasksIn, Started, Surviving;
      StartedInOrder(states, steps, k - 1);
      var n, step := k - 1, steps[k - 1];
      TasksMove(states[n], step);
      OrderSnoc(states, steps, k);
      var a, b := Started(states, steps[..n]), TasksIn(states[n].work);
      Regroup(a, b, if step.Enqueue? then [step.task] else []);
      if step.CancelPending? {
        assert (a + b)[..|a|] == a;
      } else if step.Take? {
        var vs := if states[k].workers[step.w].Running? then [states[k].workers[step.w].task] else [];
        Regroup(a, vs, TasksIn(states[k].work));
      }
    }
  }

  /** Without a cancellation nothing is removed. */
  lemma {:induction false} AllSurvive<T>(states: seq<State<T>>, steps: seq<Step<T>>, k: nat)
    requires k <= |steps| < |states| && forall j :: 0 <= j < k ==> !steps[j].CancelPending?
    ensures Surviving(states, steps[..k]) == Submitted(steps[..k])
  {
    if k > 0 {
      AllSurvive(states, steps, k - 1);
      assert steps[..k][..k - 1] == steps[..k - 1];
    }
  }

  lemma {:induction false} EnqueuedKnown<T>(states: seq<State<T>>, steps: seq<Step<T>>, k: nat)
    requires IsRun(states, steps) && k <= |steps|
    ensures states[k].enqueued == Submitted(steps[..k])
  {
    if k > 0 {
      EnqueuedKnown(states, steps, k - 1);
      assert steps[..k][..k - 1] == steps[..k - 1];
    }
  }

  /** The workers that were started and not joined since, and whether the pool is finishing, from the steps alone. */
  function Recruited<T>(steps: seq<Step<T>>): nat {
    if steps == [] then 0
    else
      var n, step := Recruited(steps[..|steps| - 1]), steps[|steps| - 1];
      if step.Start? then n + step.n else if step.Joined? then 0 else n
  }

  predicate Finishing<T>(steps: seq<Step<T>>) {
    if steps == [] then false
    else
      var step := steps[|steps| - 1];
      step.Finish? || (!step.Joined? && Finishing(steps[..|steps| - 1]))
  }

  lemma {:induction false} WorkersKnown<T>(states: seq<State<T>>, steps: seq<Step<T>>, k: nat)
    requires IsRun(states, steps) && k <= |steps|
    ensures |states[k].workers| == Recruited(steps[..k]) && (states[k].controller.Joining? <==> Finishing(steps[..k]))
  {
    if k > 0 {
      WorkersKnown(states, steps, k - 1);
      assert steps[..k][..k - 1] == steps[..k - 1];
    }
  }

  /** The task that the first worker is running. */
  function InHand<T>(s: State<T>): seq<T> {
    if s.workers != [] && s.workers[0].Running? then [s.workers[0].task] else []
  }

  /** With one worker at a time, tasks are run to their end in the order of submission as well. */
  lemma {:induction false} OneWorkerInOrder<T>(states: seq<State<T>>, steps: seq<Step<T>>, k: nat)
    requires IsRun(states, steps) && k <= |steps| && forall j :: 0 <= j <= k ==> |states[j].workers| <= 1
    ensures states[k].ran + InHand(states[k]) == Started(states, steps[..k])
    ensures states[k].ran <= Surviving(states, steps[..k])
  {
    StartedInOrder(states, steps, k);
    if k > 0 {
      OneWorkerInOrder(states, steps, k - 1);
      assert steps[..k][..k - 1] == steps[..k - 1];
      OneWorkerStep(states[k - 1], steps[k - 1]);
    }
  }

  lemma OneWorkerStep<T>(s: State<T>, step: Step<T>)
    requires Enabled(s, step) && |s.workers| <= 1 && |Apply(s, step).workers| <= 1
    ensures var t := Apply(s, step);
      t.ran + InHand(t) == s.ran + InHand(s) + if step.Take? then InHand(t) else []
  {
    var t := Apply(s, step);
  }

  /** The tasks that finish leaves behind when it returns. */
  function LeftBehind<T(==)>(s: State<T>, x: T): nat
    requires s.cut <= |s.work|
  {
    Queued(s.work[..s.cut], x)
  }

  /** When finish returns, every worker has stopped, no stop token is left, and every task queued before it has run or
    been cancelled, exactly once for each time it was queued; the exception is a pool without workers. */
  lemma FinishRunsAll<T>(states: seq<State<T>>, steps: seq<Step<T>>, k: nat, x: T)
    requires IsRun(states, steps) && k < |steps| && steps[k].Joined?
    ensures var s := states[k];
      && (forall w :: 0 <= w < |s.workers| ==> s.workers[w].Stopped?) && AllTasks(s.work)
      && s.cut <= |s.work| && Count(s.early, x) == Count(s.ran, x) + Queued(s.dropped, x) + LeftBehind(s, x)
      && (s.workers != [] ==> LeftBehind(s, x) == 0)
      && (s.workers != [] && s.enqueued == s.early ==> s.work == [])
  {
    var s := states[k];
    RunInv(states, steps, k, x);
    AliveBound(s.workers);
    NoneHeld(s.workers, x);
    assert s.work == s.work[..s.cut] + s.work[s.cut..];
  }

  // --- does finish return?

  /** Some steps in a row from a state on. */
  ghost predicate Segment<T>(states: seq<State<T>>, steps: seq<Step<T>>) {
    && |states| == |steps| + 1
    && forall k :: 0 <= k < |steps| ==> Enabled(states[k], steps[k]) && states[k + 1] == Apply(states[k], steps[k])
  }

  ghost predicate WorkersOnly<T>(steps: seq<Step<T>>) {
    forall k :: 0 <= k < |steps| ==> IsWorkerStep(steps[k])
  }

  /** While finish waits with tokens lost it can never return, and stays that way. */
  predicate Blocked<T(==)>(s: State<T>) {
    InOrder(s) && s.controller.Joining? && s.lost > 0
  }

  lemma BlockedStep<T>(s: State<T>, step: Step<T>)
    requires Blocked(s) && Enabled(s, step)
    ensures !step.Joined? && Blocked(Apply(s, step))
  {
    match step {
      case Enqueue(task) => EnqueueKeepsOrder(s, task);
      case CancelPending => CancelLoses(s);
      case Take(w) =>
        TakeKeepsOrder(s, w);
      case Done(w) => WorkerChanges(s.workers, w, Waiting);
      case _ =>
    }
  }

  lemma {:induction false} StaysBlocked<T>(states: seq<State<T>>, steps: seq<Step<T>>, k: nat)
    requires Segment(states, steps) && Blocked(states[0]) && k <= |steps|
    ensures Blocked(states[k]) && !Enabled(states[k], Joined)
  {
    if k > 0 {
      StaysBlocked(states, steps, k - 1);
      BlockedStep(states[k - 1], steps[k - 1]);
    }
  }

  lemma WorkerStepKeepsOrder<T>(s: State<T>, step: Step<T>)
    requires InOrder(s) && Enabled(s, step) && IsWorkerStep(step)
    ensures var t := Apply(s, step); InOrder(t) && t.controller == s.controller && t.lost == s.lost
  {
    if step.Take? {
      TakeKeepsOrder(s, step.w);
    } else {
      WorkerChanges(s.workers, step.w, Waiting);
    }
  }

  /** With no token lost the workers, left to themselves, stop one after the other. */
  lemma {:induction false} WorkersStop<T>(s: State<T>) returns (states: seq<State<T>>, steps: seq<Step<T>>)
    requires InOrder(s) && s.controller.Joining? && s.lost == 0
    ensures Segment(states, steps) && WorkersOnly(steps) && states[0] == s && Enabled(states[|steps|], Joined)
    decreases Measure(s)
  {
    hide InOrder, Apply, Measure;
    if Enabled(s, Joined) { return [s], []; }
    NeverStuck(s);
    var step :| IsWorkerStep(step) && Enabled(s, step);
    MeasureDecreases(s, step);
    WorkerStepKeepsOrder(s, step);
    var later, rest := WorkersStop(Apply(s, step));
    states, steps := [s] + later, [step] + rest;
  }

  /** finish can return exactly if no stop token has been cancelled since it began to wait: then the workers bring it
    there on their own; otherwise nothing does. */
  lemma FinishReturns<T>(s: State<T>)
    requires InOrder(s) && s.controller.Joining?
    ensures s.lost == 0 <==>
      exists states, steps :: Segment(states, steps) && states[0] == s && Enabled(states[|steps|], Joined)
  {
    if s.lost == 0 {
      var states, steps := WorkersStop(s);
      assert Segment(states, steps);
    } else {
      forall states, steps | Segment(states, steps) && states[0] == s ensures !Enabled(states[|steps|], Joined) {
        StaysBlocked(states, steps, |steps|);
      }
    }
  }

  /** A pool without workers returns from finish at once and leaves behind whatever was pending. */
  lemma NoWorkersNoWork<T>(s: State<T>, x: T)
    requires Inv(s, x) && s.controller.Free? && s.workers == []
    ensures var t := Apply(s, Finish);
      Enabled(t, Joined) && t.cut <= |t.work| && LeftBehind(t, x) == Queued(s.work, x)
  {
    var t := Apply(s, Finish);
    assert t.work[..t.cut] == s.work;
  }
}
