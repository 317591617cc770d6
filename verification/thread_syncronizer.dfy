/** Running functions in another thread (src/common/util/thread_syncronizer.h), as a step system over the bounded
  queue that SpscQueues proves its ring to be.  One thread enqueues, one executes, a third may shut the whole down. */
module ThreadSyncronizers {
  import opened Options
  import Ring = SpscQueues

  /** Where the enqueueing thread is. */
  datatype Client<T> =
    | Free
    | Polling(task: T)                 // about to test running
    | Emplacing(task: T)               // about to try_emplace

  /** Where the executing thread is; next tells executeNext from execute. */
  datatype Executor<T> =
    | Away
    | TestRunning | TestReady          // the two halves of executeNext's loop condition
    | Peeking                          // executeNext's own call of front
    | Looking(next: bool)              // execute's call of front
    | Taken(task: T, next: bool)       // the task has been moved out of its slot: about to pop
    | Calling(task: T, next: bool)     // about to run it
    | Leaving                          // about to store ready

  /** The fields, the two threads, and a record of what became of the tasks; inCall counts those that the current
    call, or the last one, of the executor has run. */
  datatype State<T> = State(
    bound: nat, queue: seq<T>, ready: bool, running: bool, client: Client<T>, executor: Executor<T>,
    submitted: seq<T>, accepted: seq<T>, refused: seq<T>, ran: seq<T>, inCall: nat)

  datatype Step<T> =
    | Enqueue(task: T) | Poll | Emplace
    | EnterNext | EnterExecute | LoadRunning | LoadReady | Peek | Look | Pop | Call | Leave
    | ClearReady | ClearRunning        // the destructor

  function Init<T>(capacity: nat): State<T> {
    State(Ring.Capacity(capacity) - 1, [], false, true, Free, Away, [], [], [], [], 0)
  }

  predicate Enabled<T>(s: State<T>, step: Step<T>) {
    match step
    case Enqueue(_) => s.client.Free?
    case Poll => s.client.Polling?
    case Emplace => s.client.Emplacing?
    case EnterNext => s.executor.Away?
    case EnterExecute => s.executor.Away?
    case LoadRunning => s.executor.TestRunning?
    case LoadReady => s.executor.TestReady?
    case Peek => s.executor.Peeking?
    case Look => s.executor.Looking?
    case Pop => s.executor.Taken?
    case Call => s.executor.Calling?
    case Leave => s.executor.Leaving?
    case ClearReady => true
    case ClearRunning => true
  }

  function Return<T>(next: bool): Executor<T> {
    if next then Leaving else Away
  }

  function Apply<T>(s: State<T>, step: Step<T>): State<T>
    requires Enabled(s, step)
  {
    match step
    case Enqueue(task) => s.(client := Polling(task), submitted := s.submitted + [task])
    case Poll =>
      if s.running then s.(client := Emplacing(s.client.task))
      else s.(client := Free, refused := s.refused + [s.client.task])
    case Emplace =>
      var task := s.client.task;
      (match Ring.Fifo(s.bound, s.queue, Ring.Put(task))
       case Some(q) => s.(client := Free, queue := q, accepted := s.accepted + [task])
       case None => s.(client := Polling(task)))
    case EnterNext => s.(ready := true, executor := TestRunning, inCall := 0)
    case EnterExecute => s.(executor := Looking(false), inCall := 0)
    case LoadRunning => s.(executor := if s.running then TestReady else Leaving)
    case LoadReady => s.(executor := if s.ready then Peeking else Leaving)
    case Peek => s.(executor := if s.queue != [] then Looking(true) else TestRunning)
    case Look =>
      var next := s.executor.next;
      s.(executor := if s.queue != [] then Taken(s.queue[0], next) else Return(next))
    case Pop =>
      (match Ring.Fifo(s.bound, s.queue, Ring.Get)
       case Some(q) => s.(queue := q, executor := Calling(s.executor.task, s.executor.next))
       case None => s)
    case Call => s.(ran := s.ran + [s.executor.task], inCall := s.inCall + 1, executor := Return(s.executor.next))
    case Leave => s.(ready := false, executor := Away)
    case ClearReady => s.(ready := false)
    case ClearRunning => s.(running := false)
  }

  /** The task that the executor has popped and not yet run. */
  function InHand<T>(s: State<T>): seq<T> {
    if s.executor.Calling? then [s.executor.task] else []
  }

  /** The tasks that the client has neither handed over nor given up. */
  function Waiting<T>(s: State<T>): seq<T> {
    match s.client
    case Free => []
    case Polling(task) => [task]
    case Emplacing(task) => [task]
  }

  /** s is made of a and b, each in its own order. */
  ghost predicate Interleaves<T>(s: seq<T>, a: seq<T>, b: seq<T>) {
    if s == [] then a == [] && b == []
    else
      || (a != [] && a[|a| - 1] == s[|s| - 1] && Interleaves(s[..|s| - 1], a[..|a| - 1], b))
      || (b != [] && b[|b| - 1] == s[|s| - 1] && Interleaves(s[..|s| - 1], a, b[..|b| - 1]))
  }

  lemma InterleavesSnoc<T>(s: seq<T>, a: seq<T>, b: seq<T>, x: T)
    requires Interleaves(s, a, b)
    ensures Interleaves(s + [x], a + [x], b) && Interleaves(s + [x], a, b + [x])
  {
    assert (s + [x])[..|s|] == s && (a + [x])[..|a|] == a && (b + [x])[..|b|] == b;
  }

  /** A submitted task has been accepted or refused, in order of submission, or is still waiting; none is refused before
    the shutdown. */
  ghost predicate Settled<T>(s: State<T>) {
    var n := |s.submitted| - |Waiting(s)|;
    && 0 <= n && s.submitted[n..] == Waiting(s) && Interleaves(s.submitted[..n], s.accepted, s.refused)
    && (s.refused != [] ==> !s.running)
  }

  /** The executor's side: whatever is accepted is run, in hand or queued, and what front has found stays
    at the head. */
  ghost predicate Accounted<T>(s: State<T>) {
    && s.accepted == s.ran + InHand(s) + s.queue && |s.queue| <= s.bound
    && (match s.executor
        case Looking(next) => (next ==> s.queue != []) && s.inCall == 0
        case Taken(task, _) => s.queue != [] && s.queue[0] == task && s.inCall == 0
        case Leaving => s.inCall <= 1
        case Away => s.inCall <= 1
        case _ => s.inCall == 0)
  }

  ghost predicate Inv<T>(s: State<T>) {
    Accounted(s) && Settled(s)
  }

  lemma InitInv<T>(capacity: nat)
    ensures Inv(Init<T>(capacity))
  {
  }

  /** The client's side of the invariant. */
  lemma ClientKeeps<T>(s: State<T>, step: Step<T>)
    requires Settled(s) && Enabled(s, step) && (step.Enqueue? || step.Poll? || step.Emplace?)
    ensures Settled(Apply(s, step))
  {
    hide Interleaves;
    var t := Apply(s, step);
    var n := |s.submitted| - |Waiting(s)|;
    if step.Enqueue? {
      assert t.submitted[..n] == s.submitted[..n] && t.submitted[n..] == [step.task];
    } else if t.client.Free? {
      InterleavesSnoc(s.submitted[..n], s.accepted, s.refused, s.client.task);
      assert t.submitted[..n + 1] == s.submitted[..n] + [s.client.task];
    }
  }

  lemma EmplaceAccounted<T>(s: State<T>)
    requires Accounted(s) && s.client.Emplacing?
    ensures Accounted(Apply(s, Emplace))
  {
    var t := Apply(s, Emplace);
    assert t.queue != s.queue ==>
      s.ran + InHand(s) + (s.queue + [s.client.task]) == (s.ran + InHand(s) + s.queue) + [s.client.task];
  }

  lemma PopAccounted<T>(s: State<T>)
    requires Accounted(s) && s.executor.Taken?
    ensures Accounted(Apply(s, Pop)) && Apply(s, Pop).executor.Calling?
  {
    assert s.ran + [] + s.queue == s.ran + [s.queue[0]] + s.queue[1..];
  }

  lemma CallAccounted<T>(s: State<T>)
    requires Accounted(s) && s.executor.Calling?
    ensures Accounted(Apply(s, Call))
  {
    assert s.ran + [s.executor.task] + s.queue == (s.ran + [s.executor.task]) + [] + s.queue;
  }

  lemma StepInv<T>(s: State<T>, step: Step<T>)
    requires Inv(s) && Enabled(s, step)
    ensures Inv(Apply(s, step))
  {
    hide Settled;
    match step {
      case Enqueue(_) => ClientKeeps(s, step);
      case Poll => ClientKeeps(s, step);
      case Emplace => ClientKeeps(s, step); EmplaceAccounted(s);
      case Pop => PopAccounted(s); SettledSame(s, Apply(s, step));
      case Call => CallAccounted(s); SettledSame(s, Apply(s, step));
      case _ => SettledSame(s, Apply(s, step));
    }
  }

  lemma SettledSame<T>(s: State<T>, t: State<T>)
    requires Settled(s) && t.client == s.client && t.submitted == s.submitted && t.accepted == s.accepted
    requires t.refused == s.refused
    requires t.running ==> s.running
    ensures Settled(t)
  {
    hide Interleaves;
  }

  ghost predicate IsRun<T>(capacity: nat, states: seq<State<T>>, steps: seq<Step<T>>) {
    && |states| == |steps| + 1 && states[0] == Init(capacity)
    && forall k :: 0 <= k < |steps| ==> Enabled(states[k], steps[k]) && states[k + 1] == Apply(states[k], steps[k])
  }

  /** Runs begin with nothing done, and any step that is enabled at their end goes on with them. */
  lemma RunGrows<T>(capacity: nat, states: seq<State<T>>, steps: seq<Step<T>>, step: Step<T>)
    ensures IsRun<T>(capacity, [Init(capacity)], [])
    ensures IsRun(capacity, states, steps) && Enabled(states[|steps|], step) ==>
      IsRun(capacity, states + [Apply(states[|steps|], step)], steps + [step])
  {
    hide Init, Enabled, Apply;
  }

  /** Each of the two threads can always go on, and the destructor can come at any time. */
  lemma NeverStuck<T>(s: State<T>, task: T)
    ensures match s.client
      case Free => Enabled(s, Enqueue(task))
      case Polling(_) => Enabled(s, Poll)
      case Emplacing(_) => Enabled(s, Emplace)
    ensures match s.executor
      case Away => Enabled(s, EnterNext) && Enabled(s, EnterExecute)
      case TestRunning => Enabled(s, LoadRunning)
      case TestReady => Enabled(s, LoadReady)
      case Peeking => Enabled(s, Peek)
      case Looking(_) => Enabled(s, Look)
      case Taken(_, _) => Enabled(s, Pop)
      case Calling(_, _) => Enabled(s, Call)
      case Leaving => Enabled(s, Leave)
    ensures Enabled(s, ClearReady) && Enabled(s, ClearRunning)
  {
  }

  lemma {:induction false} RunInv<T>(capacity: nat, states: seq<State<T>>, steps: seq<Step<T>>, k: nat)
    requires IsRun(capacity, states, steps) && k <= |steps|
    ensures Inv(states[k])
  {
    if k == 0 {
      InitInv<T>(capacity);
    } else {
      RunInv(capacity, states, steps, k - 1);
      StepInv(states[k - 1], steps[k - 1]);
    }
  }

  /** Being made of two parts keeps every element, as often as it occurs. */
  lemma {:induction false} InterleavesCounts<T>(s: seq<T>, a: seq<T>, b: seq<T>)
    requires Interleaves(s, a, b)
    ensures multiset(s) == multiset(a) + multiset(b)
  {
    if s != [] {
      var n := |s| - 1;
      assert s == s[..n] + [s[n]];
      if a != [] && a[|a| - 1] == s[n] && Interleaves(s[..n], a[..|a| - 1], b) {
        assert a == a[..|a| - 1] + [a[|a| - 1]];
        InterleavesCounts(s[..n], a[..|a| - 1], b);
      } else {
        assert b == b[..|b| - 1] + [b[|b| - 1]];
        InterleavesCounts(s[..n], a, b[..|b| - 1]);
      }
    }
  }

  /** Under every interleaving the tasks that have run are the first of the accepted ones, in order of submission; the
    others are in hand or queued; no submission is run twice; and no call of the executor runs two tasks. */
  lemma RunInOrder<T>(capacity: nat, states: seq<State<T>>, steps: seq<Step<T>>, k: nat)
    requires IsRun(capacity, states, steps) && k <= |steps|
    ensures |Waiting(states[k])| <= |states[k].submitted|
    ensures var s := states[k]; var done := s.submitted[..|s.submitted| - |Waiting(s)|];
      && s.accepted == s.ran + InHand(s) + s.queue && s.ran <= s.accepted
      && Interleaves(done, s.accepted, s.refused)
      && multiset(s.ran) + multiset(InHand(s)) + multiset(s.queue) + multiset(s.refused) == multiset(done)
      && s.inCall <= 1
      && (s.running ==> s.refused == [])
  {
    RunInv(capacity, states, steps, k);
    var s := states[k];
    var done := s.submitted[..|s.submitted| - |Waiting(s)|];
    InterleavesCounts(done, s.accepted, s.refused);
  }

  /** A call of executeNext that finds a task goes on to run it: its call of front succeeds, and so does its pop. */
  lemma FoundIsRun<T>(capacity: nat, states: seq<State<T>>, steps: seq<Step<T>>, k: nat)
    requires IsRun(capacity, states, steps) && k <= |steps|
    ensures var s := states[k];
      && (s.executor == Looking(true) ==> s.queue != [] && Apply(s, Look).executor == Taken(s.queue[0], true))
      && (s.executor.Taken? ==>
          && s.queue != [] && Apply(s, Pop).executor == Calling(s.queue[0], s.executor.next)
          && Apply(s, Pop).queue == s.queue[1..])
      && (s.executor.Calling? ==> Apply(s, Call).ran == s.ran + [s.executor.task] && Apply(s, Call).inCall == 1)
  {
    hide Settled;
    RunInv(capacity, states, steps, k);
  }

  // ---------------------------------------------------------------------------
  // The shutdown, and calls that come back without having run anything

  /** The destructor has cleared running. */
  predicate ShutDown<T>(steps: seq<Step<T>>) {
    steps != [] && (steps[|steps| - 1].ClearRunning? || ShutDown(steps[..|steps| - 1]))
  }

  lemma {:induction false} ShutDownOnce<T>(steps: seq<Step<T>>, k: nat)
    requires k <= |steps|
    ensures ShutDown(steps[..k]) <==> exists j :: 0 <= j < k && steps[j].ClearRunning?
  {
    if k > 0 {
      ShutDownOnce(steps, k - 1);
      assert steps[..k][..k - 1] == steps[..k - 1];
      if steps[k - 1].ClearRunning? { assert 0 <= k - 1 < k; }
    }
  }

  /** executeNext has been entered, and ready not been cleared since. */
  predicate StillReady<T>(steps: seq<Step<T>>) {
    if steps == [] then false
    else
      var step := steps[|steps| - 1];
      if step.ClearReady? || step.Leave? then false
      else if step.EnterNext? then true
      else StillReady(steps[..|steps| - 1])
  }

  lemma FlagsSnoc<T>(steps: seq<Step<T>>, k: nat)
    requires 0 < k <= |steps|
    ensures ShutDown(steps[..k]) <==> ShutDown(steps[..k - 1]) || steps[k - 1].ClearRunning?
    ensures StillReady(steps[..k]) <==>
      steps[k - 1].EnterNext? || (StillReady(steps[..k - 1]) && !steps[k - 1].ClearReady? && !steps[k - 1].Leave?)
  {
    assert steps[..k][..k - 1] == steps[..k - 1];
  }

  lemma FlagsMove<T>(s: State<T>, step: Step<T>)
    requires Enabled(s, step)
    ensures Apply(s, step).running <==> s.running && !step.ClearRunning?
    ensures Apply(s, step).ready <==> step.EnterNext? || (s.ready && !step.ClearReady? && !step.Leave?)
  {
  }

  lemma {:induction false} FlagsKnown<T>(capacity: nat, states: seq<State<T>>, steps: seq<Step<T>>, k: nat)
    requires IsRun(capacity, states, steps) && k <= |steps|
    ensures states[k].running <==> !ShutDown(steps[..k])
    ensures states[k].ready <==> StillReady(steps[..k])
  {
    if k > 0 {
      hide Apply, Enabled, ShutDown, StillReady;
      FlagsKnown(capacity, states, steps, k - 1);
      FlagsMove(states[k - 1], steps[k - 1]);
      FlagsSnoc(steps, k);
    } else {
      assert steps[..0] == [];
    }
  }

  /** A submission that is polled is refused if and only if the destructor has run by then; otherwise it goes on to the
    queue, which takes it, at its end, if and only if it holds less than it was asked to. */
  lemma PolledOrRefused<T>(capacity: nat, states: seq<State<T>>, steps: seq<Step<T>>, k: nat)
    requires IsRun(capacity, states, steps) && k < |steps|
    ensures var s, t := states[k], states[k + 1]; match steps[k]
      case Enqueue(task) => t.client == Polling(task)
      case Poll =>
        if exists j :: 0 <= j < k && steps[j].ClearRunning? then
          t.client.Free? && t.refused == s.refused + [s.client.task] && t.accepted == s.accepted && t.queue == s.queue
        else
          t.client == Emplacing(s.client.task) && t.refused == s.refused
      case Emplace =>
        if |s.queue| < (if capacity == 0 then 1 else capacity) then
          t.client.Free? && t.queue == s.queue + [s.client.task] && t.accepted == s.accepted + [s.client.task]
        else
          t.client == Polling(s.client.task) && t.queue == s.queue && t.accepted == s.accepted
      case _ => t.client == s.client && t.refused == s.refused && t.accepted == s.accepted
  {
    FlagsKnown(capacity, states, steps, k);
    BoundKept(capacity, states, steps, k);
    ShutDownOnce(steps, k);
  }

  lemma {:induction false} BoundKept<T>(capacity: nat, states: seq<State<T>>, steps: seq<Step<T>>, k: nat)
    requires IsRun(capacity, states, steps) && k <= |steps|
    ensures states[k].bound == if capacity == 0 then 1 else capacity
  {
    if k > 0 { BoundKept(capacity, states, steps, k - 1); }
  }

  /** The executor's latest call is one of executeNext. */
  predicate InNext<T>(steps: seq<Step<T>>) {
    if steps == [] then false
    else
      var step := steps[|steps| - 1];
      step.EnterNext? || (!step.EnterExecute? && InNext(steps[..|steps| - 1]))
  }

  predicate NextIs<T>(e: Executor<T>, next: bool) {
    match e
    case Away => true
    case Looking(n) => n == next
    case Taken(_, n) => n == next
    case Calling(_, n) => n == next
    case _ => next
  }

  lemma CallMoves<T>(s: State<T>, step: Step<T>, next: bool)
    requires Enabled(s, step) && NextIs(s.executor, next)
    ensures NextIs(Apply(s, step).executor, step.EnterNext? || (!step.EnterExecute? && next))
  {
  }

  lemma {:induction false} CallKnown<T>(capacity: nat, states: seq<State<T>>, steps: seq<Step<T>>, k: nat)
    requires IsRun(capacity, states, steps) && k <= |steps|
    ensures NextIs(states[k].executor, InNext(steps[..k]))
  {
    if k > 0 {
      hide Apply, Enabled, NextIs;
      CallKnown(capacity, states, steps, k - 1);
      CallMoves(states[k - 1], steps[k - 1], InNext(steps[..k - 1]));
      assert steps[..k][..k - 1] == steps[..k - 1];
    }
  }

  /** A call of the executor is over, or about to be: executeNext has ready to clear yet. */
  predicate Over<T>(e: Executor<T>, steps: seq<Step<T>>) {
    if InNext(steps) then e.Leaving? else e.Away?
  }

  /** A call that comes to its end has run a task, unless it has found the queue empty, in execute, or, in executeNext,
    the shutdown begun or ready cleared behind its back; and then it does end. */
  lemma CallsEnd<T>(capacity: nat, states: seq<State<T>>, steps: seq<Step<T>>, k: nat)
    requires IsRun(capacity, states, steps) && k < |steps|
    ensures var s, t, past := states[k], states[k + 1], steps[..k]; match steps[k]
      case EnterNext => t.executor.TestRunning?
      case EnterExecute => t.executor == Looking(false)
      case LoadRunning => if ShutDown(past) then Over(t.executor, past) else t.executor.TestReady?
      case LoadReady => if StillReady(past) then t.executor.Peeking? else Over(t.executor, past)
      case Peek => if s.queue == [] then t.executor.TestRunning? else t.executor.Looking?
      case Look => if s.queue == [] then Over(t.executor, past) else t.executor.Taken?
      case Pop => t.executor.Calling?
      case Call => Over(t.executor, past) && t.ran == s.ran + [s.executor.task]
      case Leave => t.executor.Away? && !t.ready
      case _ => t.executor == s.executor
  {
    FlagsKnown(capacity, states, steps, k);
    CallKnown(capacity, states, steps, k);
    RunInv(capacity, states, steps, k);
  }
}
