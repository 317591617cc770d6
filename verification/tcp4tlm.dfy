/** The time protocol between a leading client (src/components/scc/tcp4tlm_client.cpp) and a server that follows it
  (src/components/scc/tcp4tlm_server.cpp), as a step system: one client, simulated-time mode, every access awaits its
  response, channels are queues, and the target does not wait.  The server's threads are the receiver, which runs beside
  the simulation, and three processes of the simulation: the one that follows the time stamps, the one that takes tasks
  from the queue, and the one that runs the tasks whose time has come. */
module Tcp4tlm {
  import opened Options

  datatype Op = Op(id: nat, stamp: nat)

  datatype Request = Sync(stamp: nat) | BusOp(op: Op)
  {
    function Stamp(): nat {
      match this case Sync(t) => t case BusOp(op) => op.stamp
    }
  }

  /** The receiver: reading requests; or with a task queued and its time stamp not yet pushed; or waiting for the
    task. */
  datatype Receiver = Reading | Emplaced(op: Op) | Pushed(op: Op)

  /** The process that follows the time stamps. */
  datatype Timing = Polling | Until(t: nat)

  datatype Timed = Timed(fireAt: nat, op: Op)

  /** An operation that has been run, and when. */
  datatype Ran = Ran(op: Op, at: nat)

  datatype State = State(
    clientTime: nat, awaiting: Option<Op>, accesses: nat, requests: seq<Request>, responses: seq<nat>,
    receiver: Receiver, received: nat,                      // received: the largest stamp received
    taskQue: seq<Op>, timedTaskQue: seq<Timed>, nextTimeStamp: seq<nat>, timing: Timing, serverTime: nat,
    ran: seq<Ran>)

  datatype Step =
    | ClientAdvance(t: nat) | ClientSync | ClientAccess | ClientReceive
    | Receive | PushStamp | Complete
    | PopStamp | Wake | TakeTask | Fire(k: nat) | Advance(t: nat)

  function Init(): State {
    State(0, None, 0, [], [], Reading, 0, [], [], [], Polling, 0, [])
  }

  predicate IsRun(s: State, op: Op) {
    exists k :: 0 <= k < |s.ran| && s.ran[k].op == op
  }

  function Max(a: nat, b: nat): nat {
    if a < b then b else a
  }

  /** The kernel moves on to an event that comes next; events of other modules count as well. */
  predicate NextEvent(s: State, t: nat) {
    && s.timing.Until? && s.serverTime < t <= s.timing.t
    && (forall k :: 0 <= k < |s.timedTaskQue| ==> t <= s.timedTaskQue[k].fireAt)
  }

  predicate Enabled(s: State, step: Step) {
    match step
    case ClientAdvance(t) => s.awaiting.None? && s.clientTime <= t
    case ClientSync => s.awaiting.None?
    case ClientAccess => s.awaiting.None?
    case ClientReceive => s.awaiting.Some? && s.responses != []
    case Receive => s.receiver.Reading? && s.requests != []
    case PushStamp => s.receiver.Emplaced?
    case Complete => s.receiver.Pushed? && IsRun(s, s.receiver.op)
    case PopStamp => s.timing.Polling? && s.nextTimeStamp != []
    case Wake => s.timing == Until(s.serverTime)
    case TakeTask => s.taskQue != []
    case Fire(k) => k < |s.timedTaskQue| && s.timedTaskQue[k].fireAt == s.serverTime
    case Advance(t) => NextEvent(s, t)
  }

  /** Running a task answers the client. */
  function Execute(s: State, op: Op): State {
    s.(ran := s.ran + [Ran(op, s.serverTime)], responses := s.responses + [op.id])
  }

  function Apply(s: State, step: Step): State
    requires Enabled(s, step)
  {
    match step
    case ClientAdvance(t) => s.(clientTime := t)
    case ClientSync => s.(requests := s.requests + [Sync(s.clientTime)])
    case ClientAccess =>
      var op := Op(s.accesses, s.clientTime);
      s.(requests := s.requests + [BusOp(op)], awaiting := Some(op), accesses := s.accesses + 1)
    case ClientReceive => s.(responses := s.responses[1..], awaiting := None)
    case Receive =>
      var t := s.(requests := s.requests[1..], received := Max(s.received, s.requests[0].Stamp()));
      (match s.requests[0]
       case Sync(stamp) => t.(nextTimeStamp := t.nextTimeStamp + [stamp])
       case BusOp(op) => t.(taskQue := t.taskQue + [op], receiver := Emplaced(op)))
    case PushStamp =>
      s.(nextTimeStamp := s.nextTimeStamp + [s.receiver.op.stamp], receiver := Pushed(s.receiver.op))
    case Complete => s.(receiver := Reading)
    case PopStamp =>
      var next := s.nextTimeStamp[0];
      s.(nextTimeStamp := s.nextTimeStamp[1..], timing := if next > s.serverTime then Until(next) else Polling)
    case Wake => s.(timing := Polling)
    case TakeTask =>
      var op := s.taskQue[0];
      var t := s.(taskQue := s.taskQue[1..]);
      if s.serverTime >= op.stamp then Execute(t, op)
      else t.(timedTaskQue := t.timedTaskQue + [Timed(s.serverTime + (op.stamp - s.serverTime), op)])
    case Fire(k) =>
      Execute(s.(timedTaskQue := s.timedTaskQue[..k] + s.timedTaskQue[k + 1..]), s.timedTaskQue[k].op)
    case Advance(t) => s.(serverTime := t)
  }

  // ---------------------------------------------------------------------------
  // The invariant

  predicate AllSyncs(requests: seq<Request>) {
    forall i :: 0 <= i < |requests| ==> requests[i].Sync?
  }

  /** Requests are in the order of their stamps, after all that has been received and up to the client's time. */
  predicate Ordered(requests: seq<Request>, low: nat, high: nat) {
    && low <= high
    && (forall i :: 0 <= i < |requests| ==> low <= requests[i].Stamp() <= high)
    && (forall i, j :: 0 <= i < j < |requests| ==> requests[i].Stamp() <= requests[j].Stamp())
  }

  /** Where the awaited operation is. */
  datatype Place = Nowhere | InRequests | InTaskQue | InTimedTaskQue | Answered

  predicate At(s: State, place: Place) {
    match place
    case Nowhere =>
      s.awaiting.None? && AllSyncs(s.requests) && s.taskQue == [] && s.timedTaskQue == [] && s.responses == []
    case InRequests =>
      && s.awaiting.Some? && s.requests != [] && s.requests[|s.requests| - 1] == BusOp(s.awaiting.value)
      && AllSyncs(s.requests[..|s.requests| - 1]) && s.taskQue == [] && s.timedTaskQue == [] && s.responses == []
      && s.awaiting.value.stamp == s.clientTime
    case InTaskQue =>
      && s.awaiting.Some? && s.requests == [] && s.taskQue == [s.awaiting.value] && s.timedTaskQue == []
      && s.responses == [] && s.awaiting.value.stamp == s.received
    case InTimedTaskQue =>
      && s.awaiting.Some? && s.requests == [] && s.taskQue == [] && s.responses == []
      && s.timedTaskQue == [Timed(s.awaiting.value.stamp, s.awaiting.value)] && s.awaiting.value.stamp == s.received
    case Answered =>
      && s.awaiting.Some? && s.requests == [] && s.taskQue == [] && s.timedTaskQue == []
      && s.responses == [s.awaiting.value.id] && IsRun(s, s.awaiting.value)
  }

  predicate Somewhere(s: State) {
    At(s, Nowhere) || At(s, InRequests) || At(s, InTaskQue) || At(s, InTimedTaskQue) || At(s, Answered)
  }

  /** The server's time, and whatever could move it, stays below the largest stamp received. */
  predicate Behind(s: State) {
    && s.serverTime <= s.received
    && (forall i :: 0 <= i < |s.nextTimeStamp| ==> s.nextTimeStamp[i] <= s.received)
    && (s.timing.Until? ==> s.serverTime <= s.timing.t <= s.received)
    && (s.receiver.Reading? || s.receiver.op.stamp <= s.received)
  }

  /** The task that the receiver is busy with has been run, or is the awaited one, on its way. */
  predicate Busy(s: State) {
    s.receiver.Reading? || IsRun(s, s.receiver.op) ||
    (s.awaiting == Some(s.receiver.op) && (At(s, InTaskQue) || At(s, InTimedTaskQue)))
  }

  /** Once its stamp has been pushed, the time of a task that has not been run is still ahead or has come. */
  predicate Due(s: State) {
    s.receiver.Pushed? && !IsRun(s, s.receiver.op) ==>
      var t := s.receiver.op.stamp; t in s.nextTimeStamp || s.timing == Until(t) || t <= s.serverTime
  }

  predicate Inv(s: State) {
    && Ordered(s.requests, s.received, s.clientTime) && Somewhere(s) && Behind(s) && Busy(s) && Due(s)
    && (At(s, InTaskQue) || At(s, InTimedTaskQue) ==> !s.receiver.Reading? && s.receiver.op == s.awaiting.value)
    && (forall k :: 0 <= k < |s.ran| ==> s.ran[k].at == s.ran[k].op.stamp && s.ran[k].op.id < s.accesses)
    && (forall j, k :: 0 <= j < k < |s.ran| ==> s.ran[j].op.id < s.ran[k].op.id)
    && (s.awaiting.Some? ==> s.awaiting.value.id == s.accesses - 1)
    && (At(s, InRequests) || At(s, InTaskQue) || At(s, InTimedTaskQue) ==>
        forall k :: 0 <= k < |s.ran| ==> s.ran[k].op.id < s.accesses - 1)
  }

  lemma ClientAdvanceKeeps(s: State, t: nat)
    requires Inv(s) && Enabled(s, ClientAdvance(t))
    ensures Inv(Apply(s, ClientAdvance(t)))
  {
  }

  lemma ClientSyncKeeps(s: State)
    requires Inv(s) && Enabled(s, ClientSync)
    ensures Inv(Apply(s, ClientSync))
  {
  }

  lemma ClientAccessKeeps(s: State)
    requires Inv(s) && Enabled(s, ClientAccess)
    ensures Inv(Apply(s, ClientAccess))
  {
    hide AllSyncs;
  }

  lemma ClientReceiveKeeps(s: State)
    requires Inv(s) && Enabled(s, ClientReceive)
    ensures Inv(Apply(s, ClientReceive))
  {
  }

  lemma ReceiveKeeps(s: State)
    requires Inv(s) && Enabled(s, Receive)
    ensures Inv(Apply(s, Receive))
  {
    hide IsRun;
  }

  lemma PushStampKeeps(s: State)
    requires Inv(s) && Enabled(s, PushStamp)
    ensures Inv(Apply(s, PushStamp))
  {
  }

  lemma CompleteKeeps(s: State)
    requires Inv(s) && Enabled(s, Complete)
    ensures Inv(Apply(s, Complete))
  {
  }

  lemma PopStampKeeps(s: State)
    requires Inv(s) && Enabled(s, PopStamp)
    ensures Inv(Apply(s, PopStamp))
  {
  }

  lemma WakeKeeps(s: State)
    requires Inv(s) && Enabled(s, Wake)
    ensures Inv(Apply(s, Wake))
  {
  }

  lemma Executed(s: State, op: Op, other: Op)
    ensures IsRun(Execute(s, op), other) <==> other == op || IsRun(s, other)
  {
    var t := Execute(s, op);
    assert t.ran[|s.ran|].op == op;
    if IsRun(s, other) {
      var k :| 0 <= k < |s.ran| && s.ran[k].op == other;
      assert t.ran[k].op == other;
    }
  }

  lemma TakeTaskKeeps(s: State)
    requires Inv(s) && Enabled(s, TakeTask)
    ensures Inv(Apply(s, TakeTask))
  {
    if !s.receiver.Reading? { Executed(s.(taskQue := s.taskQue[1..]), s.taskQue[0], s.receiver.op); }
    Executed(s.(taskQue := s.taskQue[1..]), s.taskQue[0], s.awaiting.value);
  }

  lemma FireKeeps(s: State, k: nat)
    requires Inv(s) && Enabled(s, Fire(k))
    ensures Inv(Apply(s, Fire(k)))
  {
    var rest := s.(timedTaskQue := s.timedTaskQue[..k] + s.timedTaskQue[k + 1..]);
    if !s.receiver.Reading? { Executed(rest, s.timedTaskQue[k].op, s.receiver.op); }
    Executed(rest, s.timedTaskQue[k].op, s.awaiting.value);
  }

  lemma AdvanceKeeps(s: State, t: nat)
    requires Inv(s) && Enabled(s, Advance(t))
    ensures Inv(Apply(s, Advance(t)))
  {
  }

  lemma InitInv()
    ensures Inv(Init())
  {
  }

  lemma StepInv(s: State, step: Step)
    requires Inv(s) && Enabled(s, step)
    ensures Inv(Apply(s, step))
  {
    hide Inv;
    match step {
      case ClientAdvance(t) => ClientAdvanceKeeps(s, t);
      case ClientSync => ClientSyncKeeps(s);
      case ClientAccess => ClientAccessKeeps(s);
      case ClientReceive => ClientReceiveKeeps(s);
      case Receive => ReceiveKeeps(s);
      case PushStamp => PushStampKeeps(s);
      case Complete => CompleteKeeps(s);
      case PopStamp => PopStampKeeps(s);
      case Wake => WakeKeeps(s);
      case TakeTask => TakeTaskKeeps(s);
      case Fire(k) => FireKeeps(s, k);
      case Advance(t) => AdvanceKeeps(s, t);
    }
  }

  // ---------------------------------------------------------------------------
  // Runs

  ghost predicate IsHistory(states: seq<State>, steps: seq<Step>) {
    && |states| == |steps| + 1 && states[0] == Init()
    && forall k :: 0 <= k < |steps| ==> Enabled(states[k], steps[k]) && states[k + 1] == Apply(states[k], steps[k])
  }

  /** Runs begin with nothing done, and any step that is enabled at their end goes on with them. */
  lemma HistoryGrows(states: seq<State>, steps: seq<Step>, step: Step)
    ensures IsHistory([Init()], [])
    ensures IsHistory(states, steps) && Enabled(states[|steps|], step) ==>
      IsHistory(states + [Apply(states[|steps|], step)], steps + [step])
  {
    hide Init, Enabled, Apply;
  }

  lemma {:induction false} HistoryInv(states: seq<State>, steps: seq<Step>, k: nat)
    requires IsHistory(states, steps) && k <= |steps|
    ensures Inv(states[k])
  {
    hide Inv, Enabled, Apply;
    if k == 0 {
      InitInv();
    } else {
      HistoryInv(states, steps, k - 1);
      StepInv(states[k - 1], steps[k - 1]);
    }
  }

  // --- what the client has done, from its steps alone

  /** The client's time. */
  function ClientTime(steps: seq<Step>): nat {
    if steps == [] then 0
    else
      var step := steps[|steps| - 1];
      if step.ClientAdvance? then step.t else ClientTime(steps[..|steps| - 1])
  }

  /** The largest time stamp that it has sent, with an access or without. */
  function LargestSent(steps: seq<Step>): nat {
    if steps == [] then 0
    else
      var front, step := steps[..|steps| - 1], steps[|steps| - 1];
      if (step.ClientSync? || step.ClientAccess?) && LargestSent(front) < ClientTime(front) then ClientTime(front)
      else LargestSent(front)
  }

  /** The times of its accesses. */
  function Accessed(steps: seq<Step>): seq<nat> {
    if steps == [] then []
    else
      var front, step := steps[..|steps| - 1], steps[|steps| - 1];
      if step.ClientAccess? then Accessed(front) + [ClientTime(front)] else Accessed(front)
  }

  /** The last stamp that is on its way to the server or has been received. */
  function LastStamp(s: State): nat {
    if s.requests == [] then s.received else s.requests[|s.requests| - 1].Stamp()
  }

  /** The operations run are the accesses, in order; the one that is awaited may be missing. */
  predicate RanAccesses(s: State, accessed: seq<nat>) {
    && |accessed| == s.accesses && |s.ran| == s.accesses - (if s.awaiting.Some? && s.responses == [] then 1 else 0)
    && (forall i :: 0 <= i < |s.ran| ==> s.ran[i].op == Op(i, accessed[i]))
    && (s.awaiting.Some? ==> s.accesses > 0 && s.awaiting.value == Op(s.accesses - 1, accessed[s.accesses - 1]))
  }

  lemma StampStep(s: State, step: Step)
    requires Inv(s) && Enabled(s, step)
    ensures var t := Apply(s, step);
      && LastStamp(t) == (if step.ClientSync? || step.ClientAccess? then s.clientTime else LastStamp(s))
      && t.clientTime == (if step.ClientAdvance? then step.t else s.clientTime)
      && LastStamp(s) <= s.clientTime
  {
    hide At, AllSyncs, IsRun, Behind, Busy, Due;
  }

  lemma AccessStep(s: State, step: Step, accessed: seq<nat>)
    requires Inv(s) && Enabled(s, step) && RanAccesses(s, accessed)
    ensures RanAccesses(Apply(s, step), if step.ClientAccess? then accessed + [s.clientTime] else accessed)
  {
    hide AllSyncs, IsRun, Behind, Busy, Due, Ordered;
  }

  lemma {:induction false} StampsKnown(states: seq<State>, steps: seq<Step>, k: nat)
    requires IsHistory(states, steps) && k <= |steps|
    ensures states[k].clientTime == ClientTime(steps[..k]) && LastStamp(states[k]) == LargestSent(steps[..k])
    ensures RanAccesses(states[k], Accessed(steps[..k]))
  {
    hide Inv, Enabled, Apply, LastStamp, RanAccesses;
    if k == 0 {
      assert steps[..0] == [];
      NothingYet();
    } else {
      StampsKnown(states, steps, k - 1);
      HistoryInv(states, steps, k - 1);
      StampStep(states[k - 1], steps[k - 1]);
      AccessStep(states[k - 1], steps[k - 1], Accessed(steps[..k - 1]));
      assert steps[..k][..k - 1] == steps[..k - 1];
    }
  }

  lemma NothingYet()
    ensures LastStamp(Init()) == 0 && RanAccesses(Init(), [])
  {
  }

  /** In every run the server's time never exceeds the largest stamp received, which never exceeds the client's time;
    the operations run are the client's accesses, in order and each once, at the server time that was the client's when
    it made them; at most the last one has not been run. */
  lemma Conservative(states: seq<State>, steps: seq<Step>, k: nat)
    requires IsHistory(states, steps) && k <= |steps|
    ensures states[k].serverTime <= states[k].received <= states[k].clientTime
    ensures states[k].clientTime == ClientTime(steps[..k])
    ensures var accessed := Accessed(steps[..k]);
      && |accessed| - 1 <= |states[k].ran| <= |accessed|
      && forall i :: 0 <= i < |states[k].ran| ==> states[k].ran[i] == Ran(Op(i, accessed[i]), accessed[i])
  {
    HistoryInv(states, steps, k);
    StampsKnown(states, steps, k);
  }

  /** A response belongs to the awaited access, which has then been run. */
  lemma Answers(states: seq<State>, steps: seq<Step>, k: nat)
    requires IsHistory(states, steps) && k < |steps| && steps[k].ClientReceive?
    ensures var s := states[k]; s.responses == [s.awaiting.value.id] && IsRun(s, s.awaiting.value)
  {
    HistoryInv(states, steps, k);
  }

  predicate OfTheClient(step: Step) {
    step.ClientAdvance? || step.ClientSync? || step.ClientAccess?
  }

  /** While the client waits for an answer, some other step is possible: the two do not wait for each other. */
  lemma NoDeadlock(s: State)
    requires Inv(s) && s.awaiting.Some?
    ensures exists step :: !OfTheClient(step) && Enabled(s, step)
  {
    var step :=
      if s.responses != [] then ClientReceive
      else if s.taskQue != [] then TakeTask
      else if s.receiver.Emplaced? then PushStamp
      else if At(s, InRequests) then (if s.receiver.Reading? then Receive else Complete)
      else if s.timedTaskQue[0].fireAt == s.serverTime then Fire(0)
      else if s.timing.Polling? then PopStamp
      else if s.timing == Until(s.serverTime) then Wake
      else Advance(if s.timing.t < s.timedTaskQue[0].fireAt then s.timing.t else s.timedTaskQue[0].fireAt);
    assert !OfTheClient(step) && Enabled(s, step);
  }

  // --- an answer comes

  function RequestsWeight(requests: seq<Request>): nat {
    if requests == [] then 0 else (if requests[0].Sync? then 3 else 8) + RequestsWeight(requests[1..])
  }

  /** How much there is to do, besides letting time pass. */
  function Weight(s: State): nat {
    RequestsWeight(s.requests) + 3 * |s.taskQue| + 2 * |s.timedTaskQue| + 2 * |s.nextTimeStamp| + |s.responses|
    + (match s.receiver case Reading => 0 case Emplaced(_) => 4 case Pushed(_) => 1)
    + (if s.timing.Until? then 1 else 0)
  }

  /** How much time may pass before the process that follows the time stamps wakes up. */
  function Remaining(s: State): nat {
    if s.timing.Until? && s.serverTime < s.timing.t then s.timing.t - s.serverTime else 0
  }

  /** w times e, added up. */
  function Times(w: nat, e: nat): nat {
    if w == 0 then 0 else Times(w - 1, e) + e
  }

  function Measure(s: State): nat {
    Times(Weight(s), s.clientTime + 1) + Remaining(s)
  }

  lemma {:induction false} TimesLess(v: nat, w: nat, e: nat)
    requires v < w
    ensures Times(v, e) + e <= Times(w, e)
  {
    if v + 1 < w { TimesLess(v, w - 1, e); }
  }

  lemma WeightDecreases(s: State, step: Step)
    requires Inv(s) && Enabled(s, step) && !OfTheClient(step)
    ensures var t := Apply(s, step);
      && t.clientTime == s.clientTime
      && if step.Advance? then Weight(t) == Weight(s) && Remaining(t) < Remaining(s)
         else Weight(t) < Weight(s) && Remaining(t) <= Remaining(s) + s.clientTime
  {
    hide Somewhere, Busy, Due, At, IsRun;
  }

  /** Whatever the server does, and receiving an answer, brings the end of it nearer. */
  lemma MeasureDecreases(s: State, step: Step)
    requires Inv(s) && Enabled(s, step) && !OfTheClient(step)
    ensures Measure(Apply(s, step)) < Measure(s)
  {
    hide Inv, Enabled, Apply, Weight, Remaining;
    WeightDecreases(s, step);
    var t := Apply(s, step);
    if !step.Advance? { TimesLess(Weight(t), Weight(s), s.clientTime + 1); }
  }

  /** Some steps in a row, none of which the client starts. */
  ghost predicate ServerRun(states: seq<State>, steps: seq<Step>) {
    && |states| == |steps| + 1
    && forall k :: 0 <= k < |steps| ==>
        Enabled(states[k], steps[k]) && !OfTheClient(steps[k]) && states[k + 1] == Apply(states[k], steps[k])
  }

  lemma {:induction false} ServerRunEnds(states: seq<State>, steps: seq<Step>, k: nat)
    requires ServerRun(states, steps) && Inv(states[0]) && k <= |steps|
    ensures Inv(states[k]) && Measure(states[k]) + k <= Measure(states[0])
  {
    hide Inv, Enabled, Apply, Measure;
    if k > 0 {
      ServerRunEnds(states, steps, k - 1);
      StepInv(states[k - 1], steps[k - 1]);
      MeasureDecreases(states[k - 1], steps[k - 1]);
    }
  }

  lemma {:induction false} StillAwaiting(states: seq<State>, steps: seq<Step>, k: nat)
    requires ServerRun(states, steps) && states[0].awaiting.Some? && k <= |steps|
    requires forall j :: 0 <= j < k ==> !steps[j].ClientReceive?
    ensures states[k].awaiting == states[0].awaiting
  {
    if k > 0 { StillAwaiting(states, steps, k - 1); }
  }

  /** An awaited access is answered: from any reachable state on, steps that do not receive the answer cannot go on for
    ever, and as long as they do not, there is another step to take. */
  lemma AnswerComes(states: seq<State>, steps: seq<Step>)
    requires ServerRun(states, steps) && Inv(states[0]) && states[0].awaiting.Some?
    requires forall j :: 0 <= j < |steps| ==> !steps[j].ClientReceive?
    ensures |steps| <= Measure(states[0])
    ensures exists step :: !OfTheClient(step) && Enabled(states[|steps|], step)
  {
    ServerRunEnds(states, steps, |steps|);
    StillAwaiting(states, steps, |steps|);
    NoDeadlock(states[|steps|]);
  }

  // --- the server catches up

  /** The largest stamp received is, or will be, the server's time. */
  predicate Followed(s: State) {
    || s.received <= s.serverTime || s.received in s.nextTimeStamp || s.timing == Until(s.received)
    || (s.receiver.Emplaced? && s.receiver.op.stamp == s.received)
  }

  lemma FollowedStep(s: State, step: Step)
    requires Inv(s) && Followed(s) && Enabled(s, step)
    ensures Followed(Apply(s, step))
  {
    hide At, AllSyncs, IsRun, Busy, Due;
    var t := Apply(s, step);
    match step {
      case Receive => if s.requests[0].Sync? { assert t.nextTimeStamp[|s.nextTimeStamp|] == s.requests[0].Stamp(); }
      case PushStamp =>
        assert t.nextTimeStamp[|s.nextTimeStamp|] == s.receiver.op.stamp;
        assert s.received in s.nextTimeStamp ==> s.received in t.nextTimeStamp;
      case PopStamp => assert s.nextTimeStamp == [s.nextTimeStamp[0]] + t.nextTimeStamp;
      case _ =>
    }
  }

  lemma {:induction false} HistoryFollowed(states: seq<State>, steps: seq<Step>, k: nat)
    requires IsHistory(states, steps) && k <= |steps|
    ensures Followed(states[k])
  {
    hide Inv, Enabled, Apply, Followed;
    if k == 0 {
      FollowedAtFirst();
    } else {
      HistoryFollowed(states, steps, k - 1);
      HistoryInv(states, steps, k - 1);
      FollowedStep(states[k - 1], steps[k - 1]);
    }
  }

  lemma FollowedAtFirst()
    ensures Followed(Init())
  {
  }

  /** Nothing can happen but what the client starts. */
  ghost predicate AtRest(s: State) {
    forall step :: Enabled(s, step) ==> OfTheClient(step)
  }

  /** All that has been sent has then been dealt with, and the server's time is that of the last stamp. */
  lemma RestIsCaughtUp(s: State)
    requires Inv(s) && Followed(s) && AtRest(s)
    ensures s.serverTime == s.received == LastStamp(s)
    ensures s.requests == [] && s.taskQue == [] && s.timedTaskQue == [] && s.responses == [] && s.awaiting.None?
  {
    if s.awaiting.Some? { NoDeadlock(s); }
    assert At(s, Nowhere);
    assert !Enabled(s, PushStamp) && !Enabled(s, Complete) && !Enabled(s, Receive);
    assert !Enabled(s, Wake) && !Enabled(s, PopStamp);
    assert s.timing.Until? ==> Enabled(s, Wake) || Enabled(s, Advance(s.timing.t));
  }

  /** In every run: when nothing can happen but what the client starts, the server's time is the largest stamp that the
    client has sent, with an access or without. */
  lemma CaughtUp(states: seq<State>, steps: seq<Step>, k: nat)
    requires IsHistory(states, steps) && k <= |steps| && AtRest(states[k])
    ensures states[k].serverTime == states[k].received == LargestSent(steps[..k])
  {
    HistoryInv(states, steps, k);
    HistoryFollowed(states, steps, k);
    StampsKnown(states, steps, k);
    RestIsCaughtUp(states[k]);
  }

  lemma {:induction false} ComesToRest(s: State) returns (states: seq<State>, steps: seq<Step>)
    requires Inv(s) && Followed(s)
    ensures ServerRun(states, steps) && states[0] == s
    ensures Inv(states[|steps|]) && AtRest(states[|steps|]) && states[|steps|].serverTime == LastStamp(s)
    decreases Measure(s)
  {
    hide Inv, Followed, Enabled, Apply, Measure, LastStamp;
    if AtRest(s) {
      RestIsCaughtUp(s);
      return [s], [];
    }
    var step :| Enabled(s, step) && !OfTheClient(step);
    StepInv(s, step);
    FollowedStep(s, step);
    StampStep(s, step);
    MeasureDecreases(s, step);
    var later, rest := ComesToRest(Apply(s, step));
    states, steps := [s] + later, [step] + rest;
  }

  /** From every reachable state the server gets there by itself, and the client's answer with it: some steps that the
    client does not start take the server's time to the largest stamp sent; MeasureDecreases says that any such
    steps come to an end, and CaughtUp that they end nowhere else. */
  lemma CatchesUp(states: seq<State>, steps: seq<Step>) returns (later: seq<State>, rest: seq<Step>)
    requires IsHistory(states, steps)
    ensures ServerRun(later, rest) && later[0] == states[|steps|]
    ensures AtRest(later[|rest|]) && later[|rest|].serverTime == LargestSent(steps)
  {
    HistoryInv(states, steps, |steps|);
    HistoryFollowed(states, steps, |steps|);
    StampsKnown(states, steps, |steps|);
    assert steps[..|steps|] == steps;
    later, rest := ComesToRest(states[|steps|]);
  }
}
