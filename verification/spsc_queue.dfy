/** The lock-free single-producer single-consumer ring (src/common/rigtorp/SPSCQueue.h) as a step system: every access
  to a shared index or slot is a step of its own, and a schedule interleaves the steps of the two threads at will.  The
  cached indices are as stale as the schedule makes them. */
module SpscQueues {
  import opened Options
  import opened Paging

  datatype Slot<T> = Empty | Live(value: T)

  /** Where the producer is.  Between steps it works on locals: the write index and its successor. */
  datatype Producer<T> =
    | Idle
    // next equals the cached read index: about to load the read index
    | Full(v: T, trying: bool, w: nat, next: nat)
    | Room(v: T, w: nat, next: nat)                     // about to construct the element
    | Built(next: nat)                                  // about to store the write index

  /** Where the consumer is. */
  datatype Consumer =
    | Resting
    // r equals the cached write index: about to load the write index
    | Nothing(r: nat)
    | Holding(r: nat)                                   // front has handed out slot r
    | Destroyed(next: nat)                              // the element is gone: about to store the read index

  /** The fields of the queue, the two threads, and a record of what they did: the elements constructed and taken, and
    the numbers of pushes and pops that each index, and each cached index, stands for. */
  datatype State<T> = State(
    capacity: nat, slots: seq<Slot<T>>,
    writeIdx: nat, readIdxCache: nat, readIdx: nat, writeIdxCache: nat,
    producer: Producer<T>, consumer: Consumer,
    built: seq<T>, taken: seq<T>, pushes: nat, pops: nat, knownPops: nat, knownPushes: nat)

  datatype Step<T> =
    | BeginPush(v: T, trying: bool) | LoadRead | Construct | StoreWrite
    | Front | LoadWrite | Destroy | StoreRead

  /** At least one element, and one slack slot. */
  function Capacity(capacity: nat): nat {
    (if capacity < 1 then 1 else capacity) + 1
  }

  function Init<T>(capacity: nat): State<T> {
    var n := Capacity(capacity);
    State(n, seq(n, i => Empty), 0, 0, 0, 0, Idle, Resting, [], [], 0, 0, 0, 0)
  }

  function Successor(i: nat, capacity: nat): nat {
    if i + 1 == capacity then 0 else i + 1
  }

  /** A step is enabled when its thread is at it; pop may only follow a successful front. */
  predicate Enabled<T>(s: State<T>, step: Step<T>) {
    match step
    case BeginPush(_, _) => s.producer.Idle?
    case LoadRead => s.producer.Full?
    case Construct => s.producer.Room? && s.producer.w < |s.slots|
    case StoreWrite => s.producer.Built?
    case Front => s.consumer.Resting? || s.consumer.Holding?
    case LoadWrite => s.consumer.Nothing?
    case Destroy => s.consumer.Holding? && s.consumer.r < |s.slots| && s.slots[s.consumer.r].Live?
    case StoreRead => s.consumer.Destroyed?
  }

  function Apply<T>(s: State<T>, step: Step<T>): State<T>
    requires Enabled(s, step)
  {
    match step
    case BeginPush(v, trying) =>
      var w, next := s.writeIdx, Successor(s.writeIdx, s.capacity);
      s.(producer := if next == s.readIdxCache then Full(v, trying, w, next) else Room(v, w, next))
    case LoadRead =>
      var p := s.producer;
      s.(readIdxCache := s.readIdx, knownPops := s.pops,
         producer := if p.next != s.readIdx then Room(p.v, p.w, p.next) else if p.trying then Idle else p)
    case Construct =>
      var p := s.producer;
      s.(slots := s.slots[p.w := Live(p.v)], producer := Built(p.next), built := s.built + [p.v])
    case StoreWrite =>
      s.(writeIdx := s.producer.next, producer := Idle, pushes := s.pushes + 1)
    case Front =>
      var r := s.readIdx;
      s.(consumer := if r == s.writeIdxCache then Nothing(r) else Holding(r))
    case LoadWrite =>
      s.(writeIdxCache := s.writeIdx, knownPushes := s.pushes,
         consumer := if s.writeIdx == s.consumer.r then Resting else Holding(s.consumer.r))
    case Destroy =>
      var r := s.consumer.r;
      s.(slots := s.slots[r := Empty], consumer := Destroyed(Successor(r, s.capacity)),
         taken := s.taken + [s.slots[r].value])
    case StoreRead =>
      s.(readIdx := s.consumer.next, consumer := Resting, pops := s.pops + 1)
  }

  // ---------------------------------------------------------------------------
  // The invariant

  /** The slot of the k-th element: k modulo the capacity. */
  function SlotOf(k: nat, capacity: nat): (i: nat)
    requires capacity > 0
    ensures i < capacity
  {
    PageOffset(k, capacity)
  }

  lemma SlotIsRemainder(k: nat, capacity: nat)
    requires capacity > 0
    ensures SlotOf(k, capacity) == k % capacity
  {
    PageIsQuotient(k, capacity);
  }

  lemma NextSlot(k: nat, capacity: nat)
    requires capacity > 1
    ensures SlotOf(k + 1, capacity) == Successor(SlotOf(k, capacity), capacity)
  {
    SplitPlus(k, 1, capacity);
  }

  /** Elements at most a capacity apart have the same slot only if they are the same, or exactly a capacity apart. */
  lemma SameSlot(j: nat, k: nat, capacity: nat)
    requires capacity > 0 && j <= k <= j + capacity
    ensures SlotOf(j, capacity) == SlotOf(k, capacity) <==> k == j || k == j + capacity
  {
    SplitPlus(j, k - j, capacity);
  }

  /** The elements that have slots: from the first not yet destroyed to the last constructed. */
  predicate Occupied<T>(s: State<T>, k: nat) {
    |s.taken| <= k < |s.built|
  }

  predicate Counters<T>(s: State<T>) {
    && s.capacity >= 2 && |s.slots| == s.capacity
    && s.knownPops <= s.pops <= s.knownPushes <= s.pushes < s.knownPops + s.capacity
    && |s.built| == (if s.producer.Built? then s.pushes + 1 else s.pushes)
    && |s.taken| == (if s.consumer.Destroyed? then s.pops + 1 else s.pops)
    && s.writeIdx == SlotOf(s.pushes, s.capacity) && s.readIdx == SlotOf(s.pops, s.capacity)
    && s.readIdxCache == SlotOf(s.knownPops, s.capacity) && s.writeIdxCache == SlotOf(s.knownPushes, s.capacity)
  }

  predicate Threads<T>(s: State<T>)
    requires s.capacity > 0
  {
    && (match s.producer
        case Idle => true
        case Full(_, _, w, next) => w == s.writeIdx && next == SlotOf(s.pushes + 1, s.capacity)
        case Room(_, w, next) =>
          w == s.writeIdx && next == SlotOf(s.pushes + 1, s.capacity) && s.pushes + 1 < s.knownPops + s.capacity
        case Built(next) => next == SlotOf(s.pushes + 1, s.capacity) && s.pushes + 1 < s.knownPops + s.capacity)
    && (match s.consumer
        case Resting => true
        case Nothing(r) => r == s.readIdx && s.knownPushes == s.pops
        case Holding(r) => r == s.readIdx && s.pops < s.knownPushes
        case Destroyed(next) => next == SlotOf(s.pops + 1, s.capacity) && s.pops < s.knownPushes)
  }

  /** Exactly the occupied slots are live, and they hold their elements. */
  ghost predicate Contents<T>(s: State<T>)
    requires s.capacity > 0 && |s.slots| == s.capacity
  {
    && (forall k: nat {:trigger s.built[k]} :: Occupied(s, k) ==> s.slots[SlotOf(k, s.capacity)] == Live(s.built[k]))
    && (forall i :: 0 <= i < |s.slots| && s.slots[i].Live? ==>
      exists k: nat :: Occupied(s, k) && SlotOf(k, s.capacity) == i)
    && s.taken <= s.built
  }

  ghost predicate Inv<T>(s: State<T>) {
    Counters(s) && Threads(s) && Contents(s)
  }

  lemma InitInv<T>(capacity: nat)
    ensures Inv(Init<T>(capacity))
  {
  }

  /** Constructing an element fills a slot that was empty. */
  lemma ConstructKeeps<T>(s: State<T>, t: State<T>)
    requires Inv(s) && s.producer.Room? && Enabled(s, Construct) && t == Apply(s, Construct)
    ensures s.slots[s.producer.w].Empty?
    ensures Contents(t)
  {
    if s.slots[s.producer.w].Live? {
      var k: nat :| Occupied(s, k) && SlotOf(k, s.capacity) == s.producer.w;
      SameSlot(k, s.pushes, s.capacity);
    }
    forall k: nat | Occupied(t, k) ensures t.slots[SlotOf(k, t.capacity)] == Live(t.built[k]) {
      if k < |s.built| { SameSlot(k, s.pushes, s.capacity); }
    }
    forall i | 0 <= i < |t.slots| && t.slots[i].Live?
      ensures exists k: nat :: Occupied(t, k) && SlotOf(k, t.capacity) == i
    {
      if i == s.producer.w {
        assert Occupied(t, s.pushes);
      } else {
        var k: nat :| Occupied(s, k) && SlotOf(k, s.capacity) == i;
        assert Occupied(t, k);
      }
    }
  }

  /** Destroying an element empties its slot and no other; it is the next element in order. */
  lemma DestroyKeeps<T>(s: State<T>, t: State<T>)
    requires Inv(s) && s.consumer.Holding? && Enabled(s, Destroy) && t == Apply(s, Destroy)
    ensures s.slots[s.consumer.r] == Live(s.built[s.pops])
    ensures Contents(t)
  {
    hide SlotOf;
    assert Occupied(s, s.pops);
    forall k: nat | Occupied(t, k) ensures t.slots[SlotOf(k, t.capacity)] == Live(t.built[k]) {
      assert Occupied(s, k);
      SameSlot(s.pops, k, s.capacity);
    }
    forall i | 0 <= i < |t.slots| && t.slots[i].Live?
      ensures exists k: nat :: Occupied(t, k) && SlotOf(k, t.capacity) == i
    {
      var k: nat :| Occupied(s, k) && SlotOf(k, s.capacity) == i;
      assert k != s.pops && Occupied(t, k);
    }
  }

  lemma SameContents<T>(s: State<T>, t: State<T>)
    requires s.capacity > 0 && |s.slots| == s.capacity && Contents(s)
    requires t.slots == s.slots && t.capacity == s.capacity && t.built == s.built && t.taken == s.taken
    ensures Contents(t)
  {
    assert forall k: nat :: Occupied(t, k) <==> Occupied(s, k);
  }

  lemma ProducerKeeps<T>(s: State<T>, step: Step<T>)
    requires Counters(s) && Threads(s) && Enabled(s, step)
    requires step.BeginPush? || step.LoadRead? || step.Construct? || step.StoreWrite?
    ensures Counters(Apply(s, step)) && Threads(Apply(s, step))
  {
    NextSlot(s.pushes, s.capacity);
    SameSlot(s.knownPops, s.pushes + 1, s.capacity);
    SameSlot(s.pops, s.pushes + 1, s.capacity);
  }

  lemma ConsumerKeeps<T>(s: State<T>, step: Step<T>)
    requires Counters(s) && Threads(s) && Enabled(s, step)
    requires step.Front? || step.LoadWrite? || step.Destroy? || step.StoreRead?
    ensures Counters(Apply(s, step)) && Threads(Apply(s, step))
  {
    NextSlot(s.pops, s.capacity);
    SameSlot(s.pops, s.knownPushes, s.capacity);
    SameSlot(s.pops, s.pushes, s.capacity);
  }

  lemma StepInv<T>(s: State<T>, step: Step<T>)
    requires Inv(s) && Enabled(s, step)
    ensures Inv(Apply(s, step))
  {
    hide Contents, Counters, Threads;
    if step.BeginPush? || step.LoadRead? || step.Construct? || step.StoreWrite? {
      ProducerKeeps(s, step);
    } else {
      ConsumerKeeps(s, step);
    }
    ContentsKept(s, step);
  }

  lemma ContentsKept<T>(s: State<T>, step: Step<T>)
    requires Inv(s) && Enabled(s, step)
    ensures var t := Apply(s, step); t.capacity > 0 && |t.slots| == t.capacity && Contents(t)
  {
    hide Contents, Threads;
    if step.Construct? {
      ConstructKeeps(s, Apply(s, step));
    } else if step.Destroy? {
      DestroyKeeps(s, Apply(s, step));
    } else {
      SameContents(s, Apply(s, step));
    }
  }

  // ---------------------------------------------------------------------------
  // What the steps mean

  /** The queue as others see it: the elements whose push has been stored and whose pop has not. */
  function Queue<T>(s: State<T>): seq<T>
    requires s.pops <= s.pushes <= |s.built|
  {
    s.built[s.pops..s.pushes]
  }

  /** Each thread can always go on.  The guards that look at the slots never hold it up; pop's assertion holds; the head
    that front has handed out stays what it is until it is destroyed. */
  lemma NeverStuck<T>(s: State<T>)
    requires Inv(s)
    ensures match s.producer
      case Idle => forall v, trying :: Enabled(s, BeginPush(v, trying))
      case Full(_, _, _, _) => Enabled(s, LoadRead)
      case Room(_, _, _) => Enabled(s, Construct)
      case Built(_) => Enabled(s, StoreWrite)
    ensures match s.consumer
      case Resting => Enabled(s, Front)
      case Nothing(_) => Enabled(s, LoadWrite)
      case Holding(_) => Enabled(s, Front) && Enabled(s, Destroy)
      case Destroyed(_) => Enabled(s, StoreRead)
    ensures s.producer.Room? ==> Enabled(s, Construct) && s.slots[s.producer.w].Empty?
    ensures s.consumer.Holding? ==>
      && Enabled(s, Destroy) && s.writeIdx != s.readIdx
      && Queue(s) != [] && s.slots[s.consumer.r] == Live(Queue(s)[0])
  {
    if s.producer.Room? { ConstructKeeps(s, Apply(s, Construct)); }
    if s.consumer.Holding? { HoldsHead(s); }
  }

  lemma HoldsHead<T>(s: State<T>)
    requires Inv(s) && s.consumer.Holding?
    ensures Enabled(s, Destroy) && s.writeIdx != s.readIdx
    ensures Queue(s) != [] && s.slots[s.consumer.r] == Live(Queue(s)[0])
  {
    hide SlotOf;
    SameSlot(s.pops, s.pushes, s.capacity);
    var head := s.pops;
    assert Occupied(s, head) && Queue(s)[0] == s.built[head];
    assert s.slots[SlotOf(head, s.capacity)] == Live(s.built[head]);
  }

  /** size() and empty() in one snapshot. */
  function SizeOf<T>(s: State<T>): int {
    if s.writeIdx - s.readIdx < 0 then s.writeIdx - s.readIdx + s.capacity else s.writeIdx - s.readIdx
  }

  lemma SizeCounts<T>(s: State<T>)
    requires Inv(s)
    ensures SizeOf(s) == |Queue(s)| <= s.capacity - 1
    ensures s.writeIdx == s.readIdx <==> Queue(s) == []
  {
    SplitPlus(s.pops, s.pushes - s.pops, s.capacity);
  }

  datatype FifoOp<T> = Put(v: T) | Get

  /** A step is a push at its store of the write index, a pop at its store of the read index, and nothing otherwise. */
  function OpOf<T>(s: State<T>, step: Step<T>): Option<FifoOp<T>> {
    match step
    case StoreWrite => if s.pushes < |s.built| then Some(Put(s.built[s.pushes])) else None
    case StoreRead => Some(Get)
    case _ => None
  }

  /** A bounded queue; None when it would overflow or run empty. */
  function Fifo<T>(bound: nat, q: seq<T>, op: FifoOp<T>): Option<seq<T>> {
    match op
    case Put(v) => if |q| < bound then Some(q + [v]) else None
    case Get => if q != [] then Some(q[1..]) else None
  }

  /** Each step is a step of the bounded queue or leaves it alone.  A push gives up, or tries again, exactly when it
    loads the read index while the queue is full; front finds nothing exactly when it loads the write index while it is
    empty. */
  lemma StepRefines<T>(s: State<T>, step: Step<T>)
    requires Inv(s) && Enabled(s, step) && Inv(Apply(s, step))
    ensures match OpOf(s, step)
      case None => Queue(Apply(s, step)) == Queue(s)
      case Some(op) => Fifo(s.capacity - 1, Queue(s), op) == Some(Queue(Apply(s, step)))
    ensures step.LoadRead? ==> (Apply(s, step).producer.Room? <==> |Queue(s)| < s.capacity - 1)
    ensures step.LoadRead? && |Queue(s)| == s.capacity - 1 ==>
      Apply(s, step).producer == if s.producer.trying then Idle else s.producer
    ensures step.LoadWrite? ==> (Apply(s, step).consumer.Holding? <==> Queue(s) != [])
    ensures step.LoadWrite? ==> (Apply(s, step).consumer.Resting? <==> Queue(s) == [])
    ensures step.BeginPush? && Apply(s, step).producer.Room? ==> |Queue(s)| < s.capacity - 1
    ensures step.Front? && Apply(s, step).consumer.Holding? ==> Queue(s) != []
    ensures step.Destroy? ==> Queue(s) != [] && Apply(s, step).taken == s.taken + [Queue(s)[0]]
  {
    if step.Destroy? { NeverStuck(s); }
    hide Contents;
    SameSlot(s.pops, s.pushes + 1, s.capacity);
    SameSlot(s.pops, s.pushes, s.capacity);
    if step.StoreWrite? {
      SliceGrows(s.built, s.pops, s.pushes);
    } else if step.StoreRead? {
      SliceShrinks(s.built, s.pops, s.pushes);
    } else if step.Construct? {
      SliceOfLonger(s.built, Apply(s, step).built, s.pops, s.pushes);
    }
  }

  lemma SliceGrows<T>(s: seq<T>, i: nat, j: nat)
    requires i <= j < |s|
    ensures s[i..j + 1] == s[i..j] + [s[j]]
  {
  }

  lemma SliceShrinks<T>(s: seq<T>, i: nat, j: nat)
    requires i < j <= |s|
    ensures s[i + 1..j] == s[i..j][1..]
  {
  }

  lemma SliceOfLonger<T>(s: seq<T>, t: seq<T>, i: nat, j: nat)
    requires i <= j <= |s| && s <= t
    ensures t[i..j] == s[i..j]
  {
  }

  // ---------------------------------------------------------------------------
  // Runs

  /** Any interleaving of the two threads' steps. */
  ghost predicate IsRun<T>(capacity: nat, states: seq<State<T>>, steps: seq<Step<T>>) {
    && |states| == |steps| + 1 && states[0] == Init(capacity)
    && forall k :: 0 <= k < |steps| ==> Enabled(states[k], steps[k]) && states[k + 1] == Apply(states[k], steps[k])
  }

  /** Runs begin with nothing done, and any step that is enabled at their end goes on with them. */
  lemma RunGrows<T>(capacity: nat, states: seq<State<T>>, steps: seq<Step<T>>, step: Step<T>)
    ensures IsRun<T>(capacity, [Init(capacity)], [])
    ensures IsRun(capacity, states, steps) && Enabled(states[|steps|], step) ==>
      IsRun(capacity, states + [Apply(states[|steps|], step)], steps + [step])
  {
    hide Init, Enabled, Apply;
  }

  /** The pushes and pops of a run, in the order in which their indices are stored. */
  function OpsOf<T>(states: seq<State<T>>, steps: seq<Step<T>>): seq<FifoOp<T>>
    requires |steps| <= |states|
  {
    if steps == [] then []
    else
      var n := |steps| - 1;
      OpsOf(states, steps[..n]) + match OpOf(states[n], steps[n]) case None => [] case Some(op) => [op]
  }

  function FifoAfter<T>(bound: nat, ops: seq<FifoOp<T>>): Option<seq<T>> {
    if ops == [] then Some([])
    else match FifoAfter(bound, ops[..|ops| - 1])
      case None => None
      case Some(q) => Fifo(bound, q, ops[|ops| - 1])
  }

  lemma {:induction false} RunInv<T>(capacity: nat, states: seq<State<T>>, steps: seq<Step<T>>, k: nat)
    requires IsRun(capacity, states, steps) && k <= |steps|
    ensures Inv(states[k]) && states[k].capacity == Capacity(capacity)
  {
    if k == 0 {
      InitInv<T>(capacity);
    } else {
      RunInv(capacity, states, steps, k - 1);
      StepInv(states[k - 1], steps[k - 1]);
    }
  }

  /** The latest push that was begun. */
  function LastPush<T>(steps: seq<Step<T>>): Option<Step<T>>
    ensures LastPush(steps).Some? ==> LastPush(steps).value.BeginPush?
  {
    if steps == [] then None
    else
      var step := steps[|steps| - 1];
      if step.BeginPush? then Some(step) else LastPush(steps[..|steps| - 1])
  }

  /** The arguments of the pushes that have gone through, in order. */
  function Passed<T>(steps: seq<Step<T>>): seq<T> {
    if steps == [] then []
    else
      var front, step := steps[..|steps| - 1], steps[|steps| - 1];
      if step.Construct? && LastPush(front).Some? then Passed(front) + [LastPush(front).value.v] else Passed(front)
  }

  /** What the producer has in hand is the argument of the latest push, and whether it was a try. */
  ghost predicate InStep<T>(p: Producer<T>, steps: seq<Step<T>>) {
    match p
    case Full(v, trying, _, _) => LastPush(steps) == Some(BeginPush(v, trying))
    case Room(v, _, _) => LastPush(steps).Some? && LastPush(steps).value.v == v
    case _ => true
  }

  lemma {:induction false} RunBuilds<T>(capacity: nat, states: seq<State<T>>, steps: seq<Step<T>>, k: nat)
    requires IsRun(capacity, states, steps) && k <= |steps|
    ensures states[k].built == Passed(steps[..k]) && InStep(states[k].producer, steps[..k])
  {
    if k > 0 {
      RunBuilds(capacity, states, steps, k - 1);
      assert steps[..k][..k - 1] == steps[..k - 1];
    }
  }

  /** The arguments of the pushes that are to block, in order. */
  function Blocking<T>(steps: seq<Step<T>>): seq<T> {
    if steps == [] then []
    else
      var front, step := steps[..|steps| - 1], steps[|steps| - 1];
      if step.BeginPush? && !step.trying then Blocking(front) + [step.v] else Blocking(front)
  }

  /** The element of a blocking push that is not through yet. */
  function Outstanding<T>(p: Producer<T>, steps: seq<Step<T>>): seq<T> {
    if LastPush(steps).None? || LastPush(steps).value.trying then []
    else match p
      case Full(v, _, _, _) => [v]
      case Room(v, _, _) => [v]
      case _ => []
  }

  /** The elements of a are among those of b, in the same order. */
  predicate Within<T(==)>(a: seq<T>, b: seq<T>) {
    if a == [] then true
    else if b == [] then false
    else
      (a[|a| - 1] == b[|b| - 1] && Within(a[..|a| - 1], b[..|b| - 1])) || Within(a, b[..|b| - 1])
  }

  lemma {:induction false} WithinMore<T>(a: seq<T>, b: seq<T>, x: T)
    requires Within(a, b)
    ensures Within(a, b + [x]) && Within(a + [x], b + [x])
  {
    assert (b + [x])[..|b|] == b && (a + [x])[..|a|] == a;
  }

  lemma OneMore<T>(capacity: nat, states: seq<State<T>>, steps: seq<Step<T>>, k: nat) returns (vs: seq<T>)
    requires IsRun(capacity, states, steps) && 0 < k <= |steps|
    requires InStep(states[k - 1].producer, steps[..k - 1])
    ensures var past, now, step, p := steps[..k - 1], steps[..k], steps[k - 1], states[k].producer;
      && Blocking(now) == Blocking(past) + (if step.BeginPush? && !step.trying then [step.v] else [])
      && Passed(now) == Passed(past) + vs && |vs| == (if step.Construct? then 1 else 0)
      && (step.Construct? ==> Outstanding(p, now) == [])
      && (step.Construct? ==>
          Outstanding(states[k - 1].producer, past) == [] || Outstanding(states[k - 1].producer, past) == vs)
      && (!step.Construct? && !step.BeginPush? ==>
          Outstanding(p, now) == Outstanding(states[k - 1].producer, past))
      && (step.BeginPush? ==>
          && Outstanding(states[k - 1].producer, past) == []
          && Outstanding(p, now) == if step.trying then [] else [step.v])
  {
    assert steps[..k][..k - 1] == steps[..k - 1];
    var step := steps[k - 1];
    vs := if step.Construct? then [states[k - 1].producer.v] else [];
  }

  /** The places of the elements of a in b. */
  lemma {:induction false} Places<T>(a: seq<T>, b: seq<T>) returns (at: seq<nat>)
    requires Within(a, b)
    ensures |at| == |a| && (forall i :: 0 <= i < |at| ==> at[i] < |b| && a[i] == b[at[i]])
    ensures forall i, j :: 0 <= i < j < |at| ==> at[i] < at[j]
  {
    if a == [] {
      at := [];
    } else if a[|a| - 1] == b[|b| - 1] && Within(a[..|a| - 1], b[..|b| - 1]) {
      at := Places(a[..|a| - 1], b[..|b| - 1]);
      at := at + [|b| - 1];
    } else {
      at := Places(a, b[..|b| - 1]);
    }
  }

  /** No blocking push is lost, and no other order is made of them: under every interleaving the elements of all
    blocking pushes that were begun are, in order, among those that have gone through, but for the one in hand. */
  lemma BlockingPasses<T>(capacity: nat, states: seq<State<T>>, steps: seq<Step<T>>, k: nat) returns (at: seq<nat>)
    requires IsRun(capacity, states, steps) && k <= |steps|
    ensures var blocking := Blocking(steps[..k]);
      var through := Passed(steps[..k]) + Outstanding(states[k].producer, steps[..k]);
      && |at| == |blocking| && (forall i :: 0 <= i < |at| ==> at[i] < |through| && blocking[i] == through[at[i]])
      && |through| <= |Passed(steps[..k])| + 1
    ensures forall i, j :: 0 <= i < j < |at| ==> at[i] < at[j]
  {
    BlockingWithin(capacity, states, steps, k);
    at := Places(Blocking(steps[..k]), Passed(steps[..k]) + Outstanding(states[k].producer, steps[..k]));
  }

  lemma {:induction false} BlockingWithin<T>(capacity: nat, states: seq<State<T>>, steps: seq<Step<T>>, k: nat)
    requires IsRun(capacity, states, steps) && k <= |steps|
    ensures Within(Blocking(steps[..k]), Passed(steps[..k]) + Outstanding(states[k].producer, steps[..k]))
    ensures |Outstanding(states[k].producer, steps[..k])| <= 1
  {
    if k > 0 {
      BlockingWithin(capacity, states, steps, k - 1);
      RunBuilds(capacity, states, steps, k - 1);
      var vs := OneMore(capacity, states, steps, k);
      var past, now, step := steps[..k - 1], steps[..k], steps[k - 1];
      hide Blocking, Passed, Outstanding, Apply, Enabled, Within;
      var b, g, before := Blocking(past), Passed(past), Outstanding(states[k - 1].producer, past);
      assert b + [] == b && g + [] == g && (g + vs) + [] == g + vs;
      if step.Construct? {
        assert vs == [vs[0]];
        if before == [] { WithinMore(b, g, vs[0]); }
      } else if step.BeginPush? && !step.trying {
        assert vs == [];
        WithinMore(b, g, step.v);
      }
    }
  }

  /** A push that finds the queue full, with as many elements as it was asked to hold, gives up if and only if it is a
    try; it never gives up otherwise. */
  lemma OnlyTriesGiveUp<T>(capacity: nat, states: seq<State<T>>, steps: seq<Step<T>>, k: nat)
    requires IsRun(capacity, states, steps) && k < |steps| && steps[k].LoadRead?
    ensures var s := states[k];
      && s.pops <= s.pushes <= |s.built|
      && LastPush(steps[..k]).Some?
      && (states[k + 1].producer.Idle? <==>
          LastPush(steps[..k]).value.trying && |Queue(s)| == if capacity == 0 then 1 else capacity)
  {
    RunInv(capacity, states, steps, k);
    RunInv(capacity, states, steps, k + 1);
    RunBuilds(capacity, states, steps, k);
    StepRefines(states[k], steps[k]);
    hide Contents, SlotOf;
    SizeCounts(states[k]);
  }

  /** Under every interleaving the elements popped are the first of the elements pushed, in order, and the queue never
    holds more than it was asked to. */
  lemma RunInOrder<T>(capacity: nat, states: seq<State<T>>, steps: seq<Step<T>>, k: nat)
    requires IsRun(capacity, states, steps) && k <= |steps|
    ensures states[k].taken <= Passed(steps[..k])
    ensures |Passed(steps[..k])| - |states[k].taken| <= if capacity == 0 then 1 else capacity
  {
    RunInv(capacity, states, steps, k);
    RunBuilds(capacity, states, steps, k);
  }

  lemma {:induction false} RunIsFifo<T>(capacity: nat, states: seq<State<T>>, steps: seq<Step<T>>, k: nat)
    requires IsRun(capacity, states, steps) && k <= |steps|
    ensures Inv(states[k]) && FifoAfter(Capacity(capacity) - 1, OpsOf(states, steps[..k])) == Some(Queue(states[k]))
  {
    RunInv(capacity, states, steps, k);
    hide Inv, Enabled, Apply, OpOf, Fifo, OpsOf, FifoAfter, Queue;
    if k == 0 {
      EmptyRun(capacity, states);
    } else {
      var n := k - 1;
      RunIsFifo(capacity, states, steps, n);
      StepRefines(states[n], steps[n]);
      OpsSnoc(states, steps, k);
      var ops, o := OpsOf(states, steps[..n]), OpOf(states[n], steps[n]);
      match o
      case None => assert ops + [] == ops;
      case Some(op) => FifoSnoc(Capacity(capacity) - 1, ops, op, Queue(states[n]), Queue(states[k]));
    }
  }

  lemma EmptyRun<T>(capacity: nat, states: seq<State<T>>)
    requires |states| > 0 && states[0] == Init(capacity)
    ensures FifoAfter(Capacity(capacity) - 1, OpsOf(states, [])) == Some(Queue(states[0]))
  {
  }

  lemma OpsSnoc<T>(states: seq<State<T>>, steps: seq<Step<T>>, k: nat)
    requires 0 < k <= |steps| < |states|
    ensures OpsOf(states, steps[..k]) ==
      OpsOf(states, steps[..k - 1]) + match OpOf(states[k - 1], steps[k - 1]) case None => [] case Some(op) => [op]
  {
    hide OpOf;
    assert steps[..k][..k - 1] == steps[..k - 1];
  }

  lemma FifoSnoc<T>(bound: nat, ops: seq<FifoOp<T>>, op: FifoOp<T>, q: seq<T>, q': seq<T>)
    requires FifoAfter(bound, ops) == Some(q) && Fifo(bound, q, op) == Some(q')
    ensures FifoAfter(bound, ops + [op]) == Some(q')
  {
    hide Fifo;
    assert (ops + [op])[..|ops + [op]| - 1] == ops;
  }

  /** Under every interleaving the queue is the bounded queue that the stores of the two indices make it. */
  lemma RunRefines<T>(capacity: nat, states: seq<State<T>>, steps: seq<Step<T>>, k: nat)
    requires IsRun(capacity, states, steps) && k <= |steps|
    ensures Inv(states[k])
    ensures FifoAfter(if capacity == 0 then 1 else capacity, OpsOf(states, steps[..k])) == Some(Queue(states[k]))
  {
    hide Inv, Queue, FifoAfter, OpsOf;
    RunIsFifo(capacity, states, steps, k);
  }
}
