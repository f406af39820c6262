/**
 The lock-free queue that hands fragment contexts from the application thread back to the
 stack thread: one producer, one consumer, and every load and store of theirs a step of its
 own, in any interleaving.
 */
module FragmentQueue {

  /** Where the producer is in RBFragEnqueue. `seen` and `wasFull` are history: how much had been
      dequeued, and whether the queue was full, when the head was loaded. */
  datatype Producer<T> =
    | Idle
    | Loaded(frag: T, h: nat, seen: nat, wasFull: bool)
    | Storing(frag: T, t: nat)
    | Publishing(frag: T, t: nat)

  /** Where the consumer is in RBFragDequeue. */
  datatype Consumer<T> =
    | Resting
    | HeadLoaded(h: nat)
    | Reading(h: nat)
    | Advancing(frag: T, h: nat)

  /** `enqueued` and `dequeued` are histories; no step reads them. */
  datatype State<T> = State(
    capacity: nat, head: nat, tail: nat, q: seq<T>,
    prod: Producer<T>, cons: Consumer<T>,
    enqueued: seq<T>, dequeued: seq<T>)

  datatype Step<T> =
    | Enqueue(frag: T)
    | Produce
    | Consume

  function NextIndex(capacity: nat, i: nat): nat {
    if i != capacity then i + 1 else 0
  }

  /** The slot of the `i`-th fragment ever enqueued. */
  function Slot(capacity: nat, i: nat): (s: nat)
    ensures s <= capacity
  {
    if i == 0 then 0 else NextIndex(capacity, Slot(capacity, i - 1))
  }

  ghost predicate Init<T>(s: State<T>) {
    && s.head == s.tail == 0 && |s.q| == s.capacity + 1
    && s.prod.Idle? && s.cons.Resting? && s.enqueued == s.dequeued == []
  }

  /** The next step of the producer; an enqueue that finds the queue full ends without a trace. */
  function ProducerStep<T>(s: State<T>): State<T>
    requires s.prod.Storing? ==> s.prod.t < |s.q|
  {
    match s.prod
    case Idle => s
    case Loaded(frag, h, _, _) =>
      if NextIndex(s.capacity, s.tail) != h then s.(prod := Storing(frag, s.tail)) else s.(prod := Idle)
    case Storing(frag, t) => s.(q := s.q[t := frag], prod := Publishing(frag, t))
    case Publishing(frag, t) =>
      s.(tail := NextIndex(s.capacity, t), prod := Idle, enqueued := s.enqueued + [frag])
  }

  function ConsumerStep<T>(s: State<T>): State<T>
    requires s.cons.Reading? ==> s.cons.h < |s.q|
  {
    match s.cons
    case Resting => s.(cons := HeadLoaded(s.head))
    case HeadLoaded(h) => if h != s.tail then s.(cons := Reading(h)) else s.(cons := Resting)
    case Reading(h) => s.(cons := Advancing(s.q[h], h))
    case Advancing(frag, h) =>
      s.(head := NextIndex(s.capacity, h), cons := Resting, dequeued := s.dequeued + [frag])
  }

  /** The first step of an enqueue loads the head. */
  function StartEnqueue<T>(s: State<T>, frag: T): State<T> {
    s.(prod := Loaded(frag, s.head, |s.dequeued|, |s.enqueued| == |s.dequeued| + s.capacity))
  }

  ghost predicate Next<T>(s: State<T>, step: Step<T>, s': State<T>) {
    match step
    case Enqueue(frag) => s.prod.Idle? && s' == StartEnqueue(s, frag)
    case Produce => !s.prod.Idle? && (s.prod.Storing? ==> s.prod.t < |s.q|) && s' == ProducerStep(s)
    case Consume => (s.cons.Reading? ==> s.cons.h < |s.q|) && s' == ConsumerStep(s)
  }

  // ----- slots -----

  lemma {:induction false} SlotAhead(capacity: nat, i: nat, d: nat)
    requires d <= capacity + 1
    ensures
      var s := Slot(capacity, i) + d;
      Slot(capacity, i + d) == if s <= capacity then s else s - (capacity + 1)
  {
    if d > 0 {
      SlotAhead(capacity, i, d - 1);
    }
  }

  /** Fragments at most a round apart share a slot only if they are a whole round apart. */
  lemma SlotsApart(capacity: nat, i: nat, j: nat)
    requires i < j <= i + capacity + 1
    ensures Slot(capacity, i) == Slot(capacity, j) <==> j == i + capacity + 1
  {
    SlotAhead(capacity, i, j - i);
  }

  // ----- the invariant -----

  ghost predicate Holds<T>(capacity: nat, q: seq<T>, enqueued: seq<T>, from: nat)
    requires from <= |enqueued| && |q| == capacity + 1
  {
    forall i | from <= i < |enqueued| :: q[Slot(capacity, i)] == enqueued[i]
  }

  ghost predicate Queue<T>(s: State<T>) {
    && |s.q| == s.capacity + 1
    && |s.dequeued| <= |s.enqueued| <= |s.dequeued| + s.capacity
    && s.dequeued == s.enqueued[..|s.dequeued|]
    && s.head == Slot(s.capacity, |s.dequeued|)
    && s.tail == Slot(s.capacity, |s.enqueued|)
    && Holds(s.capacity, s.q, s.enqueued, |s.dequeued|)
  }

  ghost predicate ProducerOk<T>(s: State<T>) {
    match s.prod
    case Idle => true
    case Loaded(_, h, seen, wasFull) =>
      && h == Slot(s.capacity, seen) && seen <= |s.dequeued| && |s.enqueued| <= seen + s.capacity
      && (wasFull <==> |s.enqueued| == seen + s.capacity)
    case Storing(_, t) => t == s.tail && |s.enqueued| < |s.dequeued| + s.capacity
    case Publishing(frag, t) =>
      t == s.tail && |s.enqueued| < |s.dequeued| + s.capacity && t < |s.q| && s.q[t] == frag
  }

  ghost predicate ConsumerOk<T>(s: State<T>) {
    match s.cons
    case Resting => true
    case HeadLoaded(h) => h == s.head
    case Reading(h) => h == s.head && |s.dequeued| < |s.enqueued|
    case Advancing(frag, h) => h == s.head && |s.dequeued| < |s.enqueued| && frag == s.enqueued[|s.dequeued|]
  }

  ghost predicate Inv<T>(s: State<T>) {
    Queue(s) && ProducerOk(s) && ConsumerOk(s)
  }

  /** The test of the producer, on a head that may be out of date, is right about the time it was loaded. */
  lemma FullTest<T>(s: State<T>)
    requires Inv(s) && s.prod.Loaded?
    ensures NextIndex(s.capacity, s.tail) == s.prod.h <==> s.prod.wasFull
  {
    assert NextIndex(s.capacity, s.tail) == Slot(s.capacity, |s.enqueued| + 1);
    SlotsApart(s.capacity, s.prod.seen, |s.enqueued| + 1);
  }

  lemma EmptyTest<T>(s: State<T>)
    requires Queue(s)
    ensures s.head == s.tail <==> |s.dequeued| == |s.enqueued|
  {
    if |s.dequeued| < |s.enqueued| {
      SlotsApart(s.capacity, |s.dequeued|, |s.enqueued|);
    }
  }

  /** A store at the tail of a queue that is not full leaves the queued fragments alone. */
  lemma StoreKeepsQueue<T>(s: State<T>, frag: T)
    requires Queue(s) && |s.enqueued| < |s.dequeued| + s.capacity
    ensures Queue(s.(q := s.q[s.tail := frag]))
  {
    var s' := s.(q := s.q[s.tail := frag]);
    forall i | |s.dequeued| <= i < |s.enqueued| ensures s'.q[Slot(s.capacity, i)] == s.enqueued[i] {
      SlotsApart(s.capacity, i, |s.enqueued|);
    }
  }

  lemma PublishKeepsQueue<T>(s: State<T>)
    requires Queue(s) && s.prod.Publishing? && ProducerOk(s)
    ensures Queue(ProducerStep(s))
  {
    var s' := ProducerStep(s);
    assert s'.enqueued[..|s.dequeued|] == s.enqueued[..|s.dequeued|];
  }

  lemma ProducerKeepsInv<T>(s: State<T>)
    requires Inv(s) && !s.prod.Idle?
    ensures s.prod.Storing? ==> s.prod.t < |s.q|
    ensures Inv(ProducerStep(s))
  {
    hide Slot, Holds;
    match s.prod {
      case Idle =>
      case Loaded(_, _, _, _) => FullTest(s);
      case Storing(frag, _) => StoreKeepsQueue(s, frag);
      case Publishing(frag, _) => PublishKeepsQueue(s);
    }
  }

  lemma ConsumerKeepsInv<T>(s: State<T>)
    requires Inv(s)
    ensures s.cons.Reading? ==> s.cons.h < |s.q|
    ensures Inv(ConsumerStep(s))
  {
    match s.cons {
      case Resting =>
      case HeadLoaded(_) => EmptyTest(s);
      case Reading(_) =>
      case Advancing(frag, _) =>
        var s' := ConsumerStep(s);
        assert s'.dequeued == s.enqueued[..|s'.dequeued|];
    }
  }

  lemma NextKeepsInv<T>(s: State<T>, step: Step<T>, s': State<T>)
    requires Inv(s) && Next(s, step, s')
    ensures Inv(s')
  {
    match step {
      case Enqueue(_) =>
      case Produce => ProducerKeepsInv(s);
      case Consume => ConsumerKeepsInv(s);
    }
  }

  // ----- every run -----

  ghost predicate Run<T>(states: seq<State<T>>, steps: seq<Step<T>>) {
    && |states| == |steps| + 1 && Init(states[0])
    && forall i | 0 <= i < |steps| :: Next(states[i], steps[i], states[i + 1])
  }

  lemma {:induction false} RunKeepsInv<T>(states: seq<State<T>>, steps: seq<Step<T>>, k: nat)
    requires Run(states, steps) && k < |states|
    ensures Inv(states[k])
  {
    if k > 0 {
      RunKeepsInv(states, steps, k - 1);
      NextKeepsInv(states[k - 1], steps[k - 1], states[k]);
    }
  }

  /** An enqueue fails only if the queue was full when it began, a dequeue only if it is empty. */
  lemma FailuresAreReal<T>(states: seq<State<T>>, steps: seq<Step<T>>, k: nat)
    requires Run(states, steps) && k < |states|
    ensures states[k].prod.Loaded? ==> (ProducerStep(states[k]).prod.Idle? <==> states[k].prod.wasFull)
    ensures states[k].cons.HeadLoaded? ==>
      (ConsumerStep(states[k]).cons.Resting? <==> states[k].dequeued == states[k].enqueued)
  {
    RunKeepsInv(states, steps, k);
    EmptyTest(states[k]);
    if states[k].prod.Loaded? {
      FullTest(states[k]);
    }
  }

  // ----- what each call does -----

  /** As the calls see it: advancing the tail would reach the head. */
  predicate Full<T>(s: State<T>) {
    NextIndex(s.capacity, s.tail) == s.head
  }

  /** The fragments of the calls among the first `k` steps that did not find the queue full. */
  function Accepted<T>(states: seq<State<T>>, steps: seq<Step<T>>, k: nat): seq<T>
    requires k <= |steps| < |states|
  {
    if k == 0 then [] else
      var more := if steps[k - 1].Enqueue? && !Full(states[k - 1]) then [steps[k - 1].frag] else [];
      Accepted(states, steps, k - 1) + more
  }

  /** The fragment of a call that has been accepted and is not yet published. */
  function Pending<T>(s: State<T>): seq<T> {
    match s.prod
    case Idle => []
    case Loaded(frag, h, _, _) => if NextIndex(s.capacity, s.tail) != h then [frag] else []
    case Storing(frag, _) => [frag]
    case Publishing(frag, _) => [frag]
  }

  /** How many of the first `k` steps compared a loaded head with the tail and found a fragment. */
  function Found<T>(states: seq<State<T>>, steps: seq<Step<T>>, k: nat): nat
    requires k <= |steps| < |states|
  {
    if k == 0 then 0 else
      var s := states[k - 1];
      var more := if steps[k - 1].Consume? && s.cons.HeadLoaded? && s.cons.h != s.tail then 1 else 0;
      Found(states, steps, k - 1) + more
  }

  lemma AcceptedStep<T>(s: State<T>, step: Step<T>, t: State<T>)
    requires Next(s, step, t)
    ensures s.enqueued + Pending(s) + (if step.Enqueue? && !Full(s) then [step.frag] else []) == t.enqueued + Pending(t)
  {
    hide NextIndex;
  }

  predicate Taking<T>(s: State<T>) {
    s.cons.Reading? || s.cons.Advancing?
  }

  /** The queue holds, in order, exactly the fragments of the calls that did not find it full;
      every dequeue that finds a fragment takes one. */
  lemma {:induction false} EveryCallCounts<T>(states: seq<State<T>>, steps: seq<Step<T>>, k: nat)
    requires Run(states, steps) && k <= |steps|
    ensures Accepted(states, steps, k) == states[k].enqueued + Pending(states[k])
    ensures Found(states, steps, k) == |states[k].dequeued| + if Taking(states[k]) then 1 else 0
  {
    hide NextIndex, Pending, Full;
    if k == 0 {
      assert Pending(states[0]) == [] by { NothingPending(states[0]); }
    } else {
      EveryCallCounts(states, steps, k - 1);
      assert Next(states[k - 1], steps[k - 1], states[k]);
      AcceptedStep(states[k - 1], steps[k - 1], states[k]);
    }
  }

  lemma NothingPending<T>(s: State<T>)
    requires s.prod.Idle?
    ensures Pending(s) == []
  {
  }

  /**
   In every interleaving fragments come out in the order of the calls that put them in, each
   once; no more than the capacity are inside; neither thread touches a slot outside the array.
   */
  lemma FirstInFirstOut<T>(states: seq<State<T>>, steps: seq<Step<T>>, k: nat)
    requires Run(states, steps) && k < |states|
    ensures states[k].dequeued <= states[k].enqueued <= Accepted(states, steps, k)
    ensures |states[k].enqueued| <= |states[k].dequeued| + states[k].capacity
    ensures states[k].prod.Idle? ==> states[k].enqueued == Accepted(states, steps, k)
    ensures states[k].prod.Storing? ==> states[k].prod.t < |states[k].q|
    ensures states[k].cons.Reading? ==> states[k].cons.h < |states[k].q|
  {
    RunKeepsInv(states, steps, k);
    EveryCallCounts(states, steps, k);
  }

  lemma {:induction false} SlotIsRemainder(capacity: nat, i: nat)
    ensures Slot(capacity, i) == i % (capacity + 1)
  {
    if i > 0 {
      SlotIsRemainder(capacity, i - 1);
      NextRemainder(i - 1, capacity + 1);
    }
  }

  lemma NextRemainder(i: nat, n: nat)
    requires n > 0
    ensures (i + 1) % n == if i % n == n - 1 then 0 else i % n + 1
  {
    if i % n == n - 1 {
      Remainder(i + 1, n, i / n + 1, 0);
    } else {
      Remainder(i + 1, n, i / n, i % n + 1);
    }
  }

  lemma Remainder(x: nat, n: nat, q: nat, r: nat)
    requires x == n * q + r && r < n
    ensures x % n == r
  {
    var q', r' := x / n, x % n;
    if q' < q {
      NextMultiple(n, q', q);
    } else if q < q' {
      NextMultiple(n, q, q');
    }
  }

  lemma NextMultiple(n: nat, a: nat, b: nat)
    requires a < b
    ensures n * a + n <= n * b
  {
    assert n * b == n * (b - a - 1) + n * a + n;
  }

  /** The indices count: they are the numbers of fragments that went in and came out, modulo the size. */
  lemma IndicesCount<T>(states: seq<State<T>>, steps: seq<Step<T>>, k: nat)
    requires Run(states, steps) && k < |states|
    ensures states[k].tail == |states[k].enqueued| % (states[k].capacity + 1)
    ensures states[k].head == |states[k].dequeued| % (states[k].capacity + 1)
  {
    RunKeepsInv(states, steps, k);
    SlotIsRemainder(states[k].capacity, |states[k].enqueued|);
    SlotIsRemainder(states[k].capacity, |states[k].dequeued|);
  }

  /** The end of an enqueue moves the tail on by one slot and appends its fragment; the end of a
      dequeue moves the head on by one slot and hands out the oldest fragment. Nothing else moves them. */
  lemma EndsMoveIndices<T>(states: seq<State<T>>, steps: seq<Step<T>>, k: nat)
    requires Run(states, steps) && k < |steps|
    ensures var s, t := states[k], states[k + 1];
      && (if s.prod.Publishing? && t.prod.Idle?
          then t.tail == NextIndex(s.capacity, s.tail) && t.enqueued == s.enqueued + [s.prod.frag]
          else t.tail == s.tail && t.enqueued == s.enqueued)
      && (if s.cons.Advancing? && t.cons.Resting?
          then && t.head == NextIndex(s.capacity, s.head) && |s.dequeued| < |s.enqueued|
               && t.dequeued == s.dequeued + [s.enqueued[|s.dequeued|]]
          else t.head == s.head && t.dequeued == s.dequeued)
  {
    hide Slot, Holds;
    RunKeepsInv(states, steps, k);
    assert Next(states[k], steps[k], states[k + 1]);
  }
}
