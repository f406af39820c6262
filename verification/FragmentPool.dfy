/**
 Why no fragment context is lost: reads give contexts to two bounded queues and ignore whether
 there was room. The buffers of one manager together never have more to give than fits.
 */
module FragmentPool {

  /**
   `open` are the buffers, each with one of the manager's `chunks` of memory; `heads` are those
   with a fragment at their head, which alone a read can use up. `app` and `stack` are the lengths
   of the queues that the application thread and the stack thread give contexts to, each of the
   given capacity; `lost` counts the contexts that found their queue full.
   */
  datatype State = State(chunks: nat, capacity: nat, open: set<nat>, heads: set<nat>, app: nat, stack: nat, lost: nat)

  datatype Step =
    | Open(b: nat)
    | Close(b: nat)
    | Insert(b: nat, atHead: bool)
    | UseUp(b: nat, byApp: bool)

  /** A buffer needs a free chunk; a segment never takes the head away; only a head is used up. */
  predicate Enabled(s: State, step: Step) {
    match step
    case Open(b) => b !in s.open && |s.open| < s.chunks
    case Close(b) => b in s.open
    case Insert(b, atHead) => b in s.open && (b in s.heads ==> atHead)
    case UseUp(b, _) => b in s.heads
  }

  /** AllocateFragmentContext: from the queues first, then from elsewhere. */
  function Allocated(s: State): State {
    if s.app > 0 then s.(app := s.app - 1)
    else if s.stack > 0 then s.(stack := s.stack - 1)
    else s
  }

  function Apply(s: State, step: Step): State {
    match step
    case Open(b) => s.(open := s.open + {b})
    case Close(b) => s.(open := s.open - {b}, heads := s.heads - {b})
    case Insert(b, atHead) =>
      var t := Allocated(s);
      if atHead then t.(heads := t.heads + {b}) else t
    case UseUp(b, byApp) =>
      var t := s.(heads := s.heads - {b});
      if byApp then (if s.app < s.capacity then t.(app := s.app + 1) else t.(lost := s.lost + 1))
      else (if s.stack < s.capacity then t.(stack := s.stack + 1) else t.(lost := s.lost + 1))
  }

  function Start(chunks: nat, capacity: nat): State {
    State(chunks, capacity, {}, {}, 0, 0, 0)
  }

  /** The steps can be taken one after the other. */
  predicate IsRun(s: State, steps: seq<Step>)
    decreases |steps|
  {
    steps == [] || (Enabled(s, steps[0]) && IsRun(Apply(s, steps[0]), steps[1..]))
  }

  function After(s: State, steps: seq<Step>): State
    requires IsRun(s, steps)
    decreases |steps|
  {
    if steps == [] then s else After(Apply(s, steps[0]), steps[1..])
  }

  // ----- enough room -----

  /** What is queued and what the heads can still give fit into the number of chunks. */
  ghost predicate Bounded(s: State) {
    && s.heads <= s.open && |s.open| <= s.chunks
    && s.app + s.stack + |s.heads| <= s.chunks
  }

  lemma Fewer(a: set<nat>, b: set<nat>)
    requires a <= b
    ensures |a| <= |b|
  {
    assert b == a + (b - a) && a !! (b - a);
  }

  lemma OneFewer(a: set<nat>, x: nat)
    ensures |a - {x}| == if x in a then |a| - 1 else |a|
  {
    if x !in a {
      assert a - {x} == a;
    }
  }

  lemma InsertKeepsBound(s: State, b: nat, atHead: bool)
    requires Bounded(s) && Enabled(s, Insert(b, atHead))
    ensures Bounded(Apply(s, Insert(b, atHead)))
  {
    Fewer(s.heads + {b}, s.open);
    assert b in s.heads ==> s.heads + {b} == s.heads;
    assert b !in s.heads ==> |s.heads + {b}| == |s.heads| + 1;
  }

  lemma UseUpKeepsBound(s: State, b: nat, byApp: bool)
    requires Bounded(s) && Enabled(s, UseUp(b, byApp))
    ensures Bounded(Apply(s, UseUp(b, byApp)))
    ensures s.chunks <= s.capacity ==> Apply(s, UseUp(b, byApp)).lost == s.lost
  {
    OneFewer(s.heads, b);
  }

  lemma StepKeepsBound(s: State, step: Step)
    requires Bounded(s) && Enabled(s, step)
    ensures Bounded(Apply(s, step))
    ensures s.chunks <= s.capacity ==> Apply(s, step).lost == s.lost
  {
    match step {
      case Open(b) =>
        assert |s.open + {b}| == |s.open| + 1;
      case Close(b) =>
        OneFewer(s.heads, b);
        OneFewer(s.open, b);
      case Insert(b, atHead) =>
        InsertKeepsBound(s, b, atHead);
      case UseUp(b, byApp) =>
        UseUpKeepsBound(s, b, byApp);
    }
  }

  lemma {:induction false} RunKeepsBound(s: State, steps: seq<Step>)
    requires Bounded(s) && IsRun(s, steps)
    ensures Bounded(After(s, steps))
    ensures s.chunks <= s.capacity ==> After(s, steps).lost == s.lost
    decreases |steps|
  {
    hide Bounded, Enabled, Apply;
    if steps != [] {
      StepKeepsBound(s, steps[0]);
      Same(s, steps[0]);
      RunKeepsBound(Apply(s, steps[0]), steps[1..]);
    }
  }

  lemma Same(s: State, step: Step)
    ensures Apply(s, step).chunks == s.chunks && Apply(s, step).capacity == s.capacity
  {
  }

  // ----- too little room -----

  /** Buffers 0 up to `n`. */
  function Below(n: nat): (r: set<nat>)
    ensures |r| == n && forall b: nat :: b in r <==> b < n
  {
    if n == 0 then {} else Below(n - 1) + {n - 1}
  }

  /** Buffers 0 up to `n` are opened, and each gets a segment at its head. */
  function FillSteps(n: nat): seq<Step> {
    if n == 0 then [] else FillSteps(n - 1) + [Open(n - 1), Insert(n - 1, true)]
  }

  /** One of the two threads uses up the first `n` heads. */
  function DrainSteps(n: nat, byApp: bool): seq<Step> {
    if n == 0 then [] else DrainSteps(n - 1, byApp) + [UseUp(n - 1, byApp)]
  }

  function Queued(s: State, byApp: bool): nat {
    if byApp then s.app else s.stack
  }

  lemma {:induction false} RunsJoin(s: State, a: seq<Step>, b: seq<Step>)
    requires IsRun(s, a) && IsRun(After(s, a), b)
    ensures IsRun(s, a + b) && After(s, a + b) == After(After(s, a), b)
    decreases |a|
  {
    if a == [] {
      assert a + b == b;
    } else {
      assert (a + b)[0] == a[0] && (a + b)[1..] == a[1..] + b;
      RunsJoin(Apply(s, a[0]), a[1..], b);
    }
  }

  lemma {:induction false} Filled(chunks: nat, capacity: nat, n: nat)
    requires n <= chunks
    ensures var s := Start(chunks, capacity);
      IsRun(s, FillSteps(n)) && After(s, FillSteps(n)) == State(chunks, capacity, Below(n), Below(n), 0, 0, 0)
  {
    var s := Start(chunks, capacity);
    if n > 0 {
      Filled(chunks, capacity, n - 1);
      var t := After(s, FillSteps(n - 1));
      TwoSteps(t, Open(n - 1), Insert(n - 1, true));
      RunsJoin(s, FillSteps(n - 1), [Open(n - 1), Insert(n - 1, true)]);
    }
  }

  lemma OneStep(s: State, step: Step)
    requires Enabled(s, step)
    ensures IsRun(s, [step]) && After(s, [step]) == Apply(s, step)
  {
  }

  lemma TwoSteps(s: State, a: Step, b: Step)
    requires Enabled(s, a) && Enabled(Apply(s, a), b)
    ensures IsRun(s, [a, b]) && After(s, [a, b]) == Apply(Apply(s, a), b)
  {
    assert [a, b][1..] == [b];
    assert IsRun(Apply(s, a), [b]);
    assert After(Apply(s, a), [b]) == Apply(Apply(s, a), b);
  }

  /** After the first `n` of `m` heads were used up: the queue is filled first, the rest is lost. */
  ghost predicate DrainedTo(t: State, byApp: bool, capacity: nat, m: nat, n: nat) {
    && t.capacity == capacity && (forall b: nat | n <= b < m :: b in t.heads)
    && Queued(t, byApp) == (if n <= capacity then n else capacity) && t.lost == n - Queued(t, byApp)
  }

  lemma DrainNext(t: State, byApp: bool, capacity: nat, m: nat, n: nat)
    requires DrainedTo(t, byApp, capacity, m, n) && n < m
    ensures Enabled(t, UseUp(n, byApp)) && DrainedTo(Apply(t, UseUp(n, byApp)), byApp, capacity, m, n + 1)
  {
  }

  lemma {:induction false} Drained(s: State, byApp: bool, m: nat, n: nat)
    requires DrainedTo(s, byApp, s.capacity, m, 0) && n <= m
    ensures IsRun(s, DrainSteps(n, byApp)) && DrainedTo(After(s, DrainSteps(n, byApp)), byApp, s.capacity, m, n)
  {
    hide DrainedTo, Enabled, Apply, IsRun, After;
    if n == 0 {
      NoStep(s);
    } else {
      Drained(s, byApp, m, n - 1);
      var t := After(s, DrainSteps(n - 1, byApp));
      DrainNext(t, byApp, s.capacity, m, n - 1);
      OneStep(t, UseUp(n - 1, byApp));
      RunsJoin(s, DrainSteps(n - 1, byApp), [UseUp(n - 1, byApp)]);
    }
  }

  lemma NoStep(s: State)
    ensures IsRun(s, []) && After(s, []) == s
  {
  }

  /** With more chunks than places in a queue, this run of either thread loses a context. */
  lemma SmallQueueLoses(chunks: nat, capacity: nat, byApp: bool) returns (steps: seq<Step>)
    requires capacity < chunks
    ensures IsRun(Start(chunks, capacity), steps) && After(Start(chunks, capacity), steps).lost == 1
    ensures Queued(After(Start(chunks, capacity), steps), byApp) == capacity
  {
    var s, n := Start(chunks, capacity), capacity + 1;
    Filled(chunks, capacity, n);
    Drained(After(s, FillSteps(n)), byApp, n, n);
    RunsJoin(s, FillSteps(n), DrainSteps(n, byApp));
    steps := FillSteps(n) + DrainSteps(n, byApp);
  }

  /** No run loses a context if and only if a queue has a place for every chunk, as it does where
      both are made with the same number. */
  lemma NothingLostIff(chunks: nat, capacity: nat)
    ensures (forall steps | IsRun(Start(chunks, capacity), steps) :: After(Start(chunks, capacity), steps).lost == 0)
      <==> chunks <= capacity
  {
    if chunks <= capacity {
      forall steps | IsRun(Start(chunks, capacity), steps)
        ensures After(Start(chunks, capacity), steps).lost == 0
      {
        RunKeepsBound(Start(chunks, capacity), steps);
      }
    } else {
      var steps := SmallQueueLoses(chunks, capacity, true);
    }
  }

  // ----- where every context is -----

  function UsedUp(steps: seq<Step>): nat {
    if steps == [] then 0 else UsedUp(steps[1..]) + (if steps[0].UseUp? then 1 else 0)
  }

  /** The segments entered while a context was queued. */
  function Reused(s: State, steps: seq<Step>): nat
    requires IsRun(s, steps)
    decreases |steps|
  {
    if steps == [] then 0
    else Reused(Apply(s, steps[0]), steps[1..]) + (if steps[0].Insert? && s.app + s.stack > 0 then 1 else 0)
  }

  function OpenedLessClosed(steps: seq<Step>): int {
    if steps == [] then 0
    else OpenedLessClosed(steps[1..]) + (if steps[0].Open? then 1 else if steps[0].Close? then -1 else 0)
  }

  lemma StepAccounts(s: State, step: Step)
    requires Enabled(s, step)
    ensures var t := Apply(s, step);
      && t.app + t.stack + t.lost + (if step.Insert? && s.app + s.stack > 0 then 1 else 0)
         == s.app + s.stack + s.lost + (if step.UseUp? then 1 else 0)
      && |t.open| == |s.open| + (if step.Open? then 1 else if step.Close? then -1 else 0)
  {
    if step.Close? {
      OneFewer(s.open, step.b);
    }
  }

  /** Over every run, every context that was used up is queued, or was taken again, or is lost; and
      every buffer that was opened is open or was closed. */
  lemma {:induction false} EveryContextIsAccounted(s: State, steps: seq<Step>)
    requires IsRun(s, steps)
    ensures var t := After(s, steps);
      && t.app + t.stack + t.lost + Reused(s, steps) == s.app + s.stack + s.lost + UsedUp(steps)
      && |t.open| == |s.open| + OpenedLessClosed(steps)
    decreases |steps|
  {
    hide Apply, Enabled;
    if steps != [] {
      StepAccounts(s, steps[0]);
      EveryContextIsAccounted(Apply(s, steps[0]), steps[1..]);
    }
  }
}
