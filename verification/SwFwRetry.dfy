/**
 What an agent that asks for resources does until it has them: it tries again after every
 conflict, as often as it may, and gives up for no other reason than that or a failure to get
 the inner semaphore.
 */
module SwFwRetry {
  import opened SwFwSync

  // ----- runs from a given state -----

  ghost predicate Steps(c: Config, run: seq<State>) {
    |run| > 0 && forall i | 0 <= i < |run| - 1 :: Next(c, run[i], run[i + 1])
  }

  ghost predicate Leads(c: Config, s: State, t: State) {
    exists run :: Steps(c, run) && run[0] == s && run[|run| - 1] == t
  }

  lemma Stay(c: Config, s: State)
    ensures Leads(c, s, s)
  {
    hide Next;
    assert Steps(c, [s]);
  }

  lemma Further(c: Config, s: State, t: State, u: State)
    requires Leads(c, s, t) && Next(c, t, u)
    ensures Leads(c, s, u)
  {
    hide Next;
    var run :| Steps(c, run) && run[0] == s && run[|run| - 1] == t;
    assert Steps(c, run + [u]);
  }

  /** The next register access of an agent, other than going on without the inner semaphore. */
  lemma Walk(c: Config, from: State, s: State, a: nat, t: State)
    requires Leads(c, from, s) && IsRunning(s, a) && RunStep(s, a) == t
    requires t.agents[a].pc.Idle? || t.agents[a].pc.locked || !t.agents[a].pc.stage.ReadGssr?
    ensures Leads(c, from, t)
  {
    hide Leads, RunStep;
    Further(c, from, s, t);
  }

  // ----- one attempt -----

  /** The same state with agent `a` at another place in its call. */
  function At(s: State, smbi: bool, swesmbi: bool, a: nat, pc: Pc): State
    requires a < |s.agents|
  {
    Give(s.(smbi := smbi, swesmbi := swesmbi), a, pc)
  }

  /** Agent `a` polls for SMBI, and both semaphores are free. */
  predicate FreeToTry(s: State, a: nat) {
    && IsRunning(s, a) && !s.agents[a].pc.locked && s.agents[a].pc.stage == PollSmbi(0)
    && !s.smbi && !s.swesmbi && !s.fwSem
  }

  lemma ToRead(c: Config, from: State, s: State, a: nat)
    requires Leads(c, from, s) && FreeToTry(s, a)
    ensures Leads(c, from, At(s, true, true, a, Running(s.agents[a].pc.op, true, ReadGssr)))
  {
    hide Leads;
    var op := s.agents[a].pc.op;
    var s1 := At(s, true, false, a, Running(op, true, ReadRequest(0)));
    Walk(c, from, s, a, s1);
    var s2 := At(s, true, false, a, Running(op, true, WriteRequest(0)));
    Walk(c, from, s1, a, s2);
    var s3 := At(s, true, true, a, Running(op, true, CheckRequest(0)));
    Walk(c, from, s2, a, s3);
    Walk(c, from, s3, a, At(s, true, true, a, Running(op, true, ReadGssr)));
  }

  /** Where an agent is after a conflict with `left` attempts before it. */
  function AfterConflict(mask: set<nat>, left: nat): Pc {
    if left > 1 then Running(Acquire(mask, left - 1), false, PollSmbi(0)) else Idle
  }

  lemma TryInVain(c: Config, from: State, s: State, a: nat, mask: set<nat>, left: nat)
    requires Leads(c, from, s) && FreeToTry(s, a) && s.agents[a].pc.op == Acquire(mask, left)
    requires Conflicts(Acquire(mask, left), s.gssr)
    ensures Leads(c, from, Give(s, a, AfterConflict(mask, left)))
  {
    hide Leads, Conflicts;
    var op := Acquire(mask, left);
    ToRead(c, from, s, a);
    var s0 := At(s, true, true, a, Running(op, true, ReadGssr));
    var s1 := At(s, true, true, a, Running(op, true, DropRead(Conflict)));
    Walk(c, from, s0, a, s1);
    var s2 := At(s, true, true, a, Running(op, true, DropWrite(Conflict)));
    Walk(c, from, s1, a, s2);
    assert RunStep(s2, a) == Give(s, a, AfterConflict(mask, left));
    Walk(c, from, s2, a, Give(s, a, AfterConflict(mask, left)));
  }

  /** The state after agent `a` was granted what it asked for, or gave back what it held. */
  function Done(s: State, a: nat): State
    requires IsRunning(s, a)
  {
    var op := s.agents[a].pc.op;
    s.(gssr := Updated(op, s.gssr, op.mask), agents := s.agents[a := Agent(Updated(op, s.agents[a].hold, op.mask), Idle)])
  }

  lemma Try(c: Config, from: State, s: State, a: nat)
    requires Leads(c, from, s) && FreeToTry(s, a) && !Conflicts(s.agents[a].pc.op, s.gssr)
    ensures Leads(c, from, Done(s, a))
  {
    hide Leads, Conflicts, Updated;
    var op := s.agents[a].pc.op;
    ToRead(c, from, s, a);
    var s0 := At(s, true, true, a, Running(op, true, ReadGssr));
    var s1 := At(s, true, true, a, Running(op, true, WriteGssr(s.gssr)));
    Walk(c, from, s0, a, s1);
    var hold := Updated(op, s.agents[a].hold, op.mask);
    var done := s.(smbi := true, swesmbi := true, gssr := Updated(op, s.gssr, op.mask),
                   agents := s.agents[a := Agent(hold, Running(op, true, DropRead(Finished)))]);
    Walk(c, from, s1, a, done);
    var s3 := Give(done, a, Running(op, true, DropWrite(Finished)));
    Walk(c, from, done, a, s3);
    assert RunStep(s3, a) == Done(s, a);
    Walk(c, from, s3, a, Done(s, a));
  }

  // ----- all attempts -----

  function Trying(s: State, a: nat, mask: set<nat>, left: nat): State
    requires a < |s.agents|
  {
    Give(s, a, Running(Acquire(mask, left), false, PollSmbi(0)))
  }

  /** While its resources are taken, an agent with `left` attempts tries again `left - 1` times ... */
  lemma {:induction false} TriesAgain(c: Config, s: State, a: nat, mask: set<nat>, left: nat, j: nat)
    requires FreeToTry(s, a) && s.agents[a].pc.op == Acquire(mask, left) && Conflicts(Acquire(mask, left), s.gssr)
    requires j < left
    ensures Leads(c, s, Trying(s, a, mask, left - j))
  {
    hide Leads, Conflicts;
    if j == 0 {
      Stay(c, s);
      assert Trying(s, a, mask, left) == s;
    } else {
      TriesAgain(c, s, a, mask, left, j - 1);
      var t := Trying(s, a, mask, left - (j - 1));
      SameConflict(mask, left, left - (j - 1), s.gssr);
      TryInVain(c, s, t, a, mask, left - (j - 1));
      assert Give(t, a, AfterConflict(mask, left - (j - 1))) == Trying(s, a, mask, left - j);
    }
  }

  lemma SameConflict(mask: set<nat>, left: nat, more: nat, g: set<nat>)
    ensures Conflicts(Acquire(mask, left), g) <==> Conflicts(Acquire(mask, more), g)
  {
  }

  /** ... and then gives up. */
  lemma GivesUp(c: Config, s: State, a: nat, mask: set<nat>, left: nat)
    requires FreeToTry(s, a) && s.agents[a].pc.op == Acquire(mask, left) && Conflicts(Acquire(mask, left), s.gssr)
    requires left > 0
    ensures Leads(c, s, Give(s, a, Idle))
  {
    hide Leads, Conflicts;
    TriesAgain(c, s, a, mask, left, left - 1);
    var t := Trying(s, a, mask, 1);
    SameConflict(mask, left, 1, s.gssr);
    TryInVain(c, s, t, a, mask, 1);
    assert Give(t, a, AfterConflict(mask, 1)) == Give(s, a, Idle);
  }

  /** If the owner gives the resources back before the last attempt, the agent gets them: after any
      number of conflicts that leaves it one attempt. */
  lemma GetsWhatIsReleased(c: Config, s: State, a: nat, mask: set<nat>, left: nat, j: nat, b: nat, back: set<nat>)
    requires FreeToTry(s, a) && s.agents[a].pc.op == Acquire(mask, left) && Conflicts(Acquire(mask, left), s.gssr)
    requires j < left && b != a && CanStart(s, b, Release(back)) && !Conflicts(Acquire(mask, left), s.gssr - back)
    ensures var t := Trying(s, a, mask, left - j);
      && Leads(c, s, t)
      && Leads(c, t, s.(gssr := s.gssr - back + mask,
           agents := s.agents[b := Agent(s.agents[b].hold - back, Idle)][a := Agent(s.agents[a].hold + mask, Idle)]))
  {
    hide Leads, Conflicts;
    TriesAgain(c, s, a, mask, left, j);
    var t := Trying(s, a, mask, left - j);
    Stay(c, t);
    StartLeads(c, t, t, b, Release(back));
    var u := Start(t, b, Release(back));
    NoConflictOfRelease(back, u.gssr);
    Try(c, t, u, b);
    var v := Done(u, b);
    SameConflict(mask, left, left - j, v.gssr);
    Try(c, t, v, a);
    assert Done(v, a) == s.(gssr := s.gssr - back + mask,
      agents := s.agents[b := Agent(s.agents[b].hold - back, Idle)][a := Agent(s.agents[a].hold + mask, Idle)]);
  }

  lemma StartLeads(c: Config, from: State, s: State, a: nat, op: Op)
    requires Leads(c, from, s) && CanStart(s, a, op)
    ensures Leads(c, from, Start(s, a, op))
  {
    hide Leads, Start;
    Further(c, from, s, Start(s, a, op));
  }

  lemma NoConflictOfRelease(mask: set<nat>, g: set<nat>)
    ensures !Conflicts(Release(mask), g)
  {
  }

  // ----- the inner semaphore -----

  /** Agent `a` holds SMBI and is about to request SWESMBI for the `i`-th time, which nobody else has. */
  predicate Requesting(s: State, a: nat, i: nat) {
    && IsRunning(s, a) && s.agents[a].pc.locked && s.agents[a].pc.stage == ReadRequest(i)
    && s.smbi && !s.swesmbi
  }

  function RequestAt(s: State, a: nat, i: nat): State
    requires IsRunning(s, a)
  {
    Give(s, a, Running(s.agents[a].pc.op, true, ReadRequest(i)))
  }

  /** A request while the firmware has its semaphore, up to the look at its outcome. */
  lemma RequestInVain(c: Config, from: State, s: State, a: nat, i: nat)
    requires Leads(c, from, s) && Requesting(s, a, i) && s.fwSem
    ensures Leads(c, from, Give(s, a, Running(s.agents[a].pc.op, true, CheckRequest(i))))
  {
    hide Leads;
    var op := s.agents[a].pc.op;
    var s1 := Give(s, a, Running(op, true, WriteRequest(i)));
    Walk(c, from, s, a, s1);
    Walk(c, from, s1, a, Give(s, a, Running(op, true, CheckRequest(i))));
  }

  /** While the firmware has its semaphore, the request is made 2000 times ... */
  lemma {:induction false} RequestsGoOn(c: Config, s: State, a: nat, j: nat)
    requires Requesting(s, a, 0) && s.fwSem && j < TIMEOUT
    ensures Leads(c, s, RequestAt(s, a, j))
  {
    hide Leads;
    if j == 0 {
      Stay(c, s);
      assert RequestAt(s, a, 0) == s;
    } else {
      RequestsGoOn(c, s, a, j - 1);
      var t := RequestAt(s, a, j - 1);
      RequestInVain(c, s, t, a, j - 1);
      Walk(c, s, Give(t, a, Running(s.agents[a].pc.op, true, CheckRequest(j - 1))), a, RequestAt(s, a, j));
    }
  }

  /** ... and then an acquire ends, and SMBI is given back. */
  lemma RequestsEnd(c: Config, s: State, a: nat)
    requires Requesting(s, a, 0) && s.fwSem && s.agents[a].pc.op.Acquire?
    ensures Leads(c, s, Give(s.(smbi := false), a, Idle))
  {
    hide Leads;
    RequestsGoOn(c, s, a, TIMEOUT - 1);
    var op, t := s.agents[a].pc.op, RequestAt(s, a, TIMEOUT - 1);
    RequestInVain(c, s, t, a, TIMEOUT - 1);
    var s1 := Give(s, a, Running(op, true, CheckRequest(TIMEOUT - 1)));
    assert Give(t, a, Running(op, true, CheckRequest(TIMEOUT - 1))) == s1;
    var s2 := Give(s, a, Running(op, true, DropRead(NotGranted)));
    Walk(c, s, s1, a, s2);
    var s3 := Give(s, a, Running(op, true, DropWrite(NotGranted)));
    Walk(c, s, s2, a, s3);
    Walk(c, s, s3, a, Give(s.(smbi := false), a, Idle));
  }

  /** The state after the firmware was granted or refused what it asked for, or gave back what it held. */
  function FirmwareDone(s: State): State
    requires s.fwPc.FwRead?
  {
    var op := s.fwPc.op;
    var t := s.(fwSem := false, fwPc := FwIdle);
    if Conflicts(op, s.gssr) then t
    else t.(gssr := Updated(op, s.gssr, FwBits(op.mask)), fwHold := Updated(op, s.fwHold, op.mask))
  }

  lemma FirmwareFinishes(c: Config, from: State, s: State)
    requires Leads(c, from, s) && s.fwPc.FwRead?
    ensures Leads(c, from, FirmwareDone(s))
  {
    hide Leads, Conflicts, Updated, FwBits;
    var s1 := FwStep(s);
    Further(c, from, s, s1);
    var s2 := FwStep(s1);
    Further(c, from, s1, s2);
    if !s2.fwPc.FwIdle? {
      Further(c, from, s2, FwStep(s2));
    }
  }

  /** If the firmware finishes before the last request, after any number of them, the next is granted. */
  lemma GrantedAfterFirmware(c: Config, s: State, a: nat, j: nat)
    requires Requesting(s, a, 0) && s.fwSem && s.fwPc.FwRead? && j < TIMEOUT
    ensures var t := RequestAt(s, a, j);
      && Leads(c, s, t)
      && Leads(c, t, Give(FirmwareDone(s).(swesmbi := true), a, Running(s.agents[a].pc.op, true, ReadGssr)))
  {
    hide Leads, Conflicts, Updated;
    RequestsGoOn(c, s, a, j);
    var op, t := s.agents[a].pc.op, RequestAt(s, a, j);
    Stay(c, t);
    FirmwareFinishes(c, t, t);
    var t0 := FirmwareDone(t);
    var t1 := Give(t0, a, Running(op, true, WriteRequest(j)));
    Walk(c, t, t0, a, t1);
    var t2 := Give(t0.(swesmbi := true), a, Running(op, true, CheckRequest(j)));
    Walk(c, t, t1, a, t2);
    Walk(c, t, t2, a, Give(FirmwareDone(s).(swesmbi := true), a, Running(op, true, ReadGssr)));
  }

  // ----- the only reasons to give up -----

  predicate Moves(s: State, t: State, a: nat) {
    IsRunning(s, a) && a < |t.agents| && t.agents[a] != s.agents[a]
  }

  /** Agent `a` reads GSSR and finds what it asks for taken. */
  predicate FindsConflict(s: State, t: State, a: nat) {
    Moves(s, t, a) && s.agents[a].pc.stage.ReadGssr? && Conflicts(s.agents[a].pc.op, s.gssr)
  }

  /** The last poll of SMBI, or the last look at SWESMBI, is in vain. */
  predicate LosesInner(s: State, t: State, a: nat) {
    && Moves(s, t, a)
    && var stage := s.agents[a].pc.stage;
       || (stage == PollSmbi(TIMEOUT - 1) && s.smbi)
       || (stage == CheckRequest(TIMEOUT - 1) && !s.swesmbi)
  }

  function ConflictsFound(run: seq<State>, a: nat, k: nat): nat
    requires k < |run|
  {
    if k == 0 then 0
    else ConflictsFound(run, a, k - 1) + if FindsConflict(run[k - 1], run[k], a) then 1 else 0
  }

  ghost predicate InnerLost(run: seq<State>, a: nat, k: nat)
    requires k < |run|
  {
    exists i :: 0 <= i < k && LosesInner(run[i], run[i + 1], a)
  }

  /** Agent `a` asks for `mask` at the start of the run and stays in that call until its last state. */
  ghost predicate OneCall(c: Config, run: seq<State>, a: nat, mask: set<nat>, left: nat) {
    && Steps(c, run) && left > 0
    && (forall i | 0 <= i < |run| - 1 :: IsRunning(run[i], a))
    && a < |run[0].agents| && run[0].agents[a].pc == Running(Acquire(mask, left), false, PollSmbi(0))
  }

  /** Where the call can be when it has found `found` conflicts. */
  ghost predicate Progress(ag: Agent, hold: set<nat>, mask: set<nat>, left: nat, found: nat, lost: bool) {
    match ag.pc
    case Idle => ag.hold == hold + mask || (ag.hold == hold && (found == left || lost))
    case Running(op, _, stage) =>
      && op.Acquire? && op.mask == mask && op.left > 0
      && match stage
         case DropRead(why) => Dropping(ag.hold, hold, mask, op.left, left, found, lost, why)
         case DropWrite(why) => Dropping(ag.hold, hold, mask, op.left, left, found, lost, why)
         case PollSmbi(i) => ag.hold == hold && found + op.left == left && i < TIMEOUT
         case ReadRequest(i) => ag.hold == hold && found + op.left == left && i < TIMEOUT
         case WriteRequest(i) => ag.hold == hold && found + op.left == left && i < TIMEOUT
         case CheckRequest(i) => ag.hold == hold && found + op.left == left && i < TIMEOUT
         case _ => ag.hold == hold && found + op.left == left
  }

  ghost predicate Dropping(now: set<nat>, hold: set<nat>, mask: set<nat>, l: nat, left: nat, found: nat, lost: bool, why: Why) {
    match why
    case Finished => now == hold + mask
    case Conflict => now == hold && found + l == left + 1
    case NotGranted => now == hold && lost
  }

  lemma ChangesOneAgent(s: State, b: nat, a: nat)
    requires IsRunning(s, a) && IsRunning(s, b)
    ensures var t := RunStep(s, b); |t.agents| == |s.agents| && (b != a ==> t.agents[a] == s.agents[a])
  {
    hide Conflicts, AfterDrop, Updated, Failed;
  }

  lemma OneStep(c: Config, s: State, t: State, a: nat)
    requires Next(c, s, t) && IsRunning(s, a)
    ensures |t.agents| == |s.agents| && (t.agents[a] == s.agents[a] || t == RunStep(s, a))
  {
    hide RunStep, GoesOnUnlocked, Conflicts, Updated;
    if b :| IsRunning(s, b) && t == RunStep(s, b) {
      ChangesOneAgent(s, b, a);
    }
  }

  lemma StepsOn(s: State, a: nat, hold: set<nat>, mask: set<nat>, left: nat, found: nat, lost: bool)
    requires IsRunning(s, a) && Progress(s.agents[a], hold, mask, left, found, lost)
    ensures var t := RunStep(s, a);
      && a < |t.agents|
      && Progress(t.agents[a], hold, mask, left, if FindsConflict(s, t, a) then found + 1 else found, lost || LosesInner(s, t, a))
  {
    hide Conflicts;
  }

  lemma {:induction false} CallProgress(c: Config, run: seq<State>, a: nat, mask: set<nat>, left: nat, k: nat)
    requires OneCall(c, run, a, mask, left) && k < |run|
    ensures a < |run[k].agents|
    ensures Progress(run[k].agents[a], run[0].agents[a].hold, mask, left, ConflictsFound(run, a, k), InnerLost(run, a, k))
  {
    hide Next, RunStep, Conflicts, Progress, Dropping;
    if k == 0 {
      StartsWell(run[0].agents[a], mask, left, InnerLost(run, a, 0));
    } else {
      CallProgress(c, run, a, mask, left, k - 1);
      var s, t, hold := run[k - 1], run[k], run[0].agents[a].hold;
      assert run[k - 1 + 1] == run[k];
      var found, lost := ConflictsFound(run, a, k - 1), InnerLost(run, a, k - 1);
      OneStep(c, s, t, a);
      assert InnerLost(run, a, k) == (lost || LosesInner(s, t, a));
      if t.agents[a] != s.agents[a] {
        StepsOn(s, a, hold, mask, left, found, lost);
      }
    }
  }

  lemma StartsWell(ag: Agent, mask: set<nat>, left: nat, lost: bool)
    requires ag.pc == Running(Acquire(mask, left), false, PollSmbi(0)) && left > 0
    ensures Progress(ag, ag.hold, mask, left, 0, lost)
  {
  }

  /** In every run: a call that ends has its resources, or found as many conflicts as it had
      attempts, or failed to get the inner semaphore; and while it goes on, its attempts are those
      it had less the conflicts it met. */
  lemma WhyItGivesUp(c: Config, run: seq<State>, a: nat, mask: set<nat>, left: nat)
    requires OneCall(c, run, a, mask, left)
    ensures var k, t := |run| - 1, run[|run| - 1];
      && a < |t.agents|
      && (t.agents[a].pc.Idle? ==>
            || t.agents[a].hold == run[0].agents[a].hold + mask
            || (t.agents[a].hold == run[0].agents[a].hold && (ConflictsFound(run, a, k) == left || InnerLost(run, a, k))))
      && (t.agents[a].pc.Running? && t.agents[a].pc.stage.PollSmbi? ==>
            && t.agents[a].pc.op.Acquire? && t.agents[a].pc.op.mask == mask
            && t.agents[a].pc.op.left + ConflictsFound(run, a, k) == left && t.agents[a].hold == run[0].agents[a].hold)
  {
    hide Next, RunStep, Conflicts, InnerLost, ConflictsFound;
    CallProgress(c, run, a, mask, left, |run| - 1);
  }
}
