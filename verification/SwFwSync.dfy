/**
 The two-level semaphore that software agents and the firmware use to share resources.

 The inner semaphore is SWSM.SMBI, taken among software agents by reading the register,
 and then SWSM.SWESMBI, granted by the hardware against the firmware. It guards the
 read-modify-write of GSSR, whose low bits say which resources software owns and whose
 bits five positions up say which ones the firmware owns.

 Every register access is one step, and the steps of any number of agents and of the
 firmware interleave freely. A register is the set of positions of its one bits.
 */
module SwFwSync {

  const TIMEOUT: nat := 2000
  const ATTEMPTS: nat := 200
  const FW_SHIFT: nat := 5
  const RESOURCES: set<nat> := {0, 1, 2, 3, 4}

  datatype Op = Acquire(mask: set<nat>, left: nat) | Release(mask: set<nat>)

  /** Why the inner semaphore is being given back. */
  datatype Why = NotGranted | Conflict | Finished

  /** The next register access of a call. */
  datatype Stage =
    | PollSmbi(i: nat)
    | ReadRequest(i: nat)
    | WriteRequest(i: nat)
    | CheckRequest(i: nat)
    | ReadGssr
    | WriteGssr(g: set<nat>)
    | DropRead(why: Why)
    | DropWrite(why: Why)

  /** `locked` says whether the call has taken SMBI and not given it back. */
  datatype Pc = Idle | Running(op: Op, locked: bool, stage: Stage)

  datatype Agent = Agent(hold: set<nat>, pc: Pc)

  datatype FwPc = FwIdle | FwRead(op: Op) | FwWrite(op: Op, g: set<nat>) | FwDrop

  datatype State = State(
    smbi: bool, swesmbi: bool, fwSem: bool, gssr: set<nat>,
    agents: seq<Agent>, fwHold: set<nat>, fwPc: FwPc)

  /** Whether runs are considered in which a release goes on although it did not get the
      inner semaphore: the source ignores the result at that call. */
  datatype Config = Config(unlockedRelease: bool)

  /** The value `mask << 5`. */
  function FwBits(mask: set<nat>): set<nat> {
    set b | b in mask :: b + FW_SHIFT
  }

  // ----- steps of one software agent -----

  function Give(s: State, a: nat, pc: Pc): State
    requires a < |s.agents|
  {
    s.(agents := s.agents[a := s.agents[a].(pc := pc)])
  }

  /** What ixgbe_get_eeprom_semaphore returning an error leads to. */
  function Failed(op: Op): Pc {
    if op.Release? then Running(op, false, ReadGssr) else Idle
  }

  function AfterDrop(op: Op, why: Why): Pc {
    match why
    case Finished => Idle
    case NotGranted => Failed(op)
    case Conflict =>
      if op.Acquire? && op.left > 1 then Running(op.(left := op.left - 1), false, PollSmbi(0)) else Idle
  }

  predicate Conflicts(op: Op, g: set<nat>) {
    op.Acquire? && g * (op.mask + FwBits(op.mask)) != {}
  }

  function Updated(op: Op, bits: set<nat>, mask: set<nat>): set<nat> {
    if op.Acquire? then bits + mask else bits - mask
  }

  predicate IsRunning(s: State, a: nat) {
    a < |s.agents| && s.agents[a].pc.Running?
  }

  /** The next register access of agent `a`. Every read of SWSM sets SMBI. */
  function RunStep(s: State, a: nat): State
    requires IsRunning(s, a)
  {
    var Running(op, locked, stage) := s.agents[a].pc;
    match stage
    case PollSmbi(i) =>
      if !s.smbi then Give(s.(smbi := true), a, Running(op, true, ReadRequest(0)))
      else Give(s, a, if i + 1 < TIMEOUT then Running(op, locked, PollSmbi(i + 1)) else Failed(op))
    case ReadRequest(i) =>
      Give(s.(smbi := true), a, Running(op, locked, WriteRequest(i)))
    case WriteRequest(i) =>
      // the hardware keeps the bit only while the firmware does not hold its semaphore
      Give(s.(swesmbi := !s.fwSem), a, Running(op, locked, CheckRequest(i)))
    case CheckRequest(i) =>
      Give(s.(smbi := true), a, Running(op, locked,
        if s.swesmbi then ReadGssr else if i + 1 < TIMEOUT then ReadRequest(i + 1) else DropRead(NotGranted)))
    case ReadGssr =>
      Give(s, a, Running(op, locked, if Conflicts(op, s.gssr) then DropRead(Conflict) else WriteGssr(s.gssr)))
    case WriteGssr(g) =>
      var ag := Agent(Updated(op, s.agents[a].hold, op.mask), Running(op, locked, DropRead(Finished)));
      s.(gssr := Updated(op, g, op.mask), agents := s.agents[a := ag])
    case DropRead(why) =>
      Give(s.(smbi := true), a, Running(op, locked, DropWrite(why)))
    case DropWrite(why) =>
      Give(s.(smbi := false, swesmbi := false), a, AfterDrop(op, why))
  }

  /** The step that leaves the inner semaphore behind but goes on with the release. */
  predicate GoesOnUnlocked(s: State, a: nat)
    requires IsRunning(s, a)
  {
    var pc := RunStep(s, a).agents[a].pc;
    pc.Running? && !pc.locked && pc.stage == ReadGssr
  }

  /** Agents release only what they hold. */
  predicate CanStart(s: State, a: nat, op: Op) {
    && a < |s.agents| && s.agents[a].pc.Idle? && op.mask <= RESOURCES
    && (op.Acquire? ==> op.left == ATTEMPTS)
    && (op.Release? ==> op.mask <= s.agents[a].hold)
  }

  function Start(s: State, a: nat, op: Op): State
    requires a < |s.agents|
  {
    Give(s, a, Running(op, false, PollSmbi(0)))
  }

  // ----- steps of the firmware -----

  predicate FwCanStart(s: State, op: Op) {
    && s.fwPc.FwIdle? && !s.fwSem && !s.swesmbi && op.mask <= RESOURCES
    && (op.Release? ==> op.mask <= s.fwHold)
  }

  function FwStep(s: State): State
    requires !s.fwPc.FwIdle?
  {
    match s.fwPc
    case FwRead(op) => s.(fwPc := if Conflicts(op, s.gssr) then FwDrop else FwWrite(op, s.gssr))
    case FwWrite(op, g) =>
      s.(gssr := Updated(op, g, FwBits(op.mask)), fwHold := Updated(op, s.fwHold, op.mask), fwPc := FwDrop)
    case FwDrop => s.(fwSem := false, fwPc := FwIdle)
  }

  // ----- the system -----

  ghost predicate Init(s: State) {
    && !s.smbi && !s.swesmbi && !s.fwSem && s.gssr == {} && s.fwHold == {} && s.fwPc.FwIdle?
    && (forall a | 0 <= a < |s.agents| :: s.agents[a] == Agent({}, Idle))
  }

  ghost predicate Next(c: Config, s: State, t: State) {
    || (exists a, op :: CanStart(s, a, op) && t == Start(s, a, op))
    || (exists a :: IsRunning(s, a) && (GoesOnUnlocked(s, a) ==> c.unlockedRelease) && t == RunStep(s, a))
    || (exists op :: FwCanStart(s, op) && t == s.(fwSem := true, fwPc := FwRead(op)))
    || (!s.fwPc.FwIdle? && t == FwStep(s))
  }

  // ----- what is promised -----

  /** No resource has two owners. */
  ghost predicate Exclusive(s: State) {
    && (forall a, b | 0 <= a < b < |s.agents| :: s.agents[a].hold !! s.agents[b].hold)
    && (forall a | 0 <= a < |s.agents| :: s.agents[a].hold !! s.fwHold)
  }

  ghost predicate Owned(agents: seq<Agent>, b: nat) {
    exists a :: 0 <= a < |agents| && b in agents[a].hold
  }

  /** GSSR says exactly who owns what. */
  ghost predicate RegisterExact(s: State) {
    && (forall b | b in s.gssr :: b < 2 * FW_SHIFT)
    && (forall b: nat | b < FW_SHIFT :: b in s.gssr <==> Owned(s.agents, b))
    && (forall b: nat | b < FW_SHIFT :: b + FW_SHIFT in s.gssr <==> b in s.fwHold)
  }

  /** A pending write of GSSR is based on the current value: no update is lost. */
  ghost predicate NoStaleWrite(s: State) {
    && (forall a | 0 <= a < |s.agents| && s.agents[a].pc.Running? && s.agents[a].pc.stage.WriteGssr? ::
          s.agents[a].pc.stage.g == s.gssr && !Conflicts(s.agents[a].pc.op, s.gssr))
    && (s.fwPc.FwWrite? ==> s.fwPc.g == s.gssr && !Conflicts(s.fwPc.op, s.gssr))
  }

  // ----- the invariant -----

  predicate Locked(ag: Agent) {
    ag.pc.Running? && ag.pc.locked
  }

  /** Between the grant of SWESMBI and its return. */
  predicate Critical(ag: Agent) {
    && ag.pc.Running?
    && match ag.pc.stage
       case ReadGssr => true
       case WriteGssr(_) => true
       case DropRead(why) => !why.NotGranted?
       case DropWrite(why) => !why.NotGranted?
       case _ => false
  }

  ghost predicate AgentOk(ag: Agent) {
    && ag.hold <= RESOURCES
    && (ag.pc.Running? ==>
          && ag.pc.op.mask <= RESOURCES
          && (ag.pc.op.Release? ==> ag.pc.stage in {DropRead(Finished), DropWrite(Finished)} || ag.pc.op.mask <= ag.hold)
          && (ag.pc.locked <==> !ag.pc.stage.PollSmbi?))
  }

  ghost predicate Semaphores(s: State) {
    && (forall a | 0 <= a < |s.agents| :: AgentOk(s.agents[a]))
    && (forall a | 0 <= a < |s.agents| && Locked(s.agents[a]) :: s.smbi)
    && (forall a, b | 0 <= a < b < |s.agents| :: !(Locked(s.agents[a]) && Locked(s.agents[b])))
    && (forall a | 0 <= a < |s.agents| && Critical(s.agents[a]) :: s.swesmbi)
    && !(s.swesmbi && s.fwSem) && (s.fwSem <==> !s.fwPc.FwIdle?)
    && s.fwHold <= RESOURCES
    && (s.fwPc.FwRead? || s.fwPc.FwWrite? ==>
          s.fwPc.op.mask <= RESOURCES && (s.fwPc.op.Release? ==> s.fwPc.op.mask <= s.fwHold))
  }

  ghost predicate Inv(s: State) {
    Semaphores(s) && Exclusive(s) && RegisterExact(s) && NoStaleWrite(s)
  }

  /** Nobody else changes GSSR under an agent in its critical section, nor under the firmware. */
  lemma OneWriter(s: State, a: nat)
    requires Semaphores(s) && a < |s.agents| && Critical(s.agents[a])
    ensures Locked(s.agents[a]) && s.fwPc.FwIdle?
    ensures forall b | 0 <= b < |s.agents| && b != a :: !Critical(s.agents[b])
  {
    assert AgentOk(s.agents[a]);
    forall b | 0 <= b < |s.agents| && b != a ensures !Critical(s.agents[b]) {
      assert AgentOk(s.agents[b]);
    }
  }

  lemma RunKeepsSemaphores(s: State, a: nat)
    requires Inv(s) && IsRunning(s, a) && !GoesOnUnlocked(s, a)
    ensures Semaphores(RunStep(s, a))
  {
    assert AgentOk(s.agents[a]);
    if Critical(s.agents[a]) { OneWriter(s, a); }
  }

  /** Steps that leave GSSR and the owners alone keep the register exact. */
  lemma SameOwners(s: State, t: State)
    requires Exclusive(s) && RegisterExact(s)
    requires t.gssr == s.gssr && t.fwHold == s.fwHold && |t.agents| == |s.agents|
    requires forall a | 0 <= a < |s.agents| :: t.agents[a].hold == s.agents[a].hold
    ensures Exclusive(t) && RegisterExact(t)
  {
    forall b: nat ensures Owned(t.agents, b) <==> Owned(s.agents, b) {
      if Owned(s.agents, b) {
        var a :| 0 <= a < |s.agents| && b in s.agents[a].hold;
        assert b in t.agents[a].hold;
      }
    }
  }

  lemma OwnedAfter(agents: seq<Agent>, a: nat, ag: Agent, b: nat)
    requires a < |agents|
    requires forall i, j | 0 <= i < j < |agents| :: agents[i].hold !! agents[j].hold
    requires b in ag.hold ==> forall i | 0 <= i < |agents| && i != a :: b !in agents[i].hold
    ensures Owned(agents[a := ag], b) <==> b in ag.hold || (Owned(agents, b) && b !in agents[a].hold)
  {
    var after := agents[a := ag];
    if b in ag.hold {
      assert b in after[a].hold;
    }
    if Owned(agents, b) && b !in agents[a].hold {
      var i :| 0 <= i < |agents| && b in agents[i].hold;
      assert b in after[i].hold;
    }
  }

  /** The write of GSSR that ends an acquire or a release. */
  lemma WriteKeepsRegister(s: State, a: nat)
    requires Inv(s) && IsRunning(s, a) && s.agents[a].pc.stage.WriteGssr?
    ensures Exclusive(RunStep(s, a)) && RegisterExact(RunStep(s, a))
  {
    hide Semaphores, Conflicts;
    var op, t := s.agents[a].pc.op, RunStep(s, a);
    WriteIsSafe(s, a);
    forall b: nat | b < FW_SHIFT ensures b in t.gssr <==> Owned(t.agents, b) {
      OwnedAfter(s.agents, a, t.agents[a], b);
      assert b in s.agents[a].hold ==> Owned(s.agents, b);
    }
  }

  lemma WriteIsSafe(s: State, a: nat)
    requires Inv(s) && IsRunning(s, a) && s.agents[a].pc.stage.WriteGssr?
    ensures var op := s.agents[a].pc.op;
      && op.mask <= RESOURCES && s.agents[a].pc.stage.g == s.gssr
      && (op.Release? ==> op.mask <= s.agents[a].hold)
      && (op.Acquire? ==> Unowned(s, op.mask))
  {
    hide Conflicts, Unowned, Exclusive, RegisterExact;
    var op := s.agents[a].pc.op;
    assert AgentOk(s.agents[a]);
    if op.Acquire? {
      NoConflictIsUnowned(s, op);
    }
  }

  ghost predicate Unowned(s: State, mask: set<nat>) {
    && mask !! s.fwHold
    && (forall i | 0 <= i < |s.agents| :: mask !! s.agents[i].hold)
  }

  /** Finding the bits of both sides clear means that nobody owns the resources. */
  lemma NoConflictIsUnowned(s: State, op: Op)
    requires RegisterExact(s) && op.mask <= RESOURCES && op.Acquire? && !Conflicts(op, s.gssr)
    ensures Unowned(s, op.mask)
  {
    forall b | b in op.mask ensures b !in s.fwHold && !Owned(s.agents, b) {
      assert b in RESOURCES;
      var both := op.mask + FwBits(op.mask);
      assert b in both && b + FW_SHIFT in both;
      assert b !in s.gssr * both && b + FW_SHIFT !in s.gssr * both;
    }
    forall i, b | 0 <= i < |s.agents| && b in op.mask ensures b !in s.agents[i].hold {
      assert !Owned(s.agents, b);
    }
  }

  lemma RunKeepsRegister(s: State, a: nat)
    requires Inv(s) && IsRunning(s, a)
    ensures Exclusive(RunStep(s, a)) && RegisterExact(RunStep(s, a))
  {
    if s.agents[a].pc.stage.WriteGssr? {
      WriteKeepsRegister(s, a);
    } else {
      hide Semaphores, Exclusive, RegisterExact, NoStaleWrite;
      SameOwners(s, RunStep(s, a));
    }
  }

  lemma RunKeepsWrites(s: State, a: nat)
    requires Inv(s) && IsRunning(s, a)
    ensures NoStaleWrite(RunStep(s, a))
  {
    hide Exclusive, RegisterExact, Conflicts, Updated;
    if Critical(s.agents[a]) {
      OneWriter(s, a);
      hide Semaphores;
    }
  }

  lemma StartKeepsInv(s: State, a: nat, op: Op)
    requires Inv(s) && CanStart(s, a, op)
    ensures Inv(Start(s, a, op))
  {
    var t := Start(s, a, op);
    assert AgentOk(s.agents[a]) && AgentOk(t.agents[a]);
    SameOwners(s, t);
  }

  lemma FwStartKeepsInv(s: State, op: Op)
    requires Inv(s) && FwCanStart(s, op)
    ensures Inv(s.(fwSem := true, fwPc := FwRead(op)))
  {
    SameOwners(s, s.(fwSem := true, fwPc := FwRead(op)));
  }

  lemma FwWriteKeepsRegister(s: State)
    requires Inv(s) && s.fwPc.FwWrite?
    ensures Exclusive(FwStep(s)) && RegisterExact(FwStep(s))
  {
    var op, t := s.fwPc.op, FwStep(s);
    if op.Acquire? { NoConflictIsUnowned(s, op); }
    hide Semaphores, NoStaleWrite, Conflicts;
    assert s.fwPc.g == s.gssr && op.mask <= RESOURCES;
    forall b: nat | b < FW_SHIFT ensures b + FW_SHIFT in t.gssr <==> b in t.fwHold {
      assert b + FW_SHIFT in FwBits(op.mask) <==> b in op.mask;
    }
  }

  lemma FwKeepsInv(s: State)
    requires Inv(s) && !s.fwPc.FwIdle?
    ensures Inv(FwStep(s))
  {
    if s.fwPc.FwWrite? {
      FwWriteKeepsRegister(s);
    } else {
      SameOwners(s, FwStep(s));
    }
    hide Exclusive, RegisterExact, Conflicts;
  }

  lemma NextKeepsInv(c: Config, s: State, t: State)
    requires Inv(s) && Next(c, s, t) && !c.unlockedRelease
    ensures Inv(t)
  {
    hide Semaphores, Exclusive, RegisterExact, NoStaleWrite, RunStep, FwStep, Start;
    if a, op :| CanStart(s, a, op) && t == Start(s, a, op) {
      StartKeepsInv(s, a, op);
    } else if a :| IsRunning(s, a) && !GoesOnUnlocked(s, a) && t == RunStep(s, a) {
      RunKeepsSemaphores(s, a);
      RunKeepsRegister(s, a);
      RunKeepsWrites(s, a);
    } else if op :| FwCanStart(s, op) && t == s.(fwSem := true, fwPc := FwRead(op)) {
      FwStartKeepsInv(s, op);
    } else {
      FwKeepsInv(s);
    }
  }

  // ----- every run -----

  ghost predicate IsRun(c: Config, n: nat, run: seq<State>) {
    && |run| > 0 && Init(run[0]) && |run[0].agents| == n
    && (forall i | 0 <= i < |run| - 1 :: Next(c, run[i], run[i + 1]))
  }

  ghost predicate Reachable(c: Config, n: nat, s: State) {
    exists run :: IsRun(c, n, run) && run[|run| - 1] == s
  }

  /** In every interleaving in which releases get the inner semaphore, no resource has two
      owners, GSSR names the owners exactly, and no read-modify-write of it loses a bit. */
  lemma {:induction false} MutualExclusion(c: Config, n: nat, run: seq<State>)
    requires IsRun(c, n, run) && !c.unlockedRelease
    ensures Inv(run[|run| - 1])
  {
    hide Next, Inv;
    if |run| == 1 {
      InitInv(run[0]);
    } else {
      var before := run[..|run| - 1];
      MutualExclusion(c, n, before);
      NextKeepsInv(c, before[|before| - 1], run[|run| - 1]);
    }
  }

  lemma InitInv(s: State)
    requires Init(s)
    ensures Inv(s)
  {
    hide Conflicts;
  }

  // ----- what goes wrong otherwise -----

  lemma Go(c: Config, n: nat, s: State, t: State)
    requires Reachable(c, n, s) && Next(c, s, t)
    ensures Reachable(c, n, t)
  {
    hide Next, Init;
    var run :| IsRun(c, n, run) && run[|run| - 1] == s;
    assert IsRun(c, n, run + [t]);
  }

  lemma GoRun(n: nat, s: State, a: nat)
    requires Reachable(Config(true), n, s) && IsRunning(s, a)
    ensures Reachable(Config(true), n, RunStep(s, a))
  {
    hide RunStep, Reachable;
    Go(Config(true), n, s, RunStep(s, a));
  }

  lemma GoStart(n: nat, s: State, a: nat, op: Op)
    requires Reachable(Config(true), n, s) && CanStart(s, a, op)
    ensures Reachable(Config(true), n, Start(s, a, op))
  {
    hide Start, Reachable;
    Go(Config(true), n, s, Start(s, a, op));
  }

  /** An agent alone walks from a free semaphore to the pending write of GSSR ... */
  lemma Enter(n: nat, s: State, a: nat, op: Op)
    requires Reachable(Config(true), n, s) && CanStart(s, a, op)
    requires !s.smbi && !s.fwSem && !Conflicts(op, s.gssr)
    ensures Reachable(Config(true), n, Give(s.(smbi := true, swesmbi := true), a, Running(op, true, WriteGssr(s.gssr))))
  {
    hide Reachable, Conflicts;
    GoStart(n, s, a, op);
    var s1 := Start(s, a, op);
    GoRun(n, s1, a);
    var s2 := Give(s.(smbi := true), a, Running(op, true, ReadRequest(0)));
    assert RunStep(s1, a) == s2;
    GoRun(n, s2, a);
    var s3 := Give(s.(smbi := true), a, Running(op, true, WriteRequest(0)));
    assert RunStep(s2, a) == s3;
    GoRun(n, s3, a);
    var s4 := Give(s.(smbi := true, swesmbi := true), a, Running(op, true, CheckRequest(0)));
    assert RunStep(s3, a) == s4;
    GoRun(n, s4, a);
    var s5 := Give(s.(smbi := true, swesmbi := true), a, Running(op, true, ReadGssr));
    assert RunStep(s4, a) == s5;
    GoRun(n, s5, a);
    assert RunStep(s5, a) == Give(s.(smbi := true, swesmbi := true), a, Running(op, true, WriteGssr(s.gssr)));
  }

  /** ... and from there out of the call. */
  lemma Leave(n: nat, s: State, a: nat)
    requires Reachable(Config(true), n, s) && IsRunning(s, a) && s.agents[a].pc.stage.WriteGssr?
    ensures var op := s.agents[a].pc.op;
      Reachable(Config(true), n, s.(smbi := false, swesmbi := false, gssr := Updated(op, s.agents[a].pc.stage.g, op.mask),
        agents := s.agents[a := Agent(Updated(op, s.agents[a].hold, op.mask), Idle)]))
  {
    hide Reachable, Updated;
    GoRun(n, s, a);
    GoRun(n, RunStep(s, a), a);
    GoRun(n, RunStep(RunStep(s, a), a), a);
    var op := s.agents[a].pc.op;
    assert RunStep(RunStep(RunStep(s, a), a), a) ==
      s.(smbi := false, swesmbi := false, gssr := Updated(op, s.agents[a].pc.stage.g, op.mask),
         agents := s.agents[a := Agent(Updated(op, s.agents[a].hold, op.mask), Idle)]);
  }

  /** While another agent keeps SMBI, all 2000 polls fail. */
  lemma {:induction false} PollsFail(n: nat, s: State, a: nat, i: nat)
    requires i < TIMEOUT && IsRunning(s, a) && s.smbi && s.agents[a].pc.stage == PollSmbi(i) && !s.agents[a].pc.locked
    requires Reachable(Config(true), n, s)
    ensures Reachable(Config(true), n, Give(s, a, Failed(s.agents[a].pc.op)))
    decreases TIMEOUT - i
  {
    hide Reachable, Failed;
    GoRun(n, s, a);
    if i + 1 < TIMEOUT {
      var t := Give(s, a, Running(s.agents[a].pc.op, false, PollSmbi(i + 1)));
      assert RunStep(s, a) == t;
      PollsFail(n, t, a, i + 1);
      assert Give(t, a, Failed(t.agents[a].pc.op)) == Give(s, a, Failed(s.agents[a].pc.op));
    }
  }

  function World(smbi: bool, swesmbi: bool, gssr: set<nat>, x: Agent, y: Agent, rest: seq<Agent>): State {
    State(smbi, swesmbi, false, gssr, [x, y] + rest, {}, FwIdle)
  }

  /** Two agents end up owning the same resource after one of them released another
      resource without having got the inner semaphore. */
  lemma UnlockedReleaseBreaksExclusion(n: nat) returns (bad: State)
    requires n >= 2
    ensures Reachable(Config(true), n, bad) && !Exclusive(bad)
  {
    hide Reachable, Conflicts;
    var none := Agent({}, Idle);
    var rest := seq(n - 2, _ => none);
    var eep := Acquire({0}, ATTEMPTS);
    var s0 := World(false, false, {}, none, none, rest);
    StartReachable(n, s0);
    FreeAgainst(eep, {});
    Enter(n, s0, 0, eep);
    var s1 := World(true, true, {}, Agent({}, Running(eep, true, WriteGssr({}))), none, rest);
    assert Give(s0.(smbi := true, swesmbi := true), 0, Running(eep, true, WriteGssr({}))) == s1;
    Leave(n, s1, 0);
    var s2 := World(false, false, {0}, Agent({0}, Idle), none, rest);
    assert Updated(eep, {}, {0}) == {0};
    assert s1.(smbi := false, swesmbi := false, gssr := {0}, agents := s1.agents[0 := Agent({0}, Idle)]) == s2;
    bad := Overlap(n, s2, rest);
  }

  lemma StartReachable(n: nat, s: State)
    requires Init(s) && |s.agents| == n
    ensures Reachable(Config(true), n, s)
  {
    assert IsRun(Config(true), n, [s]);
  }

  lemma FreeAgainst(op: Op, g: set<nat>)
    requires op.mask <= {0, 1} && g <= {0, 1} && (op.Release? || op.mask !! g)
    ensures !Conflicts(op, g)
  {
  }

  /** The second half of the bad run: agent 0 owns resource 0. */
  lemma Overlap(n: nat, s2: State, rest: seq<Agent>) returns (bad: State)
    requires s2 == World(false, false, {0}, Agent({0}, Idle), Agent({}, Idle), rest)
    requires Reachable(Config(true), n, s2)
    ensures Reachable(Config(true), n, bad) && !Exclusive(bad)
  {
    hide Reachable, Conflicts;
    var phy, rel := Acquire({1}, ATTEMPTS), Release({0});
    FreeAgainst(phy, {0});
    Enter(n, s2, 1, phy);
    var y := Agent({}, Running(phy, true, WriteGssr({0})));
    var s3 := World(true, true, {0}, Agent({0}, Idle), y, rest);
    assert Give(s2.(smbi := true, swesmbi := true), 1, y.pc) == s3;
    GoStart(n, s3, 0, rel);
    var s4 := World(true, true, {0}, Agent({0}, Running(rel, false, PollSmbi(0))), y, rest);
    assert Start(s3, 0, rel) == s4;
    PollsFail(n, s4, 0, 0);
    var s5 := World(true, true, {0}, Agent({0}, Running(rel, false, ReadGssr)), y, rest);
    assert Give(s4, 0, Failed(rel)) == s5;
    GoRun(n, s5, 0);
    var x := Agent({0}, Running(rel, false, WriteGssr({0})));
    var s6 := World(true, true, {0}, x, y, rest);
    FreeAgainst(rel, {0});
    assert RunStep(s5, 0) == s6;
    bad := LostBit(n, s6, rest, x, y);
  }

  /** Both writes of GSSR are pending on the same old value: the release wipes out the bit
      that the acquire has just set, and the resource is free to take again. */
  lemma LostBit(n: nat, s6: State, rest: seq<Agent>, x: Agent, y: Agent) returns (bad: State)
    requires x == Agent({0}, Running(Release({0}), false, WriteGssr({0})))
    requires y == Agent({}, Running(Acquire({1}, ATTEMPTS), true, WriteGssr({0})))
    requires s6 == World(true, true, {0}, x, y, rest) && Reachable(Config(true), n, s6)
    ensures Reachable(Config(true), n, bad) && !Exclusive(bad)
  {
    hide Reachable, Conflicts;
    var phy := Acquire({1}, ATTEMPTS);
    GoRun(n, s6, 1);
    var y7 := Agent({1}, Running(phy, true, DropRead(Finished)));
    var s7 := World(true, true, {0, 1}, x, y7, rest);
    assert Updated(phy, {0}, {1}) == {0, 1} && Updated(phy, {}, {1}) == {1};
    assert RunStep(s6, 1) == s7;
    Leave(n, s7, 0);
    var none := Agent({}, Idle);
    var s8 := World(false, false, {}, none, y7, rest);
    assert s7.(smbi := false, swesmbi := false, gssr := {}, agents := s7.agents[0 := none]) == s8;
    assert Updated(Release({0}), {0}, {0}) == {};
    GoRun(n, s8, 1);
    var s9 := World(true, false, {}, none, Agent({1}, Running(phy, true, DropWrite(Finished))), rest);
    assert RunStep(s8, 1) == s9;
    GoRun(n, s9, 1);
    var s10 := World(false, false, {}, none, Agent({1}, Idle), rest);
    assert RunStep(s9, 1) == s10;
    FreeAgainst(phy, {});
    Enter(n, s10, 0, phy);
    var s11 := World(true, true, {}, Agent({}, Running(phy, true, WriteGssr({}))), Agent({1}, Idle), rest);
    assert Give(s10.(smbi := true, swesmbi := true), 0, Running(phy, true, WriteGssr({}))) == s11;
    Leave(n, s11, 0);
    bad := World(false, false, {1}, Agent({1}, Idle), Agent({1}, Idle), rest);
    assert s11.(smbi := false, swesmbi := false, gssr := {1}, agents := s11.agents[0 := Agent({1}, Idle)]) == bad;
    assert bad.agents[0].hold == bad.agents[1].hold == {1} && 1 in {1};
  }

  /** With two or more agents, resources never have two owners exactly when releases do
      not go on without the inner semaphore. */
  lemma SafeIffReleasesLock(c: Config, n: nat)
    requires n >= 2
    ensures (forall s :: Reachable(c, n, s) ==> Exclusive(s)) <==> !c.unlockedRelease
  {
    if c.unlockedRelease {
      var bad := UnlockedReleaseBreaksExclusion(n);
      assert c == Config(true);
    } else {
      forall s | Reachable(c, n, s) ensures Exclusive(s) {
        var run :| IsRun(c, n, run) && run[|run| - 1] == s;
        MutualExclusion(c, n, run);
      }
    }
  }
}
