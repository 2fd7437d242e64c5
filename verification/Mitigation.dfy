/** The mitigation controller of ddos/mitigation/controller.go and the agent's driving of it in
    cmd/agent/main.go: how the limiter follows the anomaly state. */
module Mitigation {
  import opened StateMachine
  import opened RateLimiting

  datatype Agent = Agent(machine: Machine, active: bool, limiter: Limiter)

  datatype Step =
    | EnsembleTick(isAnomaly: bool, now: real)
    | DetectorTick(attack: bool, now: real)
    | Command(activated: bool, now: real)
    | Arrival(ip: string, now: real)
    | DecayTick

  /** UpdateState of the controller. */
  function Update(l: Limits, a: Agent, state: AnomalyState, now: real): Agent {
    match state
    case UnderAttack => a.(active := true)
    case Recovery => a.(active := true)
    case Normal => a.(active := false, limiter := if a.active then Restarted(l, a.limiter, now) else a.limiter)
  }

  function Moved(l: Limits, a: Agent, m: Machine, now: real): Agent {
    Update(l, a.(machine := m), m.state, now)
  }

  /** ShouldAllow of the controller. */
  function Admit(l: Limits, h: CmsHash, a: Agent, ip: string, now: real): (Agent, bool)
    requires ValidHash(h) && ValidCms(a.limiter.cms)
  {
    if !a.active then (a, true)
    else
      var (limiter, allowed) := Decide(l, h, a.limiter, ip, now);
      (a.(limiter := limiter), allowed)
  }

  function Perform(c: Config, l: Limits, h: CmsHash, a: Agent, s: Step): (a': Agent)
    requires ValidHash(h) && ValidCms(a.limiter.cms)
    ensures ValidCms(a'.limiter.cms)
  {
    match s
    case EnsembleTick(isAnomaly, now) => Moved(l, a, StateMachine.Next(c, a.machine, isAnomaly), now)
    case DetectorTick(attack, now) =>
      Moved(l, a, if attack then Forced(UnderAttack) else StateMachine.Next(c, a.machine, false), now)
    case Command(activated, now) =>
      if activated && a.machine.state.Normal? then Moved(l, a, Forced(UnderAttack), now) else a
    case Arrival(ip, now) => Admit(l, h, a, ip, now).0
    case DecayTick => a.(limiter := a.limiter.(cms := Halved(a.limiter.cms)))
  }

  /** From any state of the controller an update switches it on exactly outside NORMAL, and restarts
      the limiter exactly when it switches it off. */
  lemma {:induction false} UpdateMeans(l: Limits, a: Agent, state: AnomalyState, now: real)
    ensures var b := Update(l, a, state, now);
      && b.machine == a.machine && (b.active <==> state != Normal)
      && b.limiter == if a.active && !b.active then RateLimiting.Restarted(l, a.limiter, now) else a.limiter
  {}

  /** The limiter is on exactly outside NORMAL, and when it is off its counters are all zero. */
  ghost predicate Coupled(a: Agent) {
    && (a.active <==> !a.machine.state.Normal?)
    && (!a.active ==> a.limiter.cms == Cleared())
    && ValidCms(a.limiter.cms)
  }

  lemma {:induction false} HalvedCleared()
    ensures Halved(Cleared()) == Cleared()
  {
    forall r | 0 <= r < CMS_ROWS ensures Halved(Cleared())[r] == Cleared()[r] {}
  }

  lemma {:induction false} PerformCoupled(c: Config, l: Limits, h: CmsHash, a: Agent, s: Step)
    requires ValidHash(h) && Coupled(a)
    ensures Coupled(Perform(c, l, h, a, s))
  {
    HalvedCleared();
    hide Cleared, Halved, ValidCms;
  }

  ghost function PerformAll(c: Config, l: Limits, h: CmsHash, a: Agent, ss: seq<Step>): (a': Agent)
    requires ValidHash(h) && ValidCms(a.limiter.cms)
    ensures ValidCms(a'.limiter.cms)
    decreases |ss|
  {
    if ss == [] then a else PerformAll(c, l, h, Perform(c, l, h, a, ss[0]), ss[1..])
  }

  /** Over every run of ticks, commands, arrivals and decays the coupling holds, so no count of one
      attack episode is left when the next one begins. */
  lemma {:induction false} AlwaysCoupled(c: Config, l: Limits, h: CmsHash, a: Agent, ss: seq<Step>)
    requires ValidHash(h) && Coupled(a)
    ensures Coupled(PerformAll(c, l, h, a, ss))
    decreases |ss|
  {
    if ss != [] {
      PerformCoupled(c, l, h, a, ss[0]);
      AlwaysCoupled(c, l, h, Perform(c, l, h, a, ss[0]), ss[1..]);
    }
  }

  // ----- what drives the machine -----

  /** The steps that force no state: ticks of an ensemble, calm ticks of a detector, inactive
      commands, arrivals and decays. */
  predicate Unforced(s: Step) {
    !(s.DetectorTick? && s.attack) && !(s.Command? && s.activated)
  }

  /** The verdict of a tick; a calm detector tick counts as a clean one. */
  function Verdict(s: Step): seq<bool> {
    if s.EnsembleTick? then [s.isAnomaly] else if s.DetectorTick? then [false] else []
  }

  function Verdicts(ss: seq<Step>): seq<bool> {
    if ss == [] then [] else Verdict(ss[0]) + Verdicts(ss[1..])
  }

  lemma {:induction false} HistoryGrows(c: Config, m: Machine, history: seq<bool>, verdict: bool)
    requires m == StateMachine.Run(c, history)
    ensures StateMachine.Next(c, m, verdict) == StateMachine.Run(c, history + [verdict])
  {
    assert (history + [verdict])[..|history|] == history;
    hide StateMachine.Next;
  }

  /** Without a forced state the agent's machine is the one its ticks' verdicts lead to. */
  lemma {:induction false} TicksDriveMachine(c: Config, l: Limits, h: CmsHash, a: Agent, ss: seq<Step>, history: seq<bool>)
    requires ValidHash(h) && ValidCms(a.limiter.cms) && (forall s | s in ss :: Unforced(s))
    requires a.machine == StateMachine.Run(c, history)
    ensures PerformAll(c, l, h, a, ss).machine == StateMachine.Run(c, history + Verdicts(ss))
    decreases |ss|
  {
    hide StateMachine.Run, Perform, Verdict, ValidCms, Unforced;
    if ss == [] {
      assert history + [] == history;
    } else {
      var s, rest := ss[0], ss[1..];
      OneTick(c, l, h, a, s, history);
      Regroup(history, Verdict(s), Verdicts(rest));
      TicksDriveMachine(c, l, h, Perform(c, l, h, a, s), rest, history + Verdict(s));
    }
  }

  lemma {:induction false} Regroup(a: seq<bool>, b: seq<bool>, c: seq<bool>)
    ensures a + (b + c) == (a + b) + c
  {}

  lemma {:induction false} OneTick(c: Config, l: Limits, h: CmsHash, a: Agent, s: Step, history: seq<bool>)
    requires ValidHash(h) && ValidCms(a.limiter.cms) && Unforced(s) && a.machine == StateMachine.Run(c, history)
    ensures Perform(c, l, h, a, s).machine == StateMachine.Run(c, history + Verdict(s))
  {
    hide StateMachine.Next, StateMachine.Run, ValidCms, Decide;
    if s.EnsembleTick? {
      HistoryGrows(c, a.machine, history, s.isAnomaly);
    } else if s.DetectorTick? {
      HistoryGrows(c, a.machine, history, false);
    } else {
      assert history + Verdict(s) == history;
    }
  }

  /** The steps that force a state: a detector's attack always leads to UNDER_ATTACK, an active
      command does so from NORMAL and is otherwise ignored, and both start with clear counters. */
  lemma {:induction false} ForcedSteps(c: Config, l: Limits, h: CmsHash, a: Agent, now: real)
    requires ValidHash(h) && ValidCms(a.limiter.cms)
    ensures var b := Perform(c, l, h, a, DetectorTick(true, now));
      b == Agent(Machine(UnderAttack, 0, 0), true, a.limiter)
    ensures Perform(c, l, h, a, Command(true, now)) ==
            if a.machine.state == Normal then Agent(Machine(UnderAttack, 0, 0), true, a.limiter) else a
    ensures Perform(c, l, h, a, Command(false, now)) == a
  {}

  // ----- what the limiter gets to see -----

  /** What a step from one state to another asks of the limiter. */
  function LimiterOp(before: AnomalyState, after: AnomalyState, s: Step): seq<Op> {
    match s
    case Arrival(ip, now) => if before.Normal? then [] else [Request(ip, now)]
    case DecayTick => [Decay]
    case EnsembleTick(_, now) => if !before.Normal? && after.Normal? then [ResetAt(now)] else []
    case DetectorTick(_, now) => if !before.Normal? && after.Normal? then [ResetAt(now)] else []
    case Command(_, _) => []
  }

  ghost function LimiterOps(c: Config, l: Limits, h: CmsHash, a: Agent, ss: seq<Step>): seq<Op>
    requires ValidHash(h) && ValidCms(a.limiter.cms)
    decreases |ss|
  {
    if ss == [] then []
    else
      var a' := Perform(c, l, h, a, ss[0]);
      LimiterOp(a.machine.state, a'.machine.state, ss[0]) + LimiterOps(c, l, h, a', ss[1..])
  }

  lemma {:induction false} StepAgrees(c: Config, l: Limits, h: CmsHash, a: Agent, s: Step)
    requires ValidHash(h) && Coupled(a)
    ensures var a' := Perform(c, l, h, a, s);
      a'.limiter == RateLimiting.Run(l, h, a.limiter, LimiterOp(a.machine.state, a'.machine.state, s))
  {
    hide Cleared, Halved, ValidCms, Refill, BumpRows, Estimate;
    var ops := LimiterOp(a.machine.state, Perform(c, l, h, a, s).machine.state, s);
    if ops != [] {
      assert ops[1..] == [];
    }
  }

  lemma {:induction false} RunAppend(l: Limits, h: CmsHash, s: Limiter, ops: seq<Op>, more: seq<Op>)
    requires ValidHash(h) && ValidCms(s.cms) && |ops| <= 1
    ensures RateLimiting.Run(l, h, s, ops + more) == RateLimiting.Run(l, h, RateLimiting.Run(l, h, s, ops), more)
  {
    hide ValidCms, RateLimiting.Next;
    if ops == [] {
      assert ops + more == more;
    } else {
      assert ops[1..] == [] && (ops + more)[1..] == more;
    }
  }

  /** Over every run the limiter is the one its own requests, decays and resets lead to: it sees the
      arrivals outside NORMAL and is reset on every return to NORMAL. */
  lemma {:induction false} LimiterAgrees(c: Config, l: Limits, h: CmsHash, a: Agent, ss: seq<Step>)
    requires ValidHash(h) && Coupled(a)
    ensures PerformAll(c, l, h, a, ss).limiter == RateLimiting.Run(l, h, a.limiter, LimiterOps(c, l, h, a, ss))
    decreases |ss|
  {
    if ss != [] {
      var a' := Perform(c, l, h, a, ss[0]);
      PerformCoupled(c, l, h, a, ss[0]);
      StepAgrees(c, l, h, a, ss[0]);
      LimiterAgrees(c, l, h, a', ss[1..]);
      hide Coupled, ValidCms, Perform;
      RunAppend(l, h, a.limiter, LimiterOp(a.machine.state, a'.machine.state, ss[0]), LimiterOps(c, l, h, a', ss[1..]));
    }
  }

  /** After every run an arrival passes exactly when the agent is NORMAL, which leaves the limiter
      alone, or the limiter with all it has seen so far lets it pass. */
  lemma {:induction false} VerdictAgrees(c: Config, l: Limits, h: CmsHash, a: Agent, ss: seq<Step>, ip: string, now: real)
    requires ValidHash(h) && Coupled(a)
    ensures var b := PerformAll(c, l, h, a, ss);
      var t := RateLimiting.Run(l, h, a.limiter, LimiterOps(c, l, h, a, ss));
      Admit(l, h, b, ip, now) ==
        if b.machine.state == Normal then (b, true)
        else (b.(limiter := RateLimiting.Next(l, h, t, Request(ip, now))), Passes(l, h, t, Request(ip, now)))
  {
    AlwaysCoupled(c, l, h, a, ss);
    LimiterAgrees(c, l, h, a, ss);
    hide PerformAll, LimiterOps, RateLimiting.Run, Decide, ValidCms;
  }

  // ----- admissions -----

  /** How many arrivals of the address are let through. */
  ghost function Admitted(c: Config, l: Limits, h: CmsHash, a: Agent, ss: seq<Step>, ip: string): nat
    requires ValidHash(h) && ValidCms(a.limiter.cms)
    decreases |ss|
  {
    if ss == [] then 0
    else (if ss[0].Arrival? && ss[0].ip == ip && Admit(l, h, a, ip, ss[0].now).1 then 1 else 0)
         + Admitted(c, l, h, Perform(c, l, h, a, ss[0]), ss[1..], ip)
  }

  /** The agent is in NORMAL, or outside it, from the beginning to the end of the run. */
  ghost predicate Stays(normal: bool, c: Config, l: Limits, h: CmsHash, a: Agent, ss: seq<Step>)
    requires ValidHash(h) && ValidCms(a.limiter.cms)
    decreases |ss|
  {
    (a.machine.state.Normal? <==> normal) && (ss == [] || Stays(normal, c, l, h, Perform(c, l, h, a, ss[0]), ss[1..]))
  }

  function Arrivals(ss: seq<Step>, ip: string): nat {
    if ss == [] then 0 else (if ss[0].Arrival? && ss[0].ip == ip then 1 else 0) + Arrivals(ss[1..], ip)
  }

  function DecayTicks(ss: seq<Step>): nat {
    if ss == [] then 0 else (if ss[0].DecayTick? then 1 else 0) + DecayTicks(ss[1..])
  }

  lemma {:induction false} NormalStep(c: Config, l: Limits, h: CmsHash, a: Agent, s: Step)
    requires ValidHash(h) && Coupled(a) && a.machine.state.Normal? && Perform(c, l, h, a, s).machine.state.Normal?
    ensures Perform(c, l, h, a, s).limiter == a.limiter
    ensures s.Arrival? ==> Admit(l, h, a, s.ip, s.now).1
  {
    HalvedCleared();
    hide Cleared, Halved, ValidCms, Decide;
  }

  /** As long as the agent stays in NORMAL every arrival passes and the limiter does not change. */
  lemma {:induction false} NormalAdmitsAll(c: Config, l: Limits, h: CmsHash, a: Agent, ss: seq<Step>, ip: string)
    requires ValidHash(h) && Coupled(a) && Stays(true, c, l, h, a, ss)
    ensures Admitted(c, l, h, a, ss, ip) == Arrivals(ss, ip) && PerformAll(c, l, h, a, ss).limiter == a.limiter
    decreases |ss|
  {
    if ss != [] {
      var a' := Perform(c, l, h, a, ss[0]);
      assert a'.machine.state.Normal?;
      PerformCoupled(c, l, h, a, ss[0]);
      NormalStep(c, l, h, a, ss[0]);
      hide Perform, ValidCms, Admit, Coupled;
      NormalAdmitsAll(c, l, h, a', ss[1..], ip);
    }
  }

  lemma {:induction false} ActiveStep(c: Config, l: Limits, h: CmsHash, a: Agent, s: Step, ip: string, more: seq<Op>)
    requires ValidHash(h) && Coupled(a)
    requires !a.machine.state.Normal? && !Perform(c, l, h, a, s).machine.state.Normal?
    ensures var a' := Perform(c, l, h, a, s);
      var ops := LimiterOp(a.machine.state, a'.machine.state, s) + more;
      && AllowedFor(l, h, a.limiter, ops, ip) ==
         (if s.Arrival? && s.ip == ip && Admit(l, h, a, ip, s.now).1 then 1 else 0) + AllowedFor(l, h, a'.limiter, more, ip)
      && Resets(ops) == Resets(more) && Decays(ops) == (if s.DecayTick? then 1 else 0) + Decays(more)
  {
    hide Cleared, Halved, ValidCms, Refill, BumpRows, Estimate;
    var op := LimiterOp(a.machine.state, Perform(c, l, h, a, s).machine.state, s);
    if op == [] {
      assert op + more == more;
    } else {
      assert (op + more)[1..] == more;
    }
  }

  lemma {:induction false} AdmittedIsAllowed(c: Config, l: Limits, h: CmsHash, a: Agent, ss: seq<Step>, ip: string)
    requires ValidHash(h) && Coupled(a) && Stays(false, c, l, h, a, ss)
    ensures var ops := LimiterOps(c, l, h, a, ss);
      && Admitted(c, l, h, a, ss, ip) == AllowedFor(l, h, a.limiter, ops, ip)
      && Resets(ops) == 0 && Decays(ops) == DecayTicks(ss)
    decreases |ss|
  {
    if ss != [] {
      var a' := Perform(c, l, h, a, ss[0]);
      assert !a'.machine.state.Normal?;
      PerformCoupled(c, l, h, a, ss[0]);
      ActiveStep(c, l, h, a, ss[0], ip, LimiterOps(c, l, h, a', ss[1..]));
      hide Perform, ValidCms, Admit, Coupled, AllowedFor, Resets, Decays, LimiterOp;
      AdmittedIsAllowed(c, l, h, a', ss[1..], ip);
    }
  }

  /** As long as the agent stays outside NORMAL, an address gets at most L + d * ceil(L / 2) packets
      through while the counters decay d times. */
  lemma {:induction false} EpisodeBound(c: Config, l: Limits, h: CmsHash, a: Agent, ss: seq<Step>, ip: string)
    requires ValidHash(h) && Coupled(a) && Stays(false, c, l, h, a, ss) && l.perIPLimit < MAX_UINT16
    ensures Admitted(c, l, h, a, ss, ip) <= l.perIPLimit + DecayTicks(ss) * ((l.perIPLimit + 1) / 2)
  {
    hide Stays, Admitted, LimiterOps, AllowedFor;
    AdmittedIsAllowed(c, l, h, a, ss, ip);
    PerAddressBound(l, h, a.limiter, LimiterOps(c, l, h, a, ss), ip);
  }

  // ----- the objects -----

  class MitigationController {
    const limiter: RateLimiter
    var active: bool

    constructor (globalRPS: real, perIPLimit: nat, hash: CmsHash, now: real)
      requires ValidHash(hash) && perIPLimit <= MAX_UINT16
      ensures !active && limiter.Valid() && fresh(limiter) && fresh(limiter.cms)
      ensures limiter.cmsHash == hash && limiter.Cells() == Cleared()
    {
      limiter := new RateLimiter(globalRPS, perIPLimit, hash, now);
      active := false;
    }

    method UpdateState(state: AnomalyState, now: real, ghost m: Machine)
      requires limiter.Valid()
      modifies this, limiter, limiter.cms
      ensures limiter.Valid()
      ensures Agent(m, active, limiter.View()) ==
              Update(limiter.Limit(), old(Agent(m, active, limiter.View())), state, now)
    {
      match state {
        case UnderAttack => active := true;
        case Recovery => active := true;
        case Normal =>
          if active {
            limiter.Reset(now);
          }
          active := false;
      }
    }

    method ShouldAllow(ip: string, now: real, ghost m: Machine) returns (allowed: bool)
      requires limiter.Valid()
      modifies limiter, limiter.cms
      ensures limiter.Valid()
      ensures (Agent(m, active, limiter.View()), allowed) ==
              Admit(limiter.Limit(), limiter.cmsHash, old(Agent(m, active, limiter.View())), ip, now)
    {
      if !active {
        return true;
      }
      allowed := limiter.ShouldAllow(ip, now);
    }
  }

  /** The parts of an agent process that the ticker and polling loops share. */
  class AgentLoop {
    const sm: AnomalyStateMachine
    const mc: MitigationController

    ghost predicate Valid()
      reads mc.limiter, mc.limiter.cms
    {
      sm.Valid() && mc.limiter.Valid()
    }

    ghost function View(): Agent
      reads sm, mc, mc.limiter, mc.limiter.cms
    {
      Agent(sm.View(), mc.active, mc.limiter.View())
    }

    ghost function After(s: Step): Agent
      requires Valid()
      reads sm, mc, mc.limiter, mc.limiter.cms
    {
      Perform(sm.Cfg(), mc.limiter.Limit(), mc.limiter.cmsHash, View(), s)
    }

    constructor (threshold: real, globalRPS: real, perIPLimit: nat, hash: CmsHash, now: real)
      requires ValidHash(hash) && perIPLimit <= MAX_UINT16
      ensures Valid() && Coupled(View())
      ensures sm.attackConfirm == 3 && sm.recoveryConfirm == 5
    {
      sm := new AnomalyStateMachine(threshold, 3, 5);
      mc := new MitigationController(globalRPS, perIPLimit, hash, now);
    }

    /** One tick with an ensemble score. */
    method TickEnsemble(score: real, now: real)
      requires Valid()
      modifies sm, mc, mc.limiter, mc.limiter.cms
      ensures Valid() && View() == old(After(EnsembleTick(score > sm.attackThreshold, now)))
    {
      var newState := sm.Transition(score);
      mc.UpdateState(newState, now, sm.View());
    }

    /** One tick with a plain detector: an attack forces the state, calm counts as score zero. */
    method TickDetector(attack: bool, now: real)
      requires Valid()
      modifies sm, mc, mc.limiter, mc.limiter.cms
      ensures Valid() && View() == old(After(DetectorTick(attack, now)))
    {
      if attack {
        sm.ForceState(UnderAttack);
        mc.UpdateState(UnderAttack, now, sm.View());
      } else {
        var newState := sm.Transition(0.0);
        mc.UpdateState(newState, now, sm.View());
      }
    }

    /** One answer to a defence poll: it only escalates from NORMAL. */
    method PollDefense(activated: bool, now: real)
      requires Valid()
      modifies sm, mc, mc.limiter, mc.limiter.cms
      ensures Valid() && View() == old(After(Command(activated, now)))
    {
      if activated && sm.state == Normal {
        sm.ForceState(UnderAttack);
        mc.UpdateState(UnderAttack, now, sm.View());
      }
    }
  }
}
