/** The defence protocol between agents (cmd/agent/main.go, ensemble mode) and the aggregator
    (cmd/aggregator/main.go) as interleaved steps. Messages may be delayed, reordered, duplicated
    and lost. */
module Protocol {
  import opened Bits
  import opened StateMachine
  import opened Aggregation

  /** An agent with the verdicts it has seen so far. */
  datatype Node = Node(config: Config, machine: Machine, history: seq<bool>)

  datatype Message =
    | Report(node: string, state: AnomalyState, score: real)
    | Command(node: string, activated: bool)

  datatype World = World(agents: map<string, Node>, net: set<Message>, agg: Aggregate)

  datatype Step =
    | Tick(node: string, isAnomaly: bool)
    | Ship(node: string, score: real)
    | Poll(node: string)
    | Deliver(msg: Message, now: real)
    | Lose(msg: Message)
    | Correlation(now: real)
    | ResetRequest(now: real)

  /** A scored window at an agent. */
  function Ticked(n: Node, isAnomaly: bool): Node {
    Node(n.config, StateMachine.Next(n.config, n.machine, isAnomaly), n.history + [isAnomaly])
  }

  /** The answer to a poll reaches the agent; it only escalates from NORMAL. */
  function Commanded(n: Node, activated: bool): Node {
    if activated && n.machine.state.Normal? then n.(machine := Forced(UnderAttack)) else n
  }

  function Next(w: World, t: Times, s: Step): World {
    match s
    case Tick(node, isAnomaly) =>
      if node in w.agents then w.(agents := w.agents[node := Ticked(w.agents[node], isAnomaly)]) else w
    case Ship(node, score) =>
      if node in w.agents then w.(net := w.net + {Report(node, w.agents[node].machine.state, score)}) else w
    case Poll(node) => w.(net := w.net + {Command(node, w.agg.activated)})
    case Deliver(msg, now) =>
      if msg !in w.net then w
      else if msg.Report? then w.(agg := Record(w.agg, msg.node, NodeReport(msg.state, msg.score, now)))
      else if msg.node in w.agents
      then w.(agents := w.agents[msg.node := Commanded(w.agents[msg.node], msg.activated)])
      else w
    case Lose(msg) => w.(net := w.net - {msg})
    case Correlation(now) => w.(agg := Correlate(w.agg, t, now))
    case ResetRequest(now) => w.(agg := Restart(w.agg, now))
  }

  ghost predicate Start(w: World) {
    && (forall n | n in w.agents :: ValidConfig(w.agents[n].config) && w.agents[n].machine == Fresh && w.agents[n].history == [])
    && w.net == {} && w.agg == Initial
  }

  predicate AllAnomalous(h: seq<bool>, i: nat, n: nat) {
    i + n <= |h| && forall j | i <= j < i + n :: h[j]
  }

  /** The agent has seen its full number of confirming anomalous scores in a row at some time. */
  ghost predicate Confirmed(n: Node) {
    exists i: nat :: AllAnomalous(n.history, i, n.config.attackConfirm)
  }

  /** An agent no alarm has touched: NORMAL, and counting the anomalous scores in a row. */
  ghost predicate Calm(n: Node) {
    && ValidConfig(n.config)
    && n.machine == Machine(Normal, Suffix(n.history, true), 0)
  }

  ghost predicate Harmless(m: Message) {
    match m
    case Report(_, state, _) => state.Normal?
    case Command(_, activated) => !activated
  }

  /** No trace of an alarm anywhere: not at an agent, not in a message in flight, not in the node
      table, and not in the defence state. */
  ghost predicate Quiet(w: World) {
    && (forall n | n in w.agents :: Calm(w.agents[n]))
    && (forall m | m in w.net :: Harmless(m))
    && (forall n | n in w.agg.nodes :: w.agg.nodes[n].state.Normal?)
    && !w.agg.activated
  }

  ghost predicate SomeoneConfirmed(w: World) {
    exists n :: n in w.agents && Confirmed(w.agents[n])
  }

  lemma {:induction false} CalmTick(n: Node, isAnomaly: bool)
    requires Calm(n)
    ensures Calm(Ticked(n, isAnomaly)) || Confirmed(Ticked(n, isAnomaly))
  {
    var n' := Ticked(n, isAnomaly);
    var h := n'.history;
    assert h[..|h| - 1] == n.history;
    if !Calm(n') {
      assert Suffix(h, true) >= n.config.attackConfirm;
      assert AllAnomalous(h, |h| - n.config.attackConfirm, n.config.attackConfirm);
    }
  }

  lemma {:induction false} StaysConfirmed(n: Node, isAnomaly: bool, activated: bool)
    requires Confirmed(n)
    ensures Confirmed(Ticked(n, isAnomaly)) && Confirmed(Commanded(n, activated))
  {
    var i: nat :| AllAnomalous(n.history, i, n.config.attackConfirm);
    assert AllAnomalous(n.history + [isAnomaly], i, n.config.attackConfirm);
    assert AllAnomalous(Commanded(n, activated).history, i, n.config.attackConfirm);
  }

  lemma {:induction false} ConfirmedStep(w: World, t: Times, s: Step)
    requires SomeoneConfirmed(w)
    ensures SomeoneConfirmed(Next(w, t, s))
  {
    var n :| n in w.agents && Confirmed(w.agents[n]);
    StaysConfirmed(w.agents[n], s.Tick? && s.isAnomaly, s.Deliver? && s.msg.Command? && s.msg.activated);
    hide Confirmed, Ticked, Commanded;
    assert n in Next(w, t, s).agents && Confirmed(Next(w, t, s).agents[n]);
  }

  lemma {:induction false} QuietStep(w: World, t: Times, s: Step)
    requires Quiet(w)
    ensures Quiet(Next(w, t, s)) || SomeoneConfirmed(Next(w, t, s))
  {
    var w' := Next(w, t, s);
    if s.Tick? && s.node in w.agents {
      CalmTick(w.agents[s.node], s.isAnomaly);
      hide Calm, Confirmed, Ticked;
      if Confirmed(w'.agents[s.node]) {
        assert SomeoneConfirmed(w');
      }
    } else if s.Correlation? {
      QuietVote(w.agg, t, s.now);
      hide Calm, Correlate;
    } else {
      hide SomeoneConfirmed;
    }
  }

  lemma {:induction false} QuietVote(a: Aggregate, t: Times, now: real)
    requires forall n | n in a.nodes :: a.nodes[n].state.Normal?
    ensures var a' := Correlate(a, t, now);
            !a'.activated && forall n | n in a'.nodes :: a'.nodes[n].state.Normal?
  {
    assert Attacked(Correlate(a, t, now).nodes) == {};
  }

  ghost function Run(w: World, t: Times, ss: seq<Step>): World {
    if ss == [] then w else Next(Run(w, t, ss[..|ss| - 1]), t, ss[|ss| - 1])
  }

  /** Every defence activation is causally grounded: in any interleaving, as long as no agent has
      yet seen its attackConfirm anomalous scores in a row, there is no trace of an alarm. */
  lemma {:induction false} Grounded(w: World, t: Times, ss: seq<Step>)
    requires Start(w)
    ensures Quiet(Run(w, t, ss)) || SomeoneConfirmed(Run(w, t, ss))
  {
    if ss != [] {
      var v, s := Run(w, t, ss[..|ss| - 1]), ss[|ss| - 1];
      Grounded(w, t, ss[..|ss| - 1]);
      if SomeoneConfirmed(v) {
        ConfirmedStep(v, t, s);
      } else {
        QuietStep(v, t, s);
      }
    }
  }

  // ----- up to the first activation, every alarm is backed by its own agent -----

  ghost predicate ConfirmedAt(w: World, node: string) {
    node in w.agents && Confirmed(w.agents[node])
  }

  ghost predicate Vouched(w: World, m: Message) {
    match m
    case Report(node, state, _) => state.Normal? || ConfirmedAt(w, node)
    case Command(_, activated) => !activated
  }

  /** Every agent is untouched or has itself been confirmed; every report of another state than
      NORMAL, in flight or in the table, is by a confirmed agent; no command is active. */
  ghost predicate Backed(w: World) {
    && (forall n | n in w.agents :: Calm(w.agents[n]) || Confirmed(w.agents[n]))
    && (forall m | m in w.net :: Vouched(w, m))
    && (forall n | n in w.agg.nodes :: w.agg.nodes[n].state.Normal? || ConfirmedAt(w, n))
    && !w.agg.activated
  }

  lemma {:induction false} ConfirmedAtStep(w: World, t: Times, s: Step, node: string)
    requires ConfirmedAt(w, node)
    ensures ConfirmedAt(Next(w, t, s), node)
  {
    StaysConfirmed(w.agents[node], s.Tick? && s.isAnomaly, s.Deliver? && s.msg.Command? && s.msg.activated);
    hide Confirmed, Ticked, Commanded, Correlate, Record;
  }

  lemma {:induction false} AgentStep(w: World, t: Times, s: Step, node: string)
    requires Backed(w) && node in w.agents
    ensures node in Next(w, t, s).agents
    ensures Calm(Next(w, t, s).agents[node]) || Confirmed(Next(w, t, s).agents[node])
  {
    if Confirmed(w.agents[node]) {
      assert ConfirmedAt(w, node);
      ConfirmedAtStep(w, t, s, node);
    } else if s.Tick? && s.node == node {
      CalmTick(w.agents[node], s.isAnomaly);
      hide Confirmed, Calm, Ticked;
    } else {
      hide Confirmed, Calm, Ticked, Correlate, Record;
      assert s.Deliver? && s.msg in w.net ==> Vouched(w, s.msg);
    }
  }

  lemma {:induction false} BackedStep(w: World, t: Times, s: Step)
    requires Backed(w) && !Next(w, t, s).agg.activated
    ensures Backed(Next(w, t, s))
  {
    var w' := Next(w, t, s);
    forall node | ConfirmedAt(w, node) ensures ConfirmedAt(w', node) {
      ConfirmedAtStep(w, t, s, node);
    }
    forall n | n in w'.agents ensures Calm(w'.agents[n]) || Confirmed(w'.agents[n]) {
      AgentStep(w, t, s, n);
    }
    assert s.Ship? && s.node in w.agents ==>
      w.agents[s.node].machine.state.Normal? || ConfirmedAt(w, s.node);
    hide ConfirmedAt, Calm, Confirmed, Ticked, Commanded;
  }

  ghost predicate NeverActivated(w: World, t: Times, ss: seq<Step>) {
    !Run(w, t, ss).agg.activated && (ss == [] || NeverActivated(w, t, ss[..|ss| - 1]))
  }

  /** In any interleaving and until defence is first activated: an agent away from NORMAL has itself
      seen its attackConfirm anomalous scores in a row, and so has the agent named by any other
      report than NORMAL that is on its way or in the table. */
  lemma {:induction false} BackedUntilActivation(w: World, t: Times, ss: seq<Step>)
    requires Start(w) && NeverActivated(w, t, ss)
    ensures Backed(Run(w, t, ss))
  {
    hide Backed, Next;
    if ss != [] {
      BackedUntilActivation(w, t, ss[..|ss| - 1]);
      BackedStep(Run(w, t, ss[..|ss| - 1]), t, ss[|ss| - 1]);
    } else {
      StartBacked(w);
    }
  }

  lemma {:induction false} StartBacked(w: World)
    requires Start(w)
    ensures Backed(w)
  {}

  /** The nodes of a table that are agents with a confirmed attack of their own. */
  ghost function ConfirmedIn(w: World, nodes: Table): set<string> {
    set n | n in nodes && ConfirmedAt(w, n)
  }

  /** Only a correlation activates defence, and the first time it does, at least half of a non-empty
      table of fresh reports comes from agents that have each been confirmed on their own scores. */
  lemma {:induction false} FirstActivation(w: World, t: Times, ss: seq<Step>, s: Step)
    requires Start(w) && NeverActivated(w, t, ss) && Run(w, t, ss + [s]).agg.activated
    ensures s.Correlation?
    ensures var v := Run(w, t, ss + [s]);
      v.agg.nodes != map[] && 2 * |ConfirmedIn(v, v.agg.nodes)| >= |v.agg.nodes|
  {
    var before, v := Run(w, t, ss), Run(w, t, ss + [s]);
    assert (ss + [s])[..|ss|] == ss && (ss + [s])[|ss|] == s;
    BackedUntilActivation(w, t, ss);
    FirstActivatingStep(before, t, s);
  }

  lemma {:induction false} FirstActivatingStep(w: World, t: Times, s: Step)
    requires Backed(w) && Next(w, t, s).agg.activated
    ensures s.Correlation?
    ensures var v := Next(w, t, s);
      v.agg.nodes != map[] && 2 * |ConfirmedIn(v, v.agg.nodes)| >= |v.agg.nodes|
  {
    hide ConfirmedAt, Calm, Confirmed, Vouched, Ticked, Commanded;
    var v := Next(w, t, s);
    var nodes := v.agg.nodes;
    assert v.agents == w.agents && nodes == FreshNodes(w.agg.nodes, t, s.now);
    HalfMeansTwice(|Attacked(nodes)|, |nodes|);
    forall n | n in Attacked(nodes) ensures n in ConfirmedIn(v, nodes) {
      ConfirmedAtStep(w, t, s, n);
    }
    SubsetSize(Attacked(nodes), ConfirmedIn(v, nodes));
  }

  // ----- an alarm does get through -----

  lemma {:induction false} TwoSteps(w: World, t: Times, s: Step, s': Step)
    ensures Run(w, t, [s, s']) == Next(Next(w, t, s), t, s')
  {
    assert [s, s'][..1] == [s] && [s][..0] == [];
    hide Next;
    assert Run(w, t, [s]) == Next(w, t, s);
  }

  /** A report that is shipped and delivered is what the table then holds for that node, and no other
      entry changes. */
  lemma {:induction false} ReportArrives(w: World, t: Times, node: string, score: real, now: real)
    requires node in w.agents && node != ""
    ensures var state := w.agents[node].machine.state;
      var w' := Run(w, t, [Ship(node, score), Deliver(Report(node, state, score), now)]);
      && w'.agents == w.agents
      && w'.agg == w.agg.(nodes := w.agg.nodes[node := NodeReport(state, score, now)])
  {
    var report := Report(node, w.agents[node].machine.state, score);
    TwoSteps(w, t, Ship(node, score), Deliver(report, now));
    assert report in Next(w, t, Ship(node, score)).net;
  }

  /** A polled and delivered answer forces an agent in NORMAL to UNDER_ATTACK exactly when defence is
      active, and touches no other agent. */
  lemma {:induction false} CommandArrives(w: World, t: Times, node: string, now: real)
    requires node in w.agents
    ensures var w' := Run(w, t, [Poll(node), Deliver(Command(node, w.agg.activated), now)]);
      && w'.agg == w.agg && w'.agents.Keys == w.agents.Keys
      && (forall n | n in w.agents && n != node :: w'.agents[n] == w.agents[n])
      && w'.agents[node].machine ==
         if w.agg.activated && w.agents[node].machine.state == Normal then Machine(UnderAttack, 0, 0)
         else w.agents[node].machine
  {
    TwoSteps(w, t, Poll(node), Deliver(Command(node, w.agg.activated), now));
    assert Command(node, w.agg.activated) in Next(w, t, Poll(node)).net;
  }

  /** When the report of an attacked agent makes half of the fresh table attacked and no grace period
      is running, the next correlation turns defence on. */
  lemma {:induction false} AlarmActivates(w: World, t: Times, node: string, score: real, now: real)
    requires node in w.agents && node != "" && w.agents[node].machine.state == UnderAttack && t.staleTimeout >= 0.0
    requires w.agg.resetAt.Some? ==> now - w.agg.resetAt.value >= t.graceAfterReset
    requires var others := map n | n in w.agg.nodes && n != node && now - w.agg.nodes[n].lastSeen <= t.staleTimeout :: w.agg.nodes[n];
      2 * (|set n | n in others && others[n].state == UnderAttack| + 1) >= |others| + 1
    ensures var v := Run(w, t, [Ship(node, score), Deliver(Report(node, UnderAttack, score), now)]);
      Next(v, t, Step.Correlation(now)).agg.activated
  {
    ReportArrives(w, t, node, score, now);
    var v := Run(w, t, [Ship(node, score), Deliver(Report(node, UnderAttack, score), now)]);
    var nodes := Correlate(v.agg, t, now).nodes;
    var others := map n | n in w.agg.nodes && n != node && now - w.agg.nodes[n].lastSeen <= t.staleTimeout :: w.agg.nodes[n];
    CorrelateMeans(v.agg, t, now);
    assert nodes == others[node := NodeReport(UnderAttack, score, now)];
    hide *;
    OneMoreAttacked(others, node, NodeReport(UnderAttack, score, now));
  }

  lemma {:induction false} OneMoreAttacked(others: Table, node: string, r: NodeReport)
    requires node !in others && r.state == UnderAttack
    ensures var nodes := others[node := r];
      && nodes != map[] && |nodes| == |others| + 1
      && |set n | n in nodes && nodes[n].state == UnderAttack| == |set n | n in others && others[n].state == UnderAttack| + 1
  {
    var nodes := others[node := r];
    assert nodes.Keys == others.Keys + {node};
    assert (set n | n in nodes && nodes[n].state == UnderAttack)
        == (set n | n in others && others[n].state == UnderAttack) + {node};
  }
}
