/** The aggregator of cmd/aggregator/main.go: node table, majority vote and global sketch. */
module Aggregation {
  import opened StateMachine

  datatype NodeReport = NodeReport(state: AnomalyState, score: real, lastSeen: real)

  type Table = map<string, NodeReport>

  datatype Option<T> = None | Some(value: T)

  datatype Aggregate = Aggregate(nodes: Table, activated: bool, resetAt: Option<real>)

  datatype Times = Times(staleTimeout: real, graceAfterReset: real)

  const Initial := Aggregate(map[], false, None)

  /** The telemetry part of MergeSketch; anonymous nodes are not recorded. */
  function Record(a: Aggregate, node: string, r: NodeReport): Aggregate {
    if node == "" then a else a.(nodes := a.nodes[node := r])
  }

  predicate Stale(r: NodeReport, t: Times, now: real) {
    now - r.lastSeen > t.staleTimeout
  }

  function FreshNodes(nodes: Table, t: Times, now: real): Table {
    map n | n in nodes && !Stale(nodes[n], t, now) :: nodes[n]
  }

  function Attacked(nodes: Table): set<string> {
    set n | n in nodes && nodes[n].state.UnderAttack?
  }

  predicate InGrace(resetAt: Option<real>, t: Times, now: real) {
    resetAt.Some? && now - resetAt.value < t.graceAfterReset
  }

  predicate Majority(underAttack: nat, total: nat) {
    total > 0 && underAttack as real / total as real >= 0.5
  }

  function Correlate(a: Aggregate, t: Times, now: real): Aggregate {
    var nodes := FreshNodes(a.nodes, t, now);
    a.(nodes := nodes, activated := !InGrace(a.resetAt, t, now) && Majority(|Attacked(nodes)|, |nodes|))
  }

  function Restart(a: Aggregate, now: real): Aggregate {
    Aggregate(map[], false, Some(now))
  }

  // ----- runs -----

  datatype Event =
    | Received(node: string, state: AnomalyState, score: real, now: real)
    | Correlation(now: real)
    | ResetRequest(now: real)

  function Next(a: Aggregate, t: Times, e: Event): Aggregate {
    match e
    case Received(node, state, score, now) => Record(a, node, NodeReport(state, score, now))
    case Correlation(now) => Correlate(a, t, now)
    case ResetRequest(now) => Restart(a, now)
  }

  function Run(t: Times, es: seq<Event>): Aggregate {
    if es == [] then Initial else Next(Run(t, es[..|es| - 1]), t, es[|es| - 1])
  }

  /** The latest report of a named node since the last reset, read off the history. */
  function Latest(es: seq<Event>, node: string): Option<NodeReport> {
    if es == [] then None
    else
      var e := es[|es| - 1];
      if e.ResetRequest? then None
      else if e.Received? && e.node == node && node != "" then Some(NodeReport(e.state, e.score, e.now))
      else Latest(es[..|es| - 1], node)
  }

  function LastReset(es: seq<Event>): Option<real> {
    if es == [] then None
    else if es[|es| - 1].ResetRequest? then Some(es[|es| - 1].now)
    else LastReset(es[..|es| - 1])
  }

  /** The clock never runs backwards. */
  ghost predicate Monotone(es: seq<Event>) {
    forall i, j | 0 <= i < j < |es| :: es[i].now <= es[j].now
  }

  /** A table entry is the latest report; a latest report is missing only if it is stale by now. */
  ghost predicate Agrees(nodes: Table, latest: Option<NodeReport>, node: string, t: Times, now: real) {
    match latest
    case None => node !in nodes
    case Some(r) => if node in nodes then nodes[node] == r else now - r.lastSeen > t.staleTimeout
  }

  lemma {:induction false} TableAgrees(t: Times, es: seq<Event>, node: string, now: real)
    requires Monotone(es) && (es != [] ==> es[|es| - 1].now <= now)
    ensures Agrees(Run(t, es).nodes, Latest(es, node), node, t, now)
    ensures Run(t, es).resetAt == LastReset(es)
    decreases |es|
  {
    if es != [] {
      var n := |es| - 1;
      assert Monotone(es[..n]);
      TableAgrees(t, es[..n], node, es[n].now);
    }
  }

  lemma {:induction false} AttackedMeans(nodes: Table)
    ensures Attacked(nodes) == set n | n in nodes && nodes[n].state == UnderAttack
  {}

  /** What one correlation does to any aggregate: reports older than the timeout go, and defence is
      active exactly when no reset is less than the grace period ago and at least half of a non-empty
      rest is under attack. */
  lemma {:induction false} CorrelateMeans(a: Aggregate, t: Times, now: real)
    ensures var a' := Correlate(a, t, now);
      && a'.nodes == (map n | n in a.nodes && now - a.nodes[n].lastSeen <= t.staleTimeout :: a.nodes[n])
      && a'.resetAt == a.resetAt
      && (a'.activated <==>
            && (a.resetAt.Some? ==> now - a.resetAt.value >= t.graceAfterReset)
            && a'.nodes != map[]
            && 2 * |set n | n in a'.nodes && a'.nodes[n].state == UnderAttack| >= |a'.nodes|)
  {
    var nodes := Correlate(a, t, now).nodes;
    AttackedMeans(nodes);
    HalfMeansTwice(|Attacked(nodes)|, |nodes|);
  }

  lemma {:induction false} MonotoneSnoc(es: seq<Event>, e: Event)
    requires Monotone(es + [e])
    ensures Monotone(es) && (es != [] ==> es[|es| - 1].now <= e.now)
  {
    var fs := es + [e];
    forall i, j | 0 <= i < j < |es| ensures es[i].now <= es[j].now {
      assert fs[i] == es[i] && fs[j] == es[j];
    }
    if es != [] {
      assert fs[|es| - 1] == es[|es| - 1] && fs[|es|] == e;
    }
  }

  lemma {:induction false} RunSnoc(t: Times, es: seq<Event>, e: Event)
    ensures Run(t, es + [e]) == Next(Run(t, es), t, e)
  {
    assert (es + [e])[..|es|] == es;
    hide Next;
  }

  lemma {:induction false} AllAgree(t: Times, es: seq<Event>, now: real)
    requires Monotone(es) && (es != [] ==> es[|es| - 1].now <= now)
    ensures forall node: string :: Agrees(Run(t, es).nodes, Latest(es, node), node, t, now)
    ensures Run(t, es).resetAt == LastReset(es)
  {
    hide *;
    forall node: string ensures Agrees(Run(t, es).nodes, Latest(es, node), node, t, now) {
      TableAgrees(t, es, node, now);
    }
    TableAgrees(t, es, "", now);
  }

  /** After each correlation the table holds exactly the latest report since the last reset of each
      node not older than the timeout, and defence is active exactly when the grace period after a
      reset is over, there is a node, and at least half of the nodes are under attack. */
  lemma {:induction false} VoteCorrect(t: Times, es: seq<Event>, now: real)
    requires Monotone(es + [Correlation(now)])
    ensures var a := Run(t, es + [Correlation(now)]);
      && (forall node :: node in a.nodes <==>
            Latest(es, node).Some? && now - Latest(es, node).value.lastSeen <= t.staleTimeout)
      && (forall node :: node in a.nodes ==> a.nodes[node] == Latest(es, node).value)
      && (a.activated <==>
            && (LastReset(es).Some? ==> now - LastReset(es).value >= t.graceAfterReset)
            && a.nodes != map[]
            && 2 * |set n | n in a.nodes && a.nodes[n].state == UnderAttack| >= |a.nodes|)
  {
    RunSnoc(t, es, Correlation(now));
    assert Next(Run(t, es), t, Correlation(now)) == Correlate(Run(t, es), t, now);
    hide *;
    MonotoneSnoc(es, Correlation(now));
    AllAgree(t, es, now);
    CorrelateMeans(Run(t, es), t, now);
    FreshAreLatest(Run(t, es).nodes, Run(t, es + [Correlation(now)]).nodes, es, t, now);
  }

  lemma {:induction false} FreshAreLatest(nodes: Table, kept: Table, es: seq<Event>, t: Times, now: real)
    requires forall node: string :: Agrees(nodes, Latest(es, node), node, t, now)
    requires kept == map n | n in nodes && now - nodes[n].lastSeen <= t.staleTimeout :: nodes[n]
    ensures forall node :: node in kept <==>
              Latest(es, node).Some? && now - Latest(es, node).value.lastSeen <= t.staleTimeout
    ensures forall node :: node in kept ==> kept[node] == Latest(es, node).value
  {
    hide Latest;
    forall node: string
      ensures node in kept <==> Latest(es, node).Some? && now - Latest(es, node).value.lastSeen <= t.staleTimeout
      ensures node in kept ==> kept[node] == Latest(es, node).value
    {
      assert Agrees(nodes, Latest(es, node), node, t, now);
    }
  }

  lemma {:induction false} HalfMeansTwice(u: nat, n: nat)
    ensures Majority(u, n) <==> n > 0 && 2 * u >= n
  {
    if n > 0 {
      assert u as real / n as real * n as real == u as real;
    }
  }
}
