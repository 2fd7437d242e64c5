/** The aggregator process of cmd/aggregator/main.go as an object. Each handler is one step; the
    time it reads is a parameter. */
module AggregatorServer {
  import opened Codec
  import opened Counters
  import opened SparseWords
  import opened StateMachine
  import opened Aggregation
  import opened Hllpp
  import Sketches
  import Windows

  /** What one MergeSketch makes of the global sketch: both operands are counted, hence flushed,
      before the merge and the result once more after it. */
  ghost function Absorb(g: Sketches.Sketch, incoming: Sketches.Sketch, p: nat): Sketches.Sketch
    requires Precision(p) && Sketches.Good(g, p) && Sketches.Good(incoming, p)
  {
    Sketches.FlushMeans(g, p);
    Sketches.FlushMeans(incoming, p);
    Sketches.Flush(Sketches.Merge(Sketches.Flush(g), Sketches.Flush(incoming), p))
  }

  /** The global sketch stands for the union of what it stood for and what the report stands for. */
  lemma {:induction false} AbsorbFaithful(g: Sketches.Sketch, xs: set<Hash>, incoming: Sketches.Sketch, ys: set<Hash>, p: nat)
    requires Precision(p) && Sketches.Faithful(g, xs, p) && Sketches.Faithful(incoming, ys, p)
    ensures Sketches.Faithful(Absorb(g, incoming, p), xs + ys, p)
  {
    var f, i := Sketches.Flush(g), Sketches.Flush(incoming);
    Sketches.FlushFaithful(g, xs, p);
    Sketches.FlushFaithful(incoming, ys, p);
    Sketches.MergeFaithful(f, xs, i, ys, p);
    Sketches.FlushFaithful(Sketches.Merge(f, i, p), xs + ys, p);
  }

  lemma {:induction false} AbsorbGood(g: Sketches.Sketch, incoming: Sketches.Sketch, p: nat)
    requires Precision(p) && Sketches.Good(g, p) && Sketches.Good(incoming, p)
    ensures Sketches.Good(Absorb(g, incoming, p), p)
  {
    hide Sketches.Good, Sketches.Merge, Sketches.Flush;
    Sketches.FlushMeans(g, p);
    Sketches.FlushMeans(incoming, p);
    Sketches.MergeMeans(Sketches.Flush(g), Sketches.Flush(incoming), p);
    Sketches.FlushMeans(Sketches.Merge(Sketches.Flush(g), Sketches.Flush(incoming), p), p);
  }

  // ----- runs of the global sketch -----

  /** What reaches the global sketch: a message that is meant to stand for some hashes, a detection
      tick, or a reset request. */
  datatype Traffic = Shipped(wire: Wire, hashes: set<Hash>) | Detection | ResetRequested

  ghost function GlobalNext(g: Sketches.Sketch, e: Traffic, p: nat): (g': Sketches.Sketch)
    requires Precision(p) && Sketches.Good(g, p) && (e.Shipped? ==> Trusted(e.wire, p))
    ensures Sketches.Good(g', p)
  {
    match e
    case Shipped(wire, _) =>
      if Importable(wire, p) then
        AbsorbGood(g, Imported(wire, p), p);
        Absorb(g, Imported(wire, p), p)
      else g
    case Detection =>
      Sketches.ResetMeans(Sketches.Flush(g), p);
      Sketches.Reset(Sketches.Flush(g), p)
    case ResetRequested =>
      Sketches.EmptyMeans(p);
      Sketches.Empty
  }

  /** A shipped message that can be decoded stands for the hashes it is meant to. */
  ghost predicate Honest(e: Traffic, p: nat)
    requires Precision(p)
  {
    e.Shipped? ==> Trusted(e.wire, p) && (Importable(e.wire, p) ==> Sketches.Faithful(Imported(e.wire, p), e.hashes, p))
  }

  ghost function Global(es: seq<Traffic>, p: nat): (g: Sketches.Sketch)
    requires Precision(p) && forall e | e in es :: Honest(e, p)
    ensures Sketches.Good(g, p)
  {
    if es == [] then
      Sketches.EmptyMeans(p);
      Sketches.Empty
    else
      assert Honest(es[|es| - 1], p);
      GlobalNext(Global(es[..|es| - 1], p), es[|es| - 1], p)
  }

  /** The hashes of all messages decoded since the sketch was last cleared. */
  ghost function Collected(es: seq<Traffic>, p: nat): set<Hash> {
    if es == [] then {}
    else match es[|es| - 1]
         case Shipped(wire, hashes) => Collected(es[..|es| - 1], p) + if Importable(wire, p) then hashes else {}
         case Detection => {}
         case ResetRequested => {}
  }

  lemma {:induction false} GlobalStep(g: Sketches.Sketch, xs: set<Hash>, e: Traffic, p: nat)
    requires Precision(p) && Sketches.Faithful(g, xs, p) && Honest(e, p)
    ensures Sketches.Faithful(GlobalNext(g, e, p),
      match e
      case Shipped(wire, hashes) => xs + if Importable(wire, p) then hashes else {}
      case Detection => {}
      case ResetRequested => {}, p)
  {
    hide Absorb, Importable, Imported, Trusted, Sketches.Good, Sketches.Regs, Sketches.Compact, Sketches.Flush;
    match e
    case Shipped(wire, hashes) =>
      if Importable(wire, p) {
        AbsorbFaithful(g, xs, Imported(wire, p), hashes, p);
      } else {
        assert xs + {} == xs;
      }
    case Detection => Sketches.ResetFaithful(Sketches.Flush(g), p);
    case ResetRequested => Sketches.ResetFaithful(Sketches.Empty, p);
  }

  /** Over any run of deliveries, detection ticks and resets the global sketch stands for exactly the
      hashes received since it was last cleared; messages may repeat and come in any order. */
  lemma {:induction false} GlobalFaithful(es: seq<Traffic>, p: nat)
    requires Precision(p) && forall e | e in es :: Honest(e, p)
    ensures Sketches.Faithful(Global(es, p), Collected(es, p), p)
  {
    hide Honest, GlobalNext, Sketches.Faithful;
    if es == [] {
      Sketches.ResetFaithful(Sketches.Empty, p);
    } else {
      GlobalFaithful(es[..|es| - 1], p);
      GlobalStep(Global(es[..|es| - 1], p), Collected(es[..|es| - 1], p), es[|es| - 1], p);
    }
  }

  /** A message without new hashes, such as one delivered again, leaves every register of the global
      sketch as it is. */
  lemma {:induction false} RedeliveryIdle(es: seq<Traffic>, e: Traffic, p: nat)
    requires Precision(p) && (forall f | f in es :: Honest(f, p)) && Honest(e, p)
    requires e.Shipped? && e.hashes <= Collected(es, p)
    ensures forall f | f in es + [e] :: Honest(f, p)
    ensures Sketches.Regs(Global(es + [e], p), p) == Sketches.Regs(Global(es, p), p)
  {
    GlobalFaithful(es, p);
    GlobalFaithful(es + [e], p);
    assert (es + [e])[..|es|] == es && (es + [e])[|es|] == e;
    assert Collected(es, p) + {} == Collected(es, p) == Collected(es, p) + e.hashes;
  }

  /** An agent's shipment of its last completed window, after any run of the agent, is honest. */
  lemma {:induction false} ShipmentHonest(es: seq<Windows.Event>, wire: Wire, p: nat)
    requires Precision(p) && Exports(wire, Sketches.Flush(Windows.Run(es, p).previous), p)
    ensures Importable(wire, p) && Honest(Shipped(wire, Windows.HashesIn(Windows.CompletedWindow(es))), p)
  {
    var previous, ys := Windows.Run(es, p).previous, Windows.HashesIn(Windows.CompletedWindow(es));
    Windows.RunReflects(es, p);
    Sketches.FlushFaithful(previous, ys, p);
    ImportUndoesExport(wire, Sketches.Flush(previous), p);
  }

  /** End to end: absorbing what an agent ships of its last completed window adds exactly the hashes
      of that window to the global sketch. */
  lemma {:induction false} ShippedWindowAbsorbed(g: Sketches.Sketch, xs: set<Hash>, es: seq<Windows.Event>, wire: Wire, p: nat)
    requires Precision(p) && Sketches.Faithful(g, xs, p)
    requires Exports(wire, Sketches.Flush(Windows.Run(es, p).previous), p)
    ensures Importable(wire, p) && Trusted(wire, p)
    ensures Sketches.Faithful(Absorb(g, Imported(wire, p), p), xs + Windows.HashesIn(Windows.CompletedWindow(es)), p)
  {
    ShipmentHonest(es, wire, p);
    AbsorbFaithful(g, xs, Imported(wire, p), Windows.HashesIn(Windows.CompletedWindow(es)), p);
  }

  /** `best` is the largest score in the table, zero at least. */
  ghost predicate IsMaxScore(best: real, nodes: Table) {
    && best >= 0.0
    && (forall n | n in nodes :: nodes[n].score <= best)
    && (best == 0.0 || exists n :: n in nodes && nodes[n].score == best)
  }

  /** The sketch part of MergeSketch, with the counts it logs before and after the merge. */
  method AbsorbInto(g: HllppSet, incoming: HllppSet, est: Estimators)
    requires g.Valid() && incoming.Valid() && g != incoming && g.precision == incoming.precision
    requires g.Repr !! incoming.Repr
    modifies g.Repr, incoming.Repr
    ensures g.Valid() && fresh(g.Repr - old(g.Repr))
    ensures Precision(g.precision) && g.View() == Absorb(old(g.View()), old(incoming.View()), g.precision)
  {
    CountBoth(g, incoming, est);
    hide HllppSet.Valid, HllppSet.View, Sketches.Merge, Sketches.Flush, Sketches.Good;
    MergeAndCount(g, incoming, est);
  }

  method CountBoth(g: HllppSet, incoming: HllppSet, est: Estimators)
    requires g.Valid() && incoming.Valid() && g != incoming && g.Repr !! incoming.Repr
    modifies g.Repr, incoming.Repr
    ensures g.Valid() && incoming.Valid() && g.Repr == old(g.Repr) && incoming.Repr == old(incoming.Repr)
    ensures g.View() == Sketches.Flush(old(g.View())) && incoming.View() == Sketches.Flush(old(incoming.View()))
  {
    hide HllppSet.Valid, HllppSet.View, Sketches.Flush, Sketches.Good;
    var incomingCount := incoming.GetElements(est);
    var beforeCount := g.GetElements(est);
  }

  method MergeAndCount(g: HllppSet, incoming: HllppSet, est: Estimators)
    requires g.Valid() && incoming.Valid() && g != incoming && g.precision == incoming.precision
    requires g.Repr !! incoming.Repr
    modifies g.Repr, incoming.Repr
    ensures g.Valid() && fresh(g.Repr - old(g.Repr)) && Precision(g.precision)
    ensures g.View() == Sketches.Flush(Sketches.Merge(old(g.View()), old(incoming.View()), g.precision))
  {
    assert Precision(g.precision);
    hide HllppSet.Valid, HllppSet.View, Sketches.Merge, Sketches.Flush, Sketches.Good;
    var _ := g.MergeSets(incoming);
    var afterCount := g.GetElements(est);
  }

  /** The loop that removes stale nodes. */
  method DropStale(before: Table, t: Times, now: real) returns (nodes: Table)
    ensures nodes == map n | n in before && now - before[n].lastSeen <= t.staleTimeout :: before[n]
  {
    nodes := before;
    var rest := before.Keys;
    while rest != {}
      invariant rest <= before.Keys
      invariant nodes == map n | n in before && (n in rest || now - before[n].lastSeen <= t.staleTimeout) :: before[n]
      decreases rest
    {
      var id :| id in rest;
      if now - before[id].lastSeen > t.staleTimeout {
        nodes := nodes - {id};
      }
      rest := rest - {id};
    }
  }

  /** The loop that counts nodes under attack and finds the largest score. */
  method CountAttacked(nodes: Table) returns (underAttack: nat, maxScore: real)
    ensures underAttack == |set n | n in nodes && nodes[n].state == UnderAttack| && IsMaxScore(maxScore, nodes)
  {
    AttackedMeans(nodes);
    underAttack, maxScore := 0, 0.0;
    assert Attacked(nodes) - nodes.Keys == {};
    var rest := nodes.Keys;
    while rest != {}
      invariant rest <= nodes.Keys
      invariant underAttack == |Attacked(nodes) - rest|
      invariant maxScore >= 0.0 && forall n | n in nodes && n !in rest :: nodes[n].score <= maxScore
      invariant maxScore == 0.0 || exists n :: n in nodes && nodes[n].score == maxScore
      decreases rest
    {
      var id :| id in rest;
      if nodes[id].state == UnderAttack {
        underAttack := underAttack + 1;
        assert Attacked(nodes) - (rest - {id}) == (Attacked(nodes) - rest) + {id};
      } else {
        assert Attacked(nodes) - (rest - {id}) == Attacked(nodes) - rest;
      }
      if nodes[id].score > maxScore {
        maxScore := nodes[id].score;
      }
      rest := rest - {id};
    }
    assert Attacked(nodes) - {} == Attacked(nodes);
  }

  class Server {
    const precision: nat
    const times: Times
    var globalSet: HllppSet
    var nodes: Table
    var defenseActivated: bool
    var defenseScore: real
    var defenseReason: string
    var resetAt: Option<real>

    ghost predicate Valid()
      reads this, globalSet, globalSet.Repr
    {
      this !in globalSet.Repr && globalSet.Valid() && globalSet.precision == precision
    }

    function View(): Aggregate
      reads this
    {
      Aggregate(nodes, defenseActivated, resetAt)
    }

    /** newAggregatorServer: reports are stale after two windows, the grace period is 70 seconds. */
    constructor (precision: nat, windowDur: real)
      requires Precision(precision)
      ensures Valid() && fresh(globalSet.Repr) && this.precision == precision
      ensures View() == Initial && times == Times(2.0 * windowDur, 70.0)
      ensures globalSet.View() == Sketches.Empty
    {
      this.precision := precision;
      times := Times(2.0 * windowDur, 70.0);
      globalSet := new HllppSet(precision, true);
      nodes, defenseActivated, defenseScore, defenseReason, resetAt := map[], false, 0.0, "", None;
    }

    /** Decodes and merges a shipped sketch and records the telemetry; on a bad message nothing
        changes. */
    method MergeSketch(wire: Wire, node: string, report: NodeReport, est: Estimators) returns (ok: bool)
      requires Valid() && Precision(precision) && Trusted(wire, precision)
      modifies this, globalSet.Repr
      ensures Valid() && fresh(globalSet.Repr - old(globalSet.Repr))
      ensures ok <==> Importable(wire, precision)
      ensures View() == if ok then Record(old(View()), node, report) else old(View())
      ensures globalSet.View() == if ok then Absorb(old(globalSet.View()), Imported(wire, precision), precision)
                                  else old(globalSet.View())
    {
      hide HllppSet.Valid, HllppSet.View, Sketches.Good, Absorb, Importable, Imported, Trusted;
      var incoming := HllppSet.FromSketch(wire, precision);
      if incoming == null {
        return false;
      }
      AbsorbInto(globalSet, incoming, est);
      if node != "" {
        nodes := nodes[node := report];
      }
      ok := true;
    }

    method GetDefenseCommand() returns (activated: bool, score: real, reason: string)
      ensures activated == View().activated && score == defenseScore && reason == defenseReason
    {
      return defenseActivated, defenseScore, defenseReason;
    }

    /** Clears the global sketch, the node table and the defence state and starts the grace period. */
    method HandleReset(now: real)
      requires Valid()
      modifies this
      ensures Valid() && fresh(globalSet.Repr) && globalSet.View() == Sketches.Empty
      ensures View() == Restart(old(View()), now)
      ensures defenseScore == 0.0 && defenseReason == ""
    {
      globalSet := new HllppSet(precision, true);
      nodes := map[];
      defenseActivated, defenseScore, defenseReason := false, 0.0, "";
      resetAt := Some(now);
    }

    method RunCorrelation(now: real)
      requires Valid()
      modifies this
      ensures Valid() && globalSet == old(globalSet) && unchanged(globalSet.Repr)
      ensures View() == Correlate(old(View()), times, now)
      ensures IsMaxScore(defenseScore, nodes)
      ensures defenseReason == if defenseActivated then "majority_nodes_under_attack" else ""
    {
      hide HllppSet.Valid, HllppSet.View;
      var before := nodes;
      nodes := DropStale(before, times, now);
      var total := |nodes|;
      assert nodes == FreshNodes(before, times, now);
      var underAttack, maxScore := CountAttacked(nodes);
      AttackedMeans(nodes);
      var inGrace := InGrace(resetAt, times, now);
      var activated, reason := false, "";
      if !inGrace && Majority(underAttack, total) {
        activated := true;
        reason := "majority_nodes_under_attack";
      }
      defenseActivated := activated;
      defenseScore := maxScore;
      defenseReason := reason;
    }

    /** One tick of the detection loop: count the window's global sketch, for the detector, and clear it. */
    method DetectionTick(est: Estimators) returns (count: nat)
      requires Valid()
      modifies globalSet.Repr
      ensures Valid() && View() == old(View()) && globalSet.Repr == old(globalSet.Repr)
      ensures count == Sketches.Estimate(est, Sketches.Flush(old(globalSet.View())), precision)
      ensures globalSet.View() == Sketches.Reset(Sketches.Flush(old(globalSet.View())), precision)
    {
      hide HllppSet.Valid, HllppSet.View, Sketches.Good;
      count := globalSet.GetElements(est);
      globalSet.Reset();
    }
  }
}
