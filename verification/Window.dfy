/** The window manager of ddos/window/window.go with the traffic counters of ddos/capture/stats.go:
    two recycled sketches that swap roles at every rotation. */
module Windows {
  import opened Bits
  import opened Codec
  import opened Counters
  import opened SparseWords
  import opened SparseLists
  import opened RegisterMap
  import opened Hllpp
  import opened Sketches

  datatype Traffic = Traffic(packets: nat, bytes: nat)

  const NoTraffic := Traffic(0, 0)

  /** uint64 addition of one packet. */
  function AddPacket(t: Traffic, byteLen: nat): Traffic {
    Traffic((t.packets + 1) % TWO64, (t.bytes + byteLen) % TWO64)
  }

  datatype Event =
    | Arrive(x: Hash)
    | Packet(byteLen: nat)
    | ReadCurrent
    | ReadPrevious
    | Rotate

  datatype State = State(current: Sketch, previous: Sketch, windowId: nat, traffic: Traffic, prevTraffic: Traffic)

  ghost predicate GoodState(s: State, p: nat)
    requires Precision(p)
  {
    Good(s.current, p) && Good(s.previous, p)
  }

  const Initial := State(Empty, Empty, 0, NoTraffic, NoTraffic)

  ghost function Next(s: State, e: Event, p: nat): State
    requires Precision(p) && GoodState(s, p)
  {
    match e
    case Arrive(x) => s.(current := Insert(s.current, x, p))
    case Packet(byteLen) => s.(traffic := AddPacket(s.traffic, byteLen))
    case ReadCurrent => s.(current := Flush(s.current))
    case ReadPrevious => s.(previous := Flush(s.previous))
    case Rotate => State(Reset(s.previous, p), s.current, s.windowId + 1, NoTraffic, s.traffic)
  }

  // ----- the history a state is meant to reflect -----

  /** The events since the last rotation. */
  function LastWindow(es: seq<Event>): seq<Event> {
    if es == [] || es[|es| - 1].Rotate? then [] else LastWindow(es[..|es| - 1]) + [es[|es| - 1]]
  }

  /** The events of the last completed window, empty before the first rotation. */
  function CompletedWindow(es: seq<Event>): seq<Event> {
    if es == [] then []
    else if es[|es| - 1].Rotate? then LastWindow(es[..|es| - 1])
    else CompletedWindow(es[..|es| - 1])
  }

  function Rotations(es: seq<Event>): nat {
    if es == [] then 0 else Rotations(es[..|es| - 1]) + if es[|es| - 1].Rotate? then 1 else 0
  }

  function HashesIn(es: seq<Event>): set<Hash> {
    set i | 0 <= i < |es| && es[i].Arrive? :: es[i].x
  }

  function TrafficIn(es: seq<Event>): Traffic {
    if es == [] then NoTraffic else Counted(TrafficIn(es[..|es| - 1]), es[|es| - 1])
  }

  function Counted(t: Traffic, e: Event): Traffic {
    if e.Packet? then Traffic(t.packets + 1, t.bytes + e.byteLen) else t
  }

  function Wrapped(t: Traffic): Traffic {
    Traffic(t.packets % TWO64, t.bytes % TWO64)
  }

  ghost predicate Reflects(s: State, es: seq<Event>, p: nat)
    requires Precision(p)
  {
    && Faithful(s.current, HashesIn(LastWindow(es)), p)
    && Faithful(s.previous, HashesIn(CompletedWindow(es)), p)
    && s.windowId == Rotations(es)
    && s.traffic == Wrapped(TrafficIn(LastWindow(es)))
    && s.prevTraffic == Wrapped(TrafficIn(CompletedWindow(es)))
  }

  lemma {:induction false} Extend(es: seq<Event>, e: Event)
    ensures HashesIn(es + [e]) == if e.Arrive? then HashesIn(es) + {e.x} else HashesIn(es)
    ensures TrafficIn(es + [e]) == Counted(TrafficIn(es), e)
    ensures e != Rotate ==> LastWindow(es + [e]) == LastWindow(es) + [e] && CompletedWindow(es + [e]) == CompletedWindow(es)
    ensures e == Rotate ==> LastWindow(es + [e]) == [] && CompletedWindow(es + [e]) == LastWindow(es)
    ensures Rotations(es + [e]) == Rotations(es) + if e == Rotate then 1 else 0
  {
    var fs := es + [e];
    assert fs[..|fs| - 1] == es && fs[|fs| - 1] == e;
    forall x ensures x in HashesIn(fs) <==> x in HashesIn(es) || (e.Arrive? && x == e.x) {
      if x in HashesIn(es) {
        var i :| 0 <= i < |es| && es[i].Arrive? && es[i].x == x;
        assert fs[i].x == x;
      }
    }
  }

  lemma {:induction false} WrapPacket(t: Traffic, n: nat)
    ensures AddPacket(Wrapped(t), n) == Wrapped(Traffic(t.packets + 1, t.bytes + n))
  {
    WrapAdd(1, t.packets, TWO64);
    WrapAdd(n, t.bytes, TWO64);
  }

  lemma {:induction false} FaithfulIsGood(s: Sketch, xs: set<Hash>, p: nat)
    requires Precision(p) && Faithful(s, xs, p)
    ensures Good(s, p)
  {}

  lemma {:induction false} NextSketches(s: State, e: Event, xs: set<Hash>, ys: set<Hash>, p: nat)
    requires Precision(p) && GoodState(s, p) && Faithful(s.current, xs, p) && Faithful(s.previous, ys, p)
    ensures GoodState(Next(s, e, p), p)
    ensures Faithful(Next(s, e, p).current, if e.Arrive? then xs + {e.x} else if e.Rotate? then {} else xs, p)
    ensures Faithful(Next(s, e, p).previous, if e.Rotate? then xs else ys, p)
  {
    hide Faithful, Good, Insert, Flush, Reset;
    match e
    case Arrive(x) => InsertFaithful(s.current, xs, x, p); FaithfulIsGood(Next(s, e, p).current, xs + {x}, p);
    case Packet(_) =>
    case ReadCurrent => FlushFaithful(s.current, xs, p); FaithfulIsGood(Next(s, e, p).current, xs, p);
    case ReadPrevious => FlushFaithful(s.previous, ys, p); FaithfulIsGood(Next(s, e, p).previous, ys, p);
    case Rotate => ResetFaithful(s.previous, p); FaithfulIsGood(Next(s, e, p).current, {}, p);
  }

  /** One step keeps the state in agreement with the history, also when a recycled sketch is
      dense from two windows ago. */
  lemma {:induction false} NextReflects(s: State, es: seq<Event>, e: Event, p: nat)
    requires Precision(p) && GoodState(s, p) && Reflects(s, es, p)
    ensures GoodState(Next(s, e, p), p) && Reflects(Next(s, e, p), es + [e], p)
  {
    hide Faithful, Good, Insert, Flush, Reset, AddPacket, Wrapped, LastWindow, CompletedWindow, Rotations, HashesIn, TrafficIn;
    var last, before := LastWindow(es), CompletedWindow(es);
    Extend(es, e);
    Extend(last, e);
    NothingYet();
    NextSketches(s, e, HashesIn(last), HashesIn(before), p);
    if e.Packet? {
      WrapPacket(TrafficIn(last), e.byteLen);
    }
  }

  lemma {:induction false} NothingYet()
    ensures HashesIn([]) == {} && Wrapped(TrafficIn([])) == NoTraffic
  {}

  lemma {:induction false} NextGood(s: State, e: Event, p: nat)
    requires Precision(p) && GoodState(s, p)
    ensures GoodState(Next(s, e, p), p)
  {
    hide Good, Insert, Flush, Reset;
    match e
    case Arrive(x) => InsertMeans(s.current, x, p);
    case Packet(_) =>
    case ReadCurrent => FlushMeans(s.current, p);
    case ReadPrevious => FlushMeans(s.previous, p);
    case Rotate => ResetMeans(s.previous, p);
  }

  ghost function Run(es: seq<Event>, p: nat): (s: State)
    requires Precision(p)
    ensures GoodState(s, p)
  {
    if es == [] then
      EmptyMeans(p);
      Initial
    else
      NextGood(Run(es[..|es| - 1], p), es[|es| - 1], p);
      Next(Run(es[..|es| - 1], p), es[|es| - 1], p)
  }

  lemma {:induction false} InitialReflects(es: seq<Event>, p: nat)
    requires Precision(p) && es == []
    ensures Reflects(Initial, es, p)
  {
    NothingYet();
    ResetFaithful(Empty, p);
  }

  /** Window exactness: after any run, `previous` stands for exactly the hashes of the last
      completed window and `current` for exactly those since the last rotation. */
  lemma {:induction false} RunReflects(es: seq<Event>, p: nat)
    requires Precision(p)
    ensures Reflects(Run(es, p), es, p)
  {
    hide Faithful, Good, GoodState, Next, Wrapped, HashesIn, TrafficIn, Rotations, CompletedWindow, LastWindow;
    if es == [] {
      InitialReflects(es, p);
    } else {
      var n := |es| - 1;
      RunReflects(es[..n], p);
      NextReflects(Run(es[..n], p), es[..n], es[n], p);
      assert es == es[..n] + [es[n]];
    }
  }

  function Plus(a: Traffic, b: Traffic): Traffic {
    Traffic(a.packets + b.packets, a.bytes + b.bytes)
  }

  /** What the rotations of a run have reported, summed up. */
  ghost function Reported(es: seq<Event>, p: nat): Traffic
    requires Precision(p)
  {
    if es == [] then NoTraffic
    else
      var before, sum := Run(es[..|es| - 1], p), Reported(es[..|es| - 1], p);
      if es[|es| - 1].Rotate?
      then Plus(sum, before.traffic)
      else sum
  }

  /** Every packet and byte is attributed to exactly one window: those reported by rotations and
      those still counted add up to all that were recorded, as far as uint64 counters can tell. */
  lemma {:induction false} TrafficConserved(es: seq<Event>, p: nat)
    requires Precision(p)
    ensures Wrapped(Plus(Reported(es, p), Run(es, p).traffic)) == Wrapped(TrafficIn(es))
  {
    hide GoodState, Wrapped, Next, Counted, Plus;
    if es == [] {
      assert Plus(NoTraffic, NoTraffic) == NoTraffic by { PlusNothing(NoTraffic); }
    } else {
      var n := |es| - 1;
      TrafficConserved(es[..n], p);
      ConservedStep(Reported(es[..n], p), Run(es[..n], p), TrafficIn(es[..n]), es[n], p);
    }
  }

  lemma {:induction false} PlusNothing(t: Traffic)
    ensures Plus(t, NoTraffic) == t
  {}

  lemma {:induction false} ConservedStep(r: Traffic, s: State, all: Traffic, e: Event, p: nat)
    requires Precision(p) && GoodState(s, p) && Wrapped(Plus(r, s.traffic)) == Wrapped(all)
    ensures Wrapped(Plus(if e.Rotate? then Plus(r, s.traffic) else r, Next(s, e, p).traffic)) == Wrapped(Counted(all, e))
  {
    hide GoodState, Good, Wrapped, Plus, AddPacket, Insert, Flush, Reset;
    if e.Packet? {
      PlusPacket(r, s.traffic, all, e.byteLen);
    } else if e.Rotate? {
      PlusNothing(Plus(r, s.traffic));
    }
  }

  lemma {:induction false} PlusPacket(r: Traffic, t: Traffic, all: Traffic, n: nat)
    requires Wrapped(Plus(r, t)) == Wrapped(all)
    ensures Wrapped(Plus(r, AddPacket(t, n))) == Wrapped(Traffic(all.packets + 1, all.bytes + n))
  {
    WrapAdd(r.packets, t.packets + 1, TWO64);
    WrapAdd(1, r.packets + t.packets, TWO64);
    WrapAdd(1, all.packets, TWO64);
    WrapAdd(r.bytes, t.bytes + n, TWO64);
    WrapAdd(n, r.bytes + t.bytes, TWO64);
    WrapAdd(n, all.bytes, TWO64);
  }

  /** What counting the last completed window returns after any run: a number that the hashes of that
      window determine, but for the words a sparse list may have too many. */
  lemma {:induction false} CompletedCount(est: Estimators, es: seq<Event>, p: nat)
    requires Precision(p)
    ensures GoodState(Run(es, p), p)
    ensures var s, xs := Run(es, p).previous, HashesIn(CompletedWindow(es));
      && (s.Dense? ==>
            Estimate(est, Flush(s), p) == est.dense(p, SumOf(SpecRegs(xs, p)), ZerosIn(SpecRegs(xs, p)) % TWO16))
      && (s.Sparse? && DistinctIndices(Flush(s).list) ==>
            Estimate(est, Flush(s), p) == if xs == {} then 0 else est.linear(Pow2(P_PRIME), |FreeIndices(xs)|))
  {
    RunReflects(es, p);
    hide Estimate, Flush, SumOf, ZerosIn, SpecRegs, DistinctIndices, FreeIndices, Faithful;
    EstimateMeans(est, Run(es, p).previous, HashesIn(CompletedWindow(es)), p);
  }

  // ----- the objects -----

  class TrafficStats {
    var packets: nat
    var bytes: nat

    function View(): Traffic
      reads this
    {
      Traffic(packets, bytes)
    }

    constructor ()
      ensures View() == NoTraffic
    {
      packets, bytes := 0, 0;
    }

    method RecordPacket(byteLen: nat)
      modifies this
      ensures View() == AddPacket(old(View()), byteLen)
    {
      packets := (packets + 1) % TWO64;
      bytes := (bytes + byteLen) % TWO64;
    }

    /** Returns the counters and resets them. */
    method Snapshot() returns (p: nat, b: nat)
      modifies this
      ensures Traffic(p, b) == old(View()) && View() == NoTraffic
    {
      p, packets := packets, 0;
      b, bytes := bytes, 0;
    }
  }

  class WindowManager {
    var current: HllppSet
    var previous: HllppSet
    var windowId: nat
    const stats: TrafficStats
    var prevStats: Traffic
    ghost var Repr: set<object>

    ghost predicate Valid()
      reads this, Repr
    {
      && this in Repr && stats in Repr
      && current in Repr && previous in Repr
      && current.Repr <= Repr && previous.Repr <= Repr
      && this !in current.Repr && this !in previous.Repr
      && stats !in current.Repr && stats !in previous.Repr
      && current.Repr !! previous.Repr
      && current.Valid() && previous.Valid()
      && current.precision == previous.precision
    }

    function Precision(): nat
      reads this, current
    {
      current.precision
    }

    ghost function View(): (s: State)
      requires Valid()
      reads this, Repr
      ensures SparseWords.Precision(Precision()) && GoodState(s, Precision())
    {
      State(current.View(), previous.View(), windowId, stats.View(), prevStats)
    }

    constructor (precision: nat)
      requires SparseWords.Precision(precision)
      ensures Valid() && fresh(Repr) && Precision() == precision
      ensures View() == Initial
    {
      hide HllppSet.Valid, HllppSet.View, Good;
      var c := new HllppSet(precision, true);
      var q := new HllppSet(precision, true);
      var t := new TrafficStats();
      current, previous, stats := c, q, t;
      windowId, prevStats := 0, NoTraffic;
      Repr := {this, t} + c.Repr + q.Repr;
    }

    method Insert(hash: Hash)
      requires Valid()
      modifies Repr
      ensures Valid() && fresh(Repr - old(Repr)) && Precision() == old(Precision())
      ensures View() == Next(old(View()), Arrive(hash), Precision())
    {
      hide HllppSet.Valid, HllppSet.View, Good, Sketches.Insert;
      current.Insert(hash);
      Repr := Repr + current.Repr;
    }

    /** Swaps the two sketches, clears the new current one and snapshots the traffic counters. */
    method Rotate()
      requires Valid()
      modifies Repr
      ensures Valid() && Repr == old(Repr) && Precision() == old(Precision())
      ensures View() == Next(old(View()), Event.Rotate, Precision())
    {
      hide HllppSet.Valid, HllppSet.View, Good, Sketches.Reset;
      current, previous := previous, current;
      current.Reset();
      windowId := windowId + 1;
      var p, b := stats.Snapshot();
      prevStats := Traffic(p, b);
    }

    method CurrentCount(est: Estimators) returns (count: nat)
      requires Valid()
      modifies Repr
      ensures Valid() && Repr == old(Repr) && Precision() == old(Precision())
      ensures View() == Next(old(View()), ReadCurrent, Precision())
      ensures count == Estimate(est, Flush(old(View().current)), Precision())
    {
      hide HllppSet.Valid, HllppSet.View, Good, Sketches.Flush;
      count := current.GetElements(est);
    }

    method PreviousCount(est: Estimators) returns (count: nat)
      requires Valid()
      modifies Repr
      ensures Valid() && Repr == old(Repr) && Precision() == old(Precision())
      ensures View() == Next(old(View()), ReadPrevious, Precision())
      ensures count == Estimate(est, Flush(old(View().previous)), Precision())
    {
      hide HllppSet.Valid, HllppSet.View, Good, Sketches.Flush;
      count := previous.GetElements(est);
    }

    /** Ships the last completed window. */
    method ExportPreviousSketch() returns (wire: Wire, p: nat, pPrime: nat)
      requires Valid()
      modifies Repr
      ensures Valid() && Repr == old(Repr) && Precision() == old(Precision())
      ensures View() == Next(old(View()), ReadPrevious, Precision())
      ensures Exports(wire, View().previous, Precision()) && p == Precision() && pPrime == P_PRIME
    {
      hide HllppSet.Valid, HllppSet.View, Good, Sketches.Flush;
      wire, p, pPrime := previous.ExportSketch();
    }

    method RecordPacket(byteLen: nat)
      requires Valid()
      modifies Repr
      ensures Valid() && Repr == old(Repr) && Precision() == old(Precision())
      ensures View() == Next(old(View()), Packet(byteLen), Precision())
    {
      hide HllppSet.Valid, HllppSet.View, Good;
      stats.RecordPacket(byteLen);
    }
  }
}
