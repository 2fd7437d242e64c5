/** The streaming half-space trees of ddos/detector/hst.go. The masses a tree maintains in place are
    shown to be the counts of the samples routed to each node in the current and in the last window.
    Features and split values are exact reals. */
module HalfSpaceTrees {
  import Bits

  const HST_NUM_TREES := 5
  const HST_MAX_DEPTH := 5
  const HST_DIMS := 8

  type Features = fv: seq<real> | |fv| == HST_DIMS witness [0.0, 0.0, 0.0, 0.0, 0.0, 0.0, 0.0, 0.0]

  datatype Tree =
    | Leaf(mass: nat, refMass: nat)
    | Split(dim: nat, val: real, left: Tree, right: Tree, mass: nat, refMass: nat)

  predicate WellFormed(t: Tree) {
    t.Split? ==> t.dim < HST_DIMS && WellFormed(t.left) && WellFormed(t.right)
  }

  /** insertHST */
  function Insert(t: Tree, fv: Features): (t': Tree)
    requires WellFormed(t)
    ensures WellFormed(t')
  {
    match t
    case Leaf(mass, refMass) => Leaf(mass + 1, refMass)
    case Split(dim, val, left, right, mass, refMass) =>
      if fv[dim] <= val then Split(dim, val, Insert(left, fv), right, mass + 1, refMass)
      else Split(dim, val, left, Insert(right, fv), mass + 1, refMass)
  }

  /** swapHST */
  function Swap(t: Tree): (t': Tree)
    ensures WellFormed(t) ==> WellFormed(t')
  {
    match t
    case Leaf(mass, _) => Leaf(0, mass)
    case Split(dim, val, left, right, mass, _) => Split(dim, val, Swap(left), Swap(right), 0, mass)
  }

  // ----- the simple form: masses as counts of routed samples -----

  /** The samples on one side of a split. */
  function Side(xs: seq<Features>, dim: nat, val: real, below: bool): seq<Features>
    requires dim < HST_DIMS
  {
    if xs == [] then []
    else Side(xs[..|xs| - 1], dim, val, below) +
         if (xs[|xs| - 1][dim] <= val) == below then [xs[|xs| - 1]] else []
  }

  /** The tree with the splits of `t` whose node masses count the samples that reach them. */
  function Count(t: Tree, current: seq<Features>, reference: seq<Features>): Tree
    requires WellFormed(t)
  {
    match t
    case Leaf(_, _) => Leaf(|current|, |reference|)
    case Split(dim, val, left, right, _, _) =>
      Split(dim, val,
            Count(left, Side(current, dim, val, true), Side(reference, dim, val, true)),
            Count(right, Side(current, dim, val, false), Side(reference, dim, val, false)),
            |current|, |reference|)
  }

  lemma {:induction false} SideAppend(xs: seq<Features>, x: Features, dim: nat, val: real, below: bool)
    requires dim < HST_DIMS
    ensures Side(xs + [x], dim, val, below) ==
            if (x[dim] <= val) == below then Side(xs, dim, val, below) + [x] else Side(xs, dim, val, below)
  {
    assert (xs + [x])[..|xs + [x]| - 1] == xs;
  }

  /** Inserting in place is counting one more sample. */
  lemma {:induction false} InsertCounts(t: Tree, current: seq<Features>, reference: seq<Features>, x: Features)
    requires WellFormed(t)
    ensures WellFormed(Count(t, current, reference))
    ensures Insert(Count(t, current, reference), x) == Count(t, current + [x], reference)
    decreases t
  {
    if t.Split? {
      SideAppend(current, x, t.dim, t.val, true);
      SideAppend(current, x, t.dim, t.val, false);
      InsertCounts(t.left, Side(current, t.dim, t.val, true), Side(reference, t.dim, t.val, true), x);
      InsertCounts(t.right, Side(current, t.dim, t.val, false), Side(reference, t.dim, t.val, false), x);
    }
  }

  /** Swapping in place makes the current window the reference and starts an empty one. */
  lemma {:induction false} SwapCounts(t: Tree, current: seq<Features>, reference: seq<Features>)
    requires WellFormed(t)
    ensures Swap(Count(t, current, reference)) == Count(t, [], current)
    decreases t
  {
    if t.Split? {
      SwapCounts(t.left, Side(current, t.dim, t.val, true), Side(reference, t.dim, t.val, true));
      SwapCounts(t.right, Side(current, t.dim, t.val, false), Side(reference, t.dim, t.val, false));
    }
  }

  /** Every inner node's masses are the sums over its children. */
  predicate Conserved(t: Tree) {
    t.Split? ==>
      && t.mass == t.left.mass + t.right.mass
      && t.refMass == t.left.refMass + t.right.refMass
      && Conserved(t.left) && Conserved(t.right)
  }

  lemma {:induction false} SidesPartition(xs: seq<Features>, dim: nat, val: real)
    requires dim < HST_DIMS
    ensures |xs| == |Side(xs, dim, val, true)| + |Side(xs, dim, val, false)|
  {
    if xs != [] {
      SidesPartition(xs[..|xs| - 1], dim, val);
    }
  }

  lemma {:induction false} CountsConserved(t: Tree, current: seq<Features>, reference: seq<Features>)
    requires WellFormed(t)
    ensures Conserved(Count(t, current, reference))
    ensures Count(t, current, reference).mass == |current| && Count(t, current, reference).refMass == |reference|
    decreases t
  {
    if t.Split? {
      SidesPartition(current, t.dim, t.val);
      SidesPartition(reference, t.dim, t.val);
      CountsConserved(t.left, Side(current, t.dim, t.val, true), Side(reference, t.dim, t.val, true));
      CountsConserved(t.right, Side(current, t.dim, t.val, false), Side(reference, t.dim, t.val, false));
    }
  }

  // ----- the detector over a run of samples -----

  datatype Forest = Forest(trees: seq<Tree>, samplesSeen: nat, trained: bool)

  predicate WellFormedAll(trees: seq<Tree>) {
    forall i | 0 <= i < |trees| :: WellFormed(trees[i])
  }

  function InsertAll(trees: seq<Tree>, fv: Features): (ts: seq<Tree>)
    requires WellFormedAll(trees)
    ensures WellFormedAll(ts) && |ts| == |trees|
  {
    seq(|trees|, i requires 0 <= i < |trees| => Insert(trees[i], fv))
  }

  function SwapAll(trees: seq<Tree>): seq<Tree> {
    seq(|trees|, i requires 0 <= i < |trees| => Swap(trees[i]))
  }

  function CountAll(trees: seq<Tree>, current: seq<Features>, reference: seq<Features>): seq<Tree>
    requires WellFormedAll(trees)
  {
    seq(|trees|, i requires 0 <= i < |trees| => Count(trees[i], current, reference))
  }

  function Update(f: Forest, windowSize: nat, fv: Features): (f': Forest)
    requires WellFormedAll(f.trees)
    ensures WellFormedAll(f'.trees) && |f'.trees| == |f.trees|
  {
    var seen, trees := f.samplesSeen + 1, InsertAll(f.trees, fv);
    if seen >= windowSize then Forest(SwapAll(trees), 0, true) else Forest(trees, seen, f.trained)
  }

  function Run(shapes: seq<Tree>, windowSize: nat, xs: seq<Features>): (f: Forest)
    requires WellFormedAll(shapes)
    ensures WellFormedAll(f.trees) && |f.trees| == |shapes|
  {
    if xs == [] then
      assert forall i | 0 <= i < |shapes| :: WellFormed(Count(shapes[i], [], [])) by {
        forall i | 0 <= i < |shapes| ensures WellFormed(Count(shapes[i], [], [])) {
          InsertCounts(shapes[i], [], [], [0.0, 0.0, 0.0, 0.0, 0.0, 0.0, 0.0, 0.0]);
        }
      }
      Forest(CountAll(shapes, [], []), 0, false)
    else Update(Run(shapes, windowSize, xs[..|xs| - 1]), windowSize, xs[|xs| - 1])
  }

  /** The samples of the window in progress. */
  function Current(xs: seq<Features>, windowSize: nat): seq<Features> {
    if xs == [] then []
    else
      var c := Current(xs[..|xs| - 1], windowSize) + [xs[|xs| - 1]];
      if |c| >= windowSize then [] else c
  }

  /** The samples of the last completed window. */
  function Reference(xs: seq<Features>, windowSize: nat): seq<Features> {
    if xs == [] then []
    else
      var c := Current(xs[..|xs| - 1], windowSize) + [xs[|xs| - 1]];
      if |c| >= windowSize then c else Reference(xs[..|xs| - 1], windowSize)
  }

  /** `s` ends in `t`. */
  ghost predicate EndsIn(s: seq<Features>, t: seq<Features>) {
    |t| <= |s| && s[|s| - |t|..] == t
  }

  lemma {:induction false} EndsInMore(s: seq<Features>, t: seq<Features>, x: Features)
    requires EndsIn(s, t)
    ensures EndsIn(s + [x], t + [x])
  {
    assert (s + [x])[|s| - |t|..] == s[|s| - |t|..] + [x];
  }

  lemma {:induction false} EndsInLess(s: seq<Features>, r: seq<Features>, c: seq<Features>)
    requires EndsIn(s, r + c)
    ensures EndsIn(s, c)
  {
    assert s[|s| - |c|..] == s[|s| - |r + c|..][|r|..];
  }

  lemma {:induction false} WindowLengths(xs: seq<Features>, windowSize: nat)
    requires windowSize > 0
    ensures |Current(xs, windowSize)| < windowSize
    ensures |Reference(xs, windowSize)| == if |xs| < windowSize then 0 else windowSize
    ensures |xs| < windowSize ==> |Current(xs, windowSize)| == |xs|
  {
    if xs != [] {
      WindowLengths(xs[..|xs| - 1], windowSize);
    }
  }

  /** The two windows are the most recent samples: the history ends in reference then current. */
  lemma {:induction false} WindowsAreRecent(xs: seq<Features>, windowSize: nat)
    ensures EndsIn(xs, Reference(xs, windowSize) + Current(xs, windowSize))
  {
    if xs != [] {
      var ys, x := xs[..|xs| - 1], xs[|xs| - 1];
      WindowsAreRecent(ys, windowSize);
      RecentStep(ys, x, Reference(ys, windowSize), Current(ys, windowSize));
      assert xs == ys + [x];
      hide EndsIn;
    }
  }

  lemma {:induction false} RecentStep(ys: seq<Features>, x: Features, r: seq<Features>, c: seq<Features>)
    requires EndsIn(ys, r + c)
    ensures EndsIn(ys + [x], r + (c + [x])) && EndsIn(ys + [x], (c + [x]) + [])
  {
    EndsInMore(ys, r + c, x);
    assert (r + c) + [x] == r + (c + [x]);
    EndsInLess(ys + [x], r, c + [x]);
    assert (c + [x]) + [] == c + [x];
  }

  /** The incremental masses refine the counts of the two windows over every run. */
  lemma {:induction false} RunCounts(shapes: seq<Tree>, windowSize: nat, xs: seq<Features>)
    requires WellFormedAll(shapes) && windowSize > 0
    ensures Run(shapes, windowSize, xs) ==
            Forest(CountAll(shapes, Current(xs, windowSize), Reference(xs, windowSize)),
                   |Current(xs, windowSize)|, |xs| >= windowSize)
  {
    if xs != [] {
      var ys, x := xs[..|xs| - 1], xs[|xs| - 1];
      RunCounts(shapes, windowSize, ys);
      WindowLengths(xs, windowSize);
      WindowLengths(ys, windowSize);
      var c, r := Current(ys, windowSize), Reference(ys, windowSize);
      UpdateCounts(shapes, c, r, x);
    }
  }

  lemma {:induction false} UpdateCounts(shapes: seq<Tree>, c: seq<Features>, r: seq<Features>, x: Features)
    requires WellFormedAll(shapes)
    ensures WellFormedAll(CountAll(shapes, c, r))
    ensures InsertAll(CountAll(shapes, c, r), x) == CountAll(shapes, c + [x], r)
    ensures SwapAll(CountAll(shapes, c + [x], r)) == CountAll(shapes, [], c + [x])
  {
    forall i | 0 <= i < |shapes|
      ensures WellFormed(Count(shapes[i], c, r))
      ensures Insert(Count(shapes[i], c, r), x) == Count(shapes[i], c + [x], r)
      ensures Swap(Count(shapes[i], c + [x], r)) == Count(shapes[i], [], c + [x])
    {
      InsertCounts(shapes[i], c, r, x);
      SwapCounts(shapes[i], c + [x], r);
    }
  }

  /** Mass conservation over every run: inner masses are sums over the children, each root holds
      samplesSeen < windowSize samples, and once trained each root's reference is a full window. */
  lemma {:induction false} MassConserved(shapes: seq<Tree>, windowSize: nat, xs: seq<Features>)
    requires WellFormedAll(shapes) && windowSize > 0
    ensures var f := Run(shapes, windowSize, xs);
      && f.samplesSeen < windowSize && (f.trained <==> |xs| >= windowSize)
      && forall i | 0 <= i < |f.trees| ::
           && Conserved(f.trees[i]) && f.trees[i].mass == f.samplesSeen
           && f.trees[i].refMass == if f.trained then windowSize else 0
  {
    RunCounts(shapes, windowSize, xs);
    WindowLengths(xs, windowSize);
    forall i | 0 <= i < |shapes| {
      CountsConserved(shapes[i], Current(xs, windowSize), Reference(xs, windowSize));
    }
  }

  // ----- scores -----

  function Weight(depth: nat): (w: real)
    ensures w >= 1.0
  {
    if depth == 0 then 1.0 else 2.0 * Weight(depth - 1)
  }

  lemma {:induction false} Share(a: real, b: real)
    requires 0.0 <= a <= b && b > 0.0
    ensures 0.0 <= a / b <= 1.0 && (a / b == 0.0 <==> a == 0.0) && (a / b == 1.0 <==> a == b)
  {}

  function Deviation(mass: nat, refMass: nat): (d: real)
    ensures 0.0 <= d <= 1.0
    ensures d == 0.0 <==> mass == refMass
    ensures d == 1.0 <==> mass != refMass && (mass == 0 || refMass == 0)
  {
    var ref, cur := refMass as real, mass as real;
    if ref + cur > 0.0 then
      var difference := if cur >= ref then cur - ref else ref - cur;
      Share(difference, ref + cur);
      difference / (ref + cur)
    else 0.0
  }

  lemma {:induction false} WeightedShare(w: real, d: real)
    requires w >= 0.0 && 0.0 <= d <= 1.0
    ensures 0.0 <= w * d <= w
  {}

  function NodeScore(t: Tree, depth: nat): (s: real)
    ensures 0.0 <= s <= Weight(depth)
  {
    WeightedShare(Weight(depth), Deviation(t.mass, t.refMass));
    Weight(depth) * Deviation(t.mass, t.refMass)
  }

  /** scoreHST */
  function Score(t: Tree, fv: Features, depth: nat): real
    requires WellFormed(t)
  {
    var nodeScore := NodeScore(t, depth);
    if t.Leaf? then nodeScore
    else if fv[t.dim] <= t.val then nodeScore + Score(t.left, fv, depth + 1)
    else nodeScore + Score(t.right, fv, depth + 1)
  }

  function Height(t: Tree): nat {
    if t.Leaf? then 0
    else 1 + if Height(t.left) >= Height(t.right) then Height(t.left) else Height(t.right)
  }

  lemma {:induction false} WeightMonotone(a: nat, b: nat)
    requires a <= b
    ensures Weight(a) <= Weight(b)
    decreases b
  {
    if a < b {
      WeightMonotone(a, b - 1);
    }
  }

  lemma {:induction false} ScoreBounded(t: Tree, fv: Features, depth: nat)
    requires WellFormed(t)
    ensures 0.0 <= Score(t, fv, depth) <= Weight(depth + Height(t) + 1) - Weight(depth)
    decreases t
  {
    hide NodeScore, Deviation;
    assert Weight(depth + 1) == 2.0 * Weight(depth);
    if t.Split? {
      var child := if fv[t.dim] <= t.val then t.left else t.right;
      ScoreBounded(child, fv, depth + 1);
      WeightMonotone(depth + 1 + Height(child) + 1, depth + Height(t) + 1);
    }
  }

  /** A tree of depth at most 5 scores between 0 and 63. */
  lemma {:induction false} ScoreAtMost63(t: Tree, fv: Features)
    requires WellFormed(t) && Height(t) <= HST_MAX_DEPTH
    ensures 0.0 <= Score(t, fv, 0) <= 63.0
  {
    ScoreBounded(t, fv, 0);
    WeightMonotone(Height(t) + 1, 6);
    assert Weight(3) == 8.0 && Weight(6) == 64.0;
  }

  lemma {:induction false} CountHeight(t: Tree, current: seq<Features>, reference: seq<Features>)
    requires WellFormed(t)
    ensures Height(Count(t, current, reference)) == Height(t)
    decreases t
  {
    if t.Split? {
      CountHeight(t.left, Side(current, t.dim, t.val, true), Side(reference, t.dim, t.val, true));
      CountHeight(t.right, Side(current, t.dim, t.val, false), Side(reference, t.dim, t.val, false));
    }
  }

  /** After every run of updates each tree still scores between 0 and 63. */
  lemma {:induction false} RunScoresAtMost63(shapes: seq<Tree>, windowSize: nat, xs: seq<Features>, i: nat, fv: Features)
    requires WellFormedAll(shapes) && windowSize > 0 && i < |shapes| && Height(shapes[i]) <= HST_MAX_DEPTH
    ensures 0.0 <= Score(Run(shapes, windowSize, xs).trees[i], fv, 0) <= 63.0
  {
    RunCounts(shapes, windowSize, xs);
    CountHeight(shapes[i], Current(xs, windowSize), Reference(xs, windowSize));
    ScoreAtMost63(Run(shapes, windowSize, xs).trees[i], fv);
  }

  function TotalScore(trees: seq<Tree>, fv: Features): real
    requires WellFormedAll(trees)
  {
    if trees == [] then 0.0 else TotalScore(trees[..|trees| - 1], fv) + Score(trees[|trees| - 1], fv, 0)
  }

  /** The score of the detector: the average over its trees, zero before the first full window. */
  function ForestScore(f: Forest, fv: Features): real
    requires WellFormedAll(f.trees)
  {
    if !f.trained || f.trees == [] then 0.0 else TotalScore(f.trees, fv) / |f.trees| as real
  }

  lemma {:induction false} TotalScoreBounded(trees: seq<Tree>, fv: Features)
    requires WellFormedAll(trees) && forall i | 0 <= i < |trees| :: 0.0 <= Score(trees[i], fv, 0) <= 63.0
    ensures 0.0 <= TotalScore(trees, fv) <= 63.0 * |trees| as real
  {
    if trees != [] {
      var n := |trees| - 1;
      assert forall i | 0 <= i < n :: trees[..n][i] == trees[i];
      TotalScoreBounded(trees[..n], fv);
    }
  }

  lemma {:induction false} AverageBounded(total: real, n: real)
    requires n > 0.0 && 0.0 <= total <= 63.0 * n
    ensures 0.0 <= total / n <= 63.0
  {}

  /** ... and so does the detector, whose score is zero until windowSize samples have been seen. */
  lemma {:induction false} RunForestScore(shapes: seq<Tree>, windowSize: nat, xs: seq<Features>, fv: Features)
    requires WellFormedAll(shapes) && windowSize > 0
    requires forall i | 0 <= i < |shapes| :: Height(shapes[i]) <= HST_MAX_DEPTH
    ensures 0.0 <= ForestScore(Run(shapes, windowSize, xs), fv) <= 63.0
    ensures |xs| < windowSize ==> ForestScore(Run(shapes, windowSize, xs), fv) == 0.0
  {
    var f := Run(shapes, windowSize, xs);
    RunCounts(shapes, windowSize, xs);
    if f.trees != [] {
      forall i | 0 <= i < |f.trees| ensures 0.0 <= Score(f.trees[i], fv, 0) <= 63.0 {
        RunScoresAtMost63(shapes, windowSize, xs, i, fv);
      }
      TotalScoreBounded(f.trees, fv);
      AverageBounded(TotalScore(f.trees, fv), |f.trees| as real);
    }
  }

  // ----- what a score compares -----

  datatype Cut = Cut(dim: nat, val: real)

  predicate Cuts(cuts: seq<Cut>) {
    forall i | 0 <= i < |cuts| :: cuts[i].dim < HST_DIMS
  }

  /** The splits a sample meets in a tree, from the root down. */
  function Path(t: Tree, fv: Features): (cuts: seq<Cut>)
    requires WellFormed(t)
    ensures Cuts(cuts)
  {
    if t.Leaf? then [] else [Cut(t.dim, t.val)] + Path(if fv[t.dim] <= t.val then t.left else t.right, fv)
  }

  /** Whether two samples lie on the same side of each of the splits. */
  predicate Together(x: Features, fv: Features, cuts: seq<Cut>)
    requires Cuts(cuts)
  {
    forall i | 0 <= i < |cuts| :: x[cuts[i].dim] <= cuts[i].val <==> fv[cuts[i].dim] <= cuts[i].val
  }

  /** The samples that no split tells apart from `fv`. */
  function Cell(xs: seq<Features>, fv: Features, cuts: seq<Cut>): seq<Features>
    requires Cuts(cuts)
  {
    if xs == [] then []
    else Cell(xs[..|xs| - 1], fv, cuts) + if Together(xs[|xs| - 1], fv, cuts) then [xs[|xs| - 1]] else []
  }

  /** 2^k times the relative deviation of two counts. */
  function LevelScore(k: nat, c: nat, r: nat): real {
    if c + r == 0 then 0.0
    else Bits.Pow2(k) as real * ((if c >= r then c - r else r - c) as real / (c + r) as real)
  }

  /** The sum over the levels from k on: on level k two windows are compared by how many of their
      samples the first k splits do not tell apart from `fv`. */
  function CellScore(current: seq<Features>, reference: seq<Features>, fv: Features, cuts: seq<Cut>, k: nat): real
    requires Cuts(cuts)
    decreases |cuts| - k
  {
    if k > |cuts| then 0.0
    else LevelScore(k, |Cell(current, fv, cuts[..k])|, |Cell(reference, fv, cuts[..k])|)
         + CellScore(current, reference, fv, cuts, k + 1)
  }

  lemma {:induction false} WeightIsPow2(k: nat)
    ensures Weight(k) == Bits.Pow2(k) as real
  {
    if k != 0 {
      WeightIsPow2(k - 1);
    }
  }

  lemma {:induction false} NodeScoreIsLevel(t: Tree, k: nat)
    ensures NodeScore(t, k) == LevelScore(k, t.mass, t.refMass)
  {
    WeightIsPow2(k);
    hide Weight, Bits.Pow2;
  }

  lemma {:induction false} CellAll(xs: seq<Features>, fv: Features)
    ensures Cell(xs, fv, []) == xs
  {
    if xs != [] {
      CellAll(xs[..|xs| - 1], fv);
      assert xs == xs[..|xs| - 1] + [xs[|xs| - 1]];
    }
  }

  lemma {:induction false} TogetherSnoc(x: Features, fv: Features, cuts: seq<Cut>, cut: Cut)
    requires Cuts(cuts) && cut.dim < HST_DIMS
    ensures Cuts(cuts + [cut])
    ensures Together(x, fv, cuts + [cut]) <==>
              Together(x, fv, cuts) && (x[cut.dim] <= cut.val <==> fv[cut.dim] <= cut.val)
  {
    var more := cuts + [cut];
    if Together(x, fv, more) {
      assert more[|cuts|] == cut;
      forall i | 0 <= i < |cuts| ensures x[cuts[i].dim] <= cuts[i].val <==> fv[cuts[i].dim] <= cuts[i].val {
        assert more[i] == cuts[i];
      }
    }
  }

  /** One more split keeps the samples on the side of `fv`. */
  lemma {:induction false} CellSnoc(xs: seq<Features>, fv: Features, cuts: seq<Cut>, cut: Cut)
    requires Cuts(cuts) && cut.dim < HST_DIMS
    ensures Cuts(cuts + [cut])
    ensures Side(Cell(xs, fv, cuts), cut.dim, cut.val, fv[cut.dim] <= cut.val) == Cell(xs, fv, cuts + [cut])
  {
    TogetherSnoc(fv, fv, cuts, cut);
    hide Together, Cuts;
    if xs != [] {
      var rest, x := xs[..|xs| - 1], xs[|xs| - 1];
      var c := Cell(rest, fv, cuts);
      CellSnoc(rest, fv, cuts, cut);
      TogetherSnoc(x, fv, cuts, cut);
      SideAppend(c, x, cut.dim, cut.val, fv[cut.dim] <= cut.val);
      assert Cell(xs, fv, cuts) == if Together(x, fv, cuts) then c + [x] else c;
    }
  }

  lemma {:induction false} PathStep(above: seq<Cut>, cut: Cut, below: seq<Cut>)
    ensures (above + [cut]) + below == above + ([cut] + below)
    ensures (above + ([cut] + below))[..|above|] == above
    ensures (above + ([cut] + below))[..|above| + 1] == above + [cut]
  {}

  lemma {:induction false} ScoreBelow(t: Tree, current: seq<Features>, reference: seq<Features>, fv: Features, above: seq<Cut>)
    requires WellFormed(t) && Cuts(above)
    ensures WellFormed(Count(t, Cell(current, fv, above), Cell(reference, fv, above)))
    ensures Cuts(above + Path(t, fv))
    ensures Score(Count(t, Cell(current, fv, above), Cell(reference, fv, above)), fv, |above|)
         == CellScore(current, reference, fv, above + Path(t, fv), |above|)
    decreases t
  {
    var c, r := Cell(current, fv, above), Cell(reference, fv, above);
    InsertCounts(t, c, r, fv);
    NodeScoreIsLevel(Count(t, c, r), |above|);
    if t.Leaf? {
      assert above + [] == above && above[..|above|] == above;
      hide NodeScore, LevelScore, Cell;
    } else {
      var cut := Cut(t.dim, t.val);
      var child := if fv[t.dim] <= t.val then t.left else t.right;
      CellSnoc(current, fv, above, cut);
      CellSnoc(reference, fv, above, cut);
      PathStep(above, cut, Path(child, fv));
      ScoreBelow(child, current, reference, fv, above + [cut]);
      hide NodeScore, LevelScore, Cell, Side, Cuts;
    }
  }

  /** A score compares, level by level, how many samples of the two windows share the cell of the
      scored sample. */
  lemma {:induction false} ScoreIsCellScore(t: Tree, current: seq<Features>, reference: seq<Features>, fv: Features)
    requires WellFormed(t)
    ensures WellFormed(Count(t, current, reference))
    ensures Score(Count(t, current, reference), fv, 0) == CellScore(current, reference, fv, Path(t, fv), 0)
  {
    CellAll(current, fv);
    CellAll(reference, fv);
    ScoreBelow(t, current, reference, fv, []);
    assert [] + Path(t, fv) == Path(t, fv);
  }

  function TotalCellScore(shapes: seq<Tree>, current: seq<Features>, reference: seq<Features>, fv: Features): real
    requires WellFormedAll(shapes)
  {
    if shapes == [] then 0.0
    else TotalCellScore(shapes[..|shapes| - 1], current, reference, fv)
         + CellScore(current, reference, fv, Path(shapes[|shapes| - 1], fv), 0)
  }

  lemma {:induction false} TotalIsCells(shapes: seq<Tree>, current: seq<Features>, reference: seq<Features>, fv: Features)
    requires WellFormedAll(shapes)
    ensures WellFormedAll(CountAll(shapes, current, reference))
    ensures TotalScore(CountAll(shapes, current, reference), fv) == TotalCellScore(shapes, current, reference, fv)
  {
    var trees := CountAll(shapes, current, reference);
    forall i | 0 <= i < |shapes| ensures WellFormed(trees[i]) {
      ScoreIsCellScore(shapes[i], current, reference, fv);
    }
    if shapes != [] {
      var n := |shapes| - 1;
      TotalIsCells(shapes[..n], current, reference, fv);
      ScoreIsCellScore(shapes[n], current, reference, fv);
      assert trees[..n] == CountAll(shapes[..n], current, reference);
    }
  }

  /** After every run of updates the detector's score is zero before the first full window, and from
      then on the average over the trees of the cell comparison of the two most recent windows. */
  lemma {:induction false} RunForestScoreIsCells(shapes: seq<Tree>, windowSize: nat, xs: seq<Features>, fv: Features)
    requires WellFormedAll(shapes) && windowSize > 0 && shapes != []
    ensures ForestScore(Run(shapes, windowSize, xs), fv) ==
            if |xs| < windowSize then 0.0
            else TotalCellScore(shapes, Current(xs, windowSize), Reference(xs, windowSize), fv) / |shapes| as real
  {
    RunCounts(shapes, windowSize, xs);
    TotalIsCells(shapes, Current(xs, windowSize), Reference(xs, windowSize), fv);
    hide TotalScore, TotalCellScore, Run, Current, Reference;
  }

  // ----- the objects -----

  /** hstNode: splits and children are fixed when the tree is built, masses change in place. */
  class HstNode {
    const splitDim: nat
    const splitVal: real
    const left: HstNode?
    const right: HstNode?
    var mass: nat
    var refMass: nat
    ghost const Repr: set<HstNode>

    ghost predicate Valid()
      decreases Repr
    {
      && this in Repr
      && splitDim < HST_DIMS
      && (left == null <==> right == null)
      && (left != null ==>
            && left.Repr <= Repr && right.Repr <= Repr
            && this !in left.Repr && this !in right.Repr && left.Repr !! right.Repr
            && left.Repr < Repr && right.Repr < Repr
            && left.Valid() && right.Valid())
    }

    ghost function View(): (t: Tree)
      requires Valid()
      reads Repr
      ensures WellFormed(t)
      decreases Repr
    {
      if left == null then Leaf(mass, refMass)
      else Split(splitDim, splitVal, left.View(), right.View(), mass, refMass)
    }

    constructor (dim: nat, val: real, left: HstNode?, right: HstNode?)
      requires dim < HST_DIMS && (left == null <==> right == null)
      requires left != null ==> left.Valid() && right.Valid() && left.Repr !! right.Repr
      ensures Valid()
      ensures Repr == {this} + if left == null then {} else left.Repr + right.Repr
      ensures View() == if left == null then Leaf(0, 0) else Split(dim, val, left.View(), right.View(), 0, 0)
    {
      splitDim, splitVal := dim, val;
      this.left, this.right := left, right;
      mass, refMass := 0, 0;
      Repr := {this} + if left == null then {} else left.Repr + right.Repr;
    }

    /** insertHST: counts the sample at every node on its path. */
    method InsertSample(fv: Features)
      requires Valid()
      modifies Repr
      ensures View() == Insert(old(View()), fv)
      decreases Repr
    {
      mass := mass + 1;
      if left == null && right == null {
        return;
      }
      if fv[splitDim] <= splitVal {
        left.InsertSample(fv);
      } else {
        right.InsertSample(fv);
      }
    }

    /** scoreHST: the weighted deviations along the sample's path. */
    method ScoreSample(fv: Features, depth: nat) returns (s: real)
      requires Valid()
      ensures s == Score(View(), fv, depth)
      decreases Repr
    {
      var ref, cur := refMass as real, mass as real;
      var nodeScore := 0.0;
      if ref + cur > 0.0 {
        nodeScore := Weight(depth) * ((if cur >= ref then cur - ref else ref - cur) / (ref + cur));
      }
      assert nodeScore == NodeScore(View(), depth);
      hide NodeScore, Weight, Deviation;
      if left == null && right == null {
        return nodeScore;
      }
      var rest: real;
      if fv[splitDim] <= splitVal {
        rest := left.ScoreSample(fv, depth + 1);
      } else {
        rest := right.ScoreSample(fv, depth + 1);
      }
      return nodeScore + rest;
    }

    /** swapHST: the current masses become the reference masses, everywhere. */
    method SwapMasses()
      requires Valid()
      modifies Repr
      ensures View() == Swap(old(View()))
      decreases Repr
    {
      hide WellFormed;
      refMass := mass;
      mass := 0;
      if left != null {
        left.SwapMasses();
        right.SwapMasses();
      }
    }
  }

  /** The tree built from the draws `dim(k)` and `val(k)` for node k. */
  function Drawn(dim: nat -> nat, val: nat -> real, k: nat, depth: nat): Tree
    requires depth <= HST_MAX_DEPTH
    decreases HST_MAX_DEPTH - depth
  {
    if depth < HST_MAX_DEPTH then
      Split(dim(k), val(k), Drawn(dim, val, 2 * k + 1, depth + 1), Drawn(dim, val, 2 * k + 2, depth + 1), 0, 0)
    else Leaf(0, 0)
  }

  /** A tree of the given height with no sample counted anywhere. */
  predicate EmptyOf(t: Tree, height: nat) {
    WellFormed(t) && Height(t) == height && t == Count(t, [], [])
  }

  lemma {:induction false} EmptySplit(dim: nat, val: real, left: Tree, right: Tree, height: nat)
    requires dim < HST_DIMS && EmptyOf(left, height) && EmptyOf(right, height)
    ensures EmptyOf(Split(dim, val, left, right, 0, 0), height + 1)
  {}

  /** Every drawn tree has full depth and no mass. */
  lemma {:induction false} DrawnIsEmpty(dim: nat -> nat, val: nat -> real, k: nat, depth: nat)
    requires depth <= HST_MAX_DEPTH && forall n: nat :: dim(n) < HST_DIMS
    ensures EmptyOf(Drawn(dim, val, k, depth), HST_MAX_DEPTH - depth)
    decreases HST_MAX_DEPTH - depth
  {
    hide EmptyOf;
    if depth < HST_MAX_DEPTH {
      DrawnIsEmpty(dim, val, 2 * k + 1, depth + 1);
      DrawnIsEmpty(dim, val, 2 * k + 2, depth + 1);
      EmptySplit(dim(k), val(k), Drawn(dim, val, 2 * k + 1, depth + 1), Drawn(dim, val, 2 * k + 2, depth + 1),
                 HST_MAX_DEPTH - depth - 1);
    } else {
      EmptyLeaf();
    }
  }

  lemma {:induction false} EmptyTree(dim: nat -> nat, val: nat -> real, depth: nat)
    requires depth == 0 && forall n: nat :: dim(n) < HST_DIMS
    ensures var t := Drawn(dim, val, 0, depth); WellFormed(t) && Height(t) == HST_MAX_DEPTH && t == Count(t, [], [])
  {
    hide Drawn, WellFormed, Height, Count;
    DrawnIsEmpty(dim, val, 0, depth);
  }

  lemma {:induction false} EmptyLeaf()
    ensures EmptyOf(Leaf(0, 0), 0)
  {}

  lemma {:induction false} DrawnSplits(dim: nat -> nat, val: nat -> real, k: nat, depth: nat)
    requires depth <= HST_MAX_DEPTH
    ensures Drawn(dim, val, k, depth) ==
            if depth < HST_MAX_DEPTH
            then Split(dim(k), val(k), Drawn(dim, val, 2 * k + 1, depth + 1), Drawn(dim, val, 2 * k + 2, depth + 1), 0, 0)
            else Leaf(0, 0)
  {}

  /** buildHSTNode: the random draws for node k are the parameters `dim(k)` and `val(k)`; the
      children of node k are numbered 2k + 1 and 2k + 2. */
  method Build(dim: nat -> nat, val: nat -> real, k: nat, depth: nat) returns (node: HstNode)
    requires depth <= HST_MAX_DEPTH && forall n: nat :: dim(n) < HST_DIMS
    ensures node.Valid() && fresh(node.Repr)
    ensures node.View() == Drawn(dim, val, k, depth)
    decreases HST_MAX_DEPTH - depth
  {
    DrawnSplits(dim, val, k, depth);
    hide WellFormed, Drawn, HstNode.Valid, HstNode.View;
    if depth < HST_MAX_DEPTH {
      var left, right := BuildChildren(dim, val, k, depth);
      node := new HstNode(dim(k), val(k), left, right);
    } else {
      node := new HstNode(dim(k), val(k), null, null);
    }
  }

  method BuildChildren(dim: nat -> nat, val: nat -> real, k: nat, depth: nat) returns (left: HstNode, right: HstNode)
    requires depth < HST_MAX_DEPTH && forall n: nat :: dim(n) < HST_DIMS
    ensures left.Valid() && right.Valid() && left.Repr !! right.Repr && fresh(left.Repr) && fresh(right.Repr)
    ensures left.View() == Drawn(dim, val, 2 * k + 1, depth + 1)
    ensures right.View() == Drawn(dim, val, 2 * k + 2, depth + 1)
    decreases HST_MAX_DEPTH - depth, 0
  {
    hide WellFormed, Drawn, HstNode.Valid, HstNode.View;
    left := Build(dim, val, 2 * k + 1, depth + 1);
    right := Build(dim, val, 2 * k + 2, depth + 1);
  }

  class HstDetector {
    const trees: seq<HstNode>
    const windowSize: nat
    var samplesSeen: nat
    var trained: bool

    ghost predicate Valid() {
      && (forall i | 0 <= i < |trees| :: trees[i].Valid())
      && (forall i, j | 0 <= i < j < |trees| :: trees[i].Repr !! trees[j].Repr)
      && windowSize > 0 && |trees| == HST_NUM_TREES
    }

    ghost function Nodes(): set<object> {
      set i, n | 0 <= i < |trees| && n in trees[i].Repr :: n
    }

    ghost function TreeAt(i: nat): (t: Tree)
      requires Valid() && i < |trees|
      reads Nodes()
      ensures WellFormed(t)
    {
      assert trees[i].Repr <= Nodes();
      trees[i].View()
    }

    ghost function Trees(): (ts: seq<Tree>)
      requires Valid()
      reads Nodes()
      ensures WellFormedAll(ts) && |ts| == |trees| && forall i | 0 <= i < |ts| :: ts[i] == TreeAt(i)
    {
      seq(|trees|, i requires 0 <= i < |trees| && Valid() reads Nodes() => TreeAt(i))
    }

    ghost function View(): Forest
      requires Valid()
      reads this, Nodes()
    {
      Forest(Trees(), samplesSeen, trained)
    }

    /** NewHSTDetector: five trees of depth five; windows shorter than 20 samples become 50. */
    constructor (window: int, dims: seq<nat -> nat>, vals: seq<nat -> real>)
      requires |dims| == |vals| == HST_NUM_TREES
      requires forall i | 0 <= i < HST_NUM_TREES :: forall n: nat :: dims[i](n) < HST_DIMS
      ensures Valid() && |trees| == HST_NUM_TREES && windowSize == (if window < 20 then 50 else window)
      ensures View() == Forest(CountAll(Trees(), [], []), 0, false) == Run(Trees(), windowSize, [])
      ensures forall i | 0 <= i < HST_NUM_TREES :: Height(TreeAt(i)) == HST_MAX_DEPTH
      ensures forall i | 0 <= i < HST_NUM_TREES :: TreeAt(i) == Drawn(dims[i], vals[i], 0, 0)
    {
      hide Drawn, WellFormed, HstNode.View;
      var ts: seq<HstNode> := [];
      for i := 0 to HST_NUM_TREES
        invariant |ts| == i
        invariant forall k | 0 <= k < i :: ts[k].Valid() && fresh(ts[k].Repr)
        invariant forall k | 0 <= k < i :: allocated(ts[k].Repr)
        invariant forall k, l | 0 <= k < l < i :: ts[k].Repr !! ts[l].Repr
        invariant forall k | 0 <= k < i :: ts[k].View() == Drawn(dims[k], vals[k], 0, 0)
      {
        var t := Build(dims[i], vals[i], 0, 0);
        ts := ts + [t];
      }
      trees := ts;
      windowSize := if window < 20 then 50 else window;
      samplesSeen, trained := 0, false;
      new;
      forall i | 0 <= i < HST_NUM_TREES
        ensures Height(TreeAt(i)) == HST_MAX_DEPTH && TreeAt(i) == Count(TreeAt(i), [], [])
      {
        EmptyTree(dims[i], vals[i], 0);
      }
      assert Trees() == CountAll(Trees(), [], []);
    }

    /** The loop that inserts a sample into every tree. */
    method InsertIntoAll(fv: Features)
      requires Valid()
      modifies Nodes()
      ensures Trees() == InsertAll(old(Trees()), fv)
    {
      hide WellFormed, Insert, HstNode.Valid, HstNode.View;
      for i := 0 to |trees|
        invariant forall k | 0 <= k < i :: TreeAt(k) == Insert(old(TreeAt(k)), fv)
        invariant forall k | i <= k < |trees| :: TreeAt(k) == old(TreeAt(k))
      {
        assert trees[i].Repr <= Nodes();
        trees[i].InsertSample(fv);
      }
    }

    /** The loop that swaps the masses of every tree. */
    method SwapAllTrees()
      requires Valid()
      modifies Nodes()
      ensures Trees() == SwapAll(old(Trees()))
    {
      hide WellFormed, Swap, HstNode.Valid, HstNode.View;
      for i := 0 to |trees|
        invariant forall k | 0 <= k < i :: TreeAt(k) == Swap(old(TreeAt(k)))
        invariant forall k | i <= k < |trees| :: TreeAt(k) == old(TreeAt(k))
      {
        assert trees[i].Repr <= Nodes();
        trees[i].SwapMasses();
      }
    }

    /** Feeds one sample; a full window becomes the reference. */
    method UpdateWith(fv: Features)
      requires Valid()
      modifies this, Nodes()
      ensures View() == Update(old(View()), windowSize, fv)
    {
      hide WellFormed, Insert, Swap, InsertAll, SwapAll, TreeAt, Trees, HstNode.Valid, HstNode.View;
      samplesSeen := samplesSeen + 1;
      InsertIntoAll(fv);
      if samplesSeen >= windowSize {
        SwapAllTrees();
        samplesSeen := 0;
        trained := true;
      }
    }

    /** The average score over the trees, zero before the first full window. */
    method ScoreWith(fv: Features) returns (s: real)
      requires Valid()
      ensures s == ForestScore(View(), fv)
    {
      if !trained {
        return 0.0;
      }
      hide Score;
      var total := 0.0;
      ghost var all := Trees();
      for i := 0 to |trees|
        invariant total == TotalScore(all[..i], fv)
      {
        var score := trees[i].ScoreSample(fv, 0);
        assert all[..i + 1][..i] == all[..i];
        total := total + score;
      }
      assert all[..|trees|] == all && View().trees == all && |all| == |trees|;
      return total / |trees| as real;
    }
  }
}
