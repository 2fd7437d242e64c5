/** The HLL++ sketch of types/hll/hllpp_set.go as a value, and what holds over whole runs of
    several sketches: the storage format is never visible in the register map. */
module Sketches {
  import opened Bits
  import opened Codec
  import opened Counters
  import opened SparseWords
  import opened RegisterMap
  import opened SparseLists
  import opened SparseHll

  datatype Sketch =
    | Sparse(list: seq<Word>, temp: set<Word>)
    | Dense(regs: seq<nat>)

  const Empty := Sparse([], {})

  ghost predicate Good(s: Sketch, p: nat)
    requires Precision(p)
  {
    match s
    case Sparse(list, temp) => AllGenuine(Elems(list) + temp, p)
    case Dense(regs) => |regs| == Pow2(p) && forall i | 0 <= i < |regs| :: regs[i] <= 63
  }

  /** The register map a sketch stands for, whatever its format. */
  ghost function Regs(s: Sketch, p: nat): (regs: seq<nat>)
    requires Precision(p) && Good(s, p)
    ensures |regs| == Pow2(p)
  {
    match s
    case Sparse(list, temp) => WordRegs(Elems(list) + temp, p)
    case Dense(regs) => regs
  }

  ghost function Zeros(p: nat): (regs: seq<nat>)
    ensures |regs| == Pow2(p) && forall i | 0 <= i < |regs| :: regs[i] == 0
  {
    seq(Pow2(p), i => 0)
  }

  // ----- the operations -----

  /** The sparse list has grown to the size of the dense registers. */
  predicate TooBig(n: nat, p: nat) {
    n * (p + 6 + 5) >= Pow2(p) * 6
  }

  ghost function Flush(s: Sketch): Sketch {
    if s.Sparse? then Sparse(FlushedList(s.list, s.temp), {}) else s
  }

  /** convertToDenseNoLock */
  ghost function Densify(s: Sketch, p: nat): Sketch
    requires Precision(p) && s.Sparse?
  {
    Dense(WordRegs(Elems(FlushedList(s.list, s.temp)), p))
  }

  ghost function DensifyIfTooBig(s: Sketch, p: nat): Sketch
    requires Precision(p) && s.Sparse?
  {
    if TooBig(|s.list|, p) then Densify(s, p) else s
  }

  ghost function Insert(s: Sketch, x: Hash, p: nat): Sketch
    requires Precision(p) && Good(s, p)
  {
    match s
    case Sparse(list, temp) =>
      var added := Sparse(list, temp + {Encode(x, p)});
      DensifyIfTooBig(if |added.temp| >= Pow2(p) / 8 then Flush(added) else added, p)
    case Dense(regs) => Dense(SetMax(regs, DenseEntry(x, p)))
  }

  /** The receiver of MergeSets afterwards, by the formats of receiver and argument. */
  ghost function Merge(s: Sketch, o: Sketch, p: nat): Sketch
    requires Precision(p) && Good(s, p) && Good(o, p)
  {
    match (s, o)
    case (Dense(a), Dense(b)) => Dense(PointMax(a, b))
    case (Sparse(_, _), Sparse(_, _)) =>
      DensifyIfTooBig(Sparse(MergeLists(Flush(s).list, Flush(o).list), {}), p)
    case (Sparse(_, _), Dense(b)) => Dense(PointMax(Densify(s, p).regs, b))
    case (Dense(a), Sparse(_, _)) => Dense(PointMax(a, WordRegs(Elems(Flush(o).list), p)))
  }

  /** The argument of MergeSets afterwards: it is flushed when its list is read. */
  ghost function Merged(o: Sketch): Sketch {
    Flush(o)
  }

  ghost function Reset(s: Sketch, p: nat): Sketch {
    if s.Sparse? then Empty else Dense(Zeros(p))
  }

  // ----- what each operation means for the register map -----

  lemma {:induction false} EmptyMeans(p: nat)
    requires Precision(p)
    ensures Good(Empty, p) && Regs(Empty, p) == Zeros(p) == SpecRegs({}, p)
  {
    SpecRegsEmpty(p);
    assert Elems([]) + {} == {};
  }

  lemma {:induction false} FlushMeans(s: Sketch, p: nat)
    requires Precision(p) && Good(s, p)
    ensures Good(Flush(s), p) && Regs(Flush(s), p) == Regs(s, p)
  {
    if s.Sparse? {
      var sorted := SortedWords(s.temp);
      assert Elems(sorted) + Elems(s.list) == Elems(s.list) + s.temp;
      MergePreservesMap(sorted, s.list, p);
      assert Elems(Flush(s).list) + {} == Elems(Flush(s).list);
    }
  }

  lemma {:induction false} WordRegsBounded(ks: set<Word>, p: nat)
    requires Precision(p) && AllGenuine(ks, p)
    ensures Good(Dense(WordRegs(ks, p)), p)
  {
    var regs := WordRegs(ks, p);
    forall i | 0 <= i < |regs| ensures regs[i] <= 63 {
      if regs[i] != 0 {
        assert Entry(i, regs[i]) in WordEntries(ks, p);
        var k: Word :| k in ks && Decode(k, p) == Entry(i, regs[i]);
        DecodeGenuine(k, p);
      }
    }
  }

  lemma {:induction false} DensifyMeans(s: Sketch, p: nat)
    requires Precision(p) && Good(s, p) && s.Sparse?
    ensures Good(Densify(s, p), p) && Regs(Densify(s, p), p) == Regs(s, p)
    ensures Good(DensifyIfTooBig(s, p), p) && Regs(DensifyIfTooBig(s, p), p) == Regs(s, p)
  {
    FlushMeans(s, p);
    var list := Flush(s).list;
    assert Elems(list) + {} == Elems(list);
    WordRegsBounded(Elems(list), p);
  }

  lemma {:induction false} AddWordMeans(list: seq<Word>, temp: set<Word>, x: Hash, p: nat)
    requires Precision(p) && Good(Sparse(list, temp), p)
    ensures Good(Sparse(list, temp + {Encode(x, p)}), p)
    ensures Regs(Sparse(list, temp + {Encode(x, p)}), p) == SetMax(Regs(Sparse(list, temp), p), DenseEntry(x, p))
  {
    CodecAgrees(x, p);
    assert Elems(list) + (temp + {Encode(x, p)}) == (Elems(list) + temp) + {Encode(x, p)};
    WordRegsInsert(Elems(list) + temp, x, p);
  }

  lemma {:induction false} InsertMeans(s: Sketch, x: Hash, p: nat)
    requires Precision(p) && Good(s, p)
    ensures Good(Insert(s, x, p), p)
    ensures Regs(Insert(s, x, p), p) == SetMax(Regs(s, p), DenseEntry(x, p))
  {
    hide Regs, Densify, FlushedList, Encode, DenseEntry;
    if s.Sparse? {
      var added := Sparse(s.list, s.temp + {Encode(x, p)});
      AddWordMeans(s.list, s.temp, x, p);
      FlushMeans(added, p);
      DensifyMeans(added, p);
      DensifyMeans(Flush(added), p);
    } else {
      InsertDense(s.regs, x, p);
    }
  }

  lemma {:induction false} InsertDense(regs: seq<nat>, x: Hash, p: nat)
    requires Precision(p) && Good(Dense(regs), p)
    ensures Good(Dense(SetMax(regs, DenseEntry(x, p))), p)
    ensures Regs(Dense(SetMax(regs, DenseEntry(x, p))), p) == SetMax(Regs(Dense(regs), p), DenseEntry(x, p))
  {}

  /** Merging is the pointwise maximum in all four combinations of formats. */
  lemma {:induction false} MergeMeans(s: Sketch, o: Sketch, p: nat)
    requires Precision(p) && Good(s, p) && Good(o, p)
    ensures Good(Merge(s, o, p), p) && Regs(Merge(s, o, p), p) == PointMax(Regs(s, p), Regs(o, p))
    ensures Good(Merged(o), p) && Regs(Merged(o), p) == Regs(o, p)
  {
    FlushMeans(s, p);
    FlushMeans(o, p);
    if s.Sparse? && o.Sparse? {
      MergeSparseMeans(Flush(s).list, Flush(o).list, p);
      DensifyMeans(Sparse(MergeLists(Flush(s).list, Flush(o).list), {}), p);
    } else if s.Sparse? {
      DensifyMeans(s, p);
    } else if o.Sparse? {
      assert Elems(Flush(o).list) + {} == Elems(Flush(o).list);
      WordRegsBounded(Elems(Flush(o).list), p);
    }
  }

  lemma {:induction false} MergeSparseMeans(a: seq<Word>, b: seq<Word>, p: nat)
    requires Precision(p) && Good(Sparse(a, {}), p) && Good(Sparse(b, {}), p)
    ensures Good(Sparse(MergeLists(a, b), {}), p)
    ensures Regs(Sparse(MergeLists(a, b), {}), p) == PointMax(Regs(Sparse(a, {}), p), Regs(Sparse(b, {}), p))
  {
    assert Elems(a) + {} == Elems(a) && Elems(b) + {} == Elems(b);
    assert Elems(MergeLists(a, b)) + {} == Elems(MergeLists(a, b));
    MergePreservesMap(a, b, p);
  }

  lemma {:induction false} ResetMeans(s: Sketch, p: nat)
    requires Precision(p)
    ensures Good(Reset(s, p), p) && Regs(Reset(s, p), p) == SpecRegs({}, p)
  {
    EmptyMeans(p);
  }

  // ----- the memory bound of the sparse format -----

  /** Six bits per register over the bits per list entry, and an eighth of the registers. */
  function MemoryBound(p: nat): real {
    (6 * Pow2(p)) as real / (p + 11) as real + Pow2(p) as real / 8.0
  }

  /** The list and the waiting words together stay below 6m/(p+11) + m/8. */
  ghost predicate Compact(s: Sketch, p: nat) {
    s.Sparse? ==> (|s.list| + |s.temp|) as real < MemoryBound(p)
  }

  lemma {:induction false} ListBound(n: nat, m: nat, b: nat)
    requires b > 0 && n * b < m
    ensures n as real < m as real / b as real
  {
    var q := m as real / b as real;
    assert q * b as real == m as real;
    assert (n * b) as real == n as real * b as real;
    if n as real >= q {
      assert n as real * b as real >= q * b as real;
    }
  }

  lemma {:induction false} CompactParts(list: seq<Word>, temp: set<Word>, p: nat)
    requires !TooBig(|list|, p) && (|temp| < Pow2(p) / 8 || temp == {})
    ensures Compact(Sparse(list, temp), p)
  {
    ListBound(|list|, 6 * Pow2(p), p + 11);
    assert 8 * |temp| < Pow2(p);
  }

  lemma {:induction false} FlushCompact(s: Sketch, p: nat)
    requires Compact(s, p)
    ensures Compact(Flush(s), p)
  {
  }

  lemma {:induction false} InsertCompact(s: Sketch, x: Hash, p: nat)
    requires Precision(p) && Good(s, p)
    ensures Compact(Insert(s, x, p), p)
  {
    var t := Insert(s, x, p);
    if t.Sparse? {
      CompactParts(t.list, t.temp, p);
    }
  }

  lemma {:induction false} MergeCompact(s: Sketch, o: Sketch, p: nat)
    requires Precision(p) && Good(s, p) && Good(o, p)
    ensures Compact(Merge(s, o, p), p)
  {
    var t := Merge(s, o, p);
    if t.Sparse? {
      CompactParts(t.list, {}, p);
    }
  }

  // ----- the p'-indices of a sparse sketch -----

  ghost function HashIndices(xs: set<Hash>): set<nat> {
    set x | x in xs :: IndexPPrime(x, P_PRIME) as nat
  }

  ghost function WordIndices(ks: set<Word>): set<nat> {
    set k | k in ks :: IndexOf(k)
  }

  ghost predicate Tracks(s: Sketch, xs: set<Hash>) {
    s.Sparse? ==> WordIndices(Elems(s.list) + s.temp) == HashIndices(xs)
  }

  lemma {:induction false} ListIndices(list: seq<Word>)
    ensures WordIndices(Elems(list) + {}) == Indices(list)
  {
    hide IndexOf;
  }

  lemma {:induction false} FlushTracks(s: Sketch, xs: set<Hash>)
    requires Tracks(s, xs)
    ensures Tracks(Flush(s), xs)
  {
    hide IndexOf, MergeLists, SortedWords;
    if s.Sparse? {
      var sorted := SortedWords(s.temp);
      MergeIndices(sorted, s.list);
      ListIndices(Flush(s).list);
      assert Elems(s.list) + s.temp == Elems(s.list) + Elems(sorted);
      assert WordIndices(Elems(s.list) + s.temp) == Indices(sorted) + Indices(s.list);
    }
  }

  lemma {:induction false} AddWordTracks(list: seq<Word>, temp: set<Word>, xs: set<Hash>, x: Hash, p: nat)
    requires Precision(p) && Tracks(Sparse(list, temp), xs)
    ensures Tracks(Sparse(list, temp + {Encode(x, p)}), xs + {x})
  {
    EncodeIsGenuine(x, p);
    hide IndexOf, Encode, IndexPPrime, Genuine;
    var w := Encode(x, p);
    assert Elems(list) + (temp + {w}) == (Elems(list) + temp) + {w};
    assert WordIndices((Elems(list) + temp) + {w}) == WordIndices(Elems(list) + temp) + {IndexOf(w)};
    assert HashIndices(xs + {x}) == HashIndices(xs) + {IndexPPrime(x, P_PRIME) as nat};
  }

  lemma {:induction false} InsertTracks(s: Sketch, xs: set<Hash>, x: Hash, p: nat)
    requires Precision(p) && Good(s, p) && Tracks(s, xs)
    ensures Tracks(Insert(s, x, p), xs + {x})
  {
    hide Tracks, Good, Encode, FlushedList;
    if s.Sparse? {
      AddWordTracks(s.list, s.temp, xs, x, p);
      FlushTracks(Sparse(s.list, s.temp + {Encode(x, p)}), xs + {x});
    }
    DenseTracks(Insert(s, x, p), xs + {x});
  }

  lemma {:induction false} DenseTracks(s: Sketch, xs: set<Hash>)
    ensures s.Dense? ==> Tracks(s, xs)
  {}

  lemma {:induction false} MergeTracks(s: Sketch, xs: set<Hash>, o: Sketch, ys: set<Hash>, p: nat)
    requires Precision(p) && Good(s, p) && Good(o, p) && Tracks(s, xs) && Tracks(o, ys)
    ensures Tracks(Merge(s, o, p), xs + ys)
  {
    FlushTracks(s, xs);
    FlushTracks(o, ys);
    hide Good, FlushedList, MergeLists, IndexOf, IndexPPrime;
    if s.Sparse? && o.Sparse? {
      var a, b := Flush(s).list, Flush(o).list;
      MergeIndices(a, b);
      ListIndices(a);
      ListIndices(b);
      ListIndices(MergeLists(a, b));
      hide Elems, Indices, WordIndices;
      assert HashIndices(xs + ys) == HashIndices(xs) + HashIndices(ys);
    }
  }

  lemma {:induction false} EmptyTracks()
    ensures Tracks(Empty, {})
  {}

  // ----- runs over any number of sketches -----

  /** What a program does with sketches 0, 1, ...: `Ship(i, j)` replaces sketch j by one rebuilt
      from the export of sketch i. */
  datatype Op =
    | OpInsert(i: nat, x: Hash)
    | OpCount(i: nat)
    | OpMerge(i: nat, j: nat)
    | OpReset(i: nat)
    | OpShip(i: nat, j: nat)

  predicate InScope(op: Op, n: nat) {
    match op
    case OpInsert(i, _) => i < n
    case OpCount(i) => i < n
    case OpReset(i) => i < n
    case OpMerge(i, j) => i < n && j < n
    case OpShip(i, j) => i < n && j < n
  }

  ghost predicate AllGood(w: seq<Sketch>, p: nat)
    requires Precision(p)
  {
    forall i | 0 <= i < |w| :: Good(w[i], p)
  }

  ghost function Step(w: seq<Sketch>, op: Op, p: nat): (w': seq<Sketch>)
    requires Precision(p) && AllGood(w, p) && InScope(op, |w|)
    ensures |w'| == |w|
  {
    match op
    case OpInsert(i, x) => w[i := Insert(w[i], x, p)]
    case OpCount(i) => w[i := Flush(w[i])]
    case OpMerge(i, j) =>
      if i == j then w else w[j := Merged(w[j])][i := Merge(w[i], w[j], p)]
    case OpReset(i) => w[i := Reset(w[i], p)]
    case OpShip(i, j) => w[i := Flush(w[i])][j := Flush(w[i])]
  }

  lemma {:induction false} StepGood(w: seq<Sketch>, op: Op, p: nat)
    requires Precision(p) && AllGood(w, p) && InScope(op, |w|)
    ensures AllGood(Step(w, op, p), p)
  {
    hide Good, Insert, Merge, Merged, Reset, Flush;
    match op
    case OpInsert(i, x) => InsertMeans(w[i], x, p);
    case OpCount(i) => FlushMeans(w[i], p);
    case OpMerge(i, j) => MergeMeans(w[i], w[j], p);
    case OpReset(i) => ResetMeans(w[i], p);
    case OpShip(i, j) => FlushMeans(w[i], p);
  }

  /** The sets of hashes the sketches are meant to hold. */
  function Intend(t: seq<set<Hash>>, op: Op): (t': seq<set<Hash>>)
    requires InScope(op, |t|)
    ensures |t'| == |t|
  {
    match op
    case OpInsert(i, x) => t[i := t[i] + {x}]
    case OpCount(i) => t
    case OpMerge(i, j) => t[i := t[i] + t[j]]
    case OpReset(i) => t[i := {}]
    case OpShip(i, j) => t[j := t[i]]
  }

  /** A sketch that stands for the hashes: it has their register map, stays small, and while it is
      sparse holds exactly their p'-indices. */
  ghost predicate Faithful(s: Sketch, xs: set<Hash>, p: nat)
    requires Precision(p)
  {
    Good(s, p) && Regs(s, p) == SpecRegs(xs, p) && Compact(s, p) && Tracks(s, xs)
  }

  ghost predicate AllFaithful(w: seq<Sketch>, t: seq<set<Hash>>, p: nat)
    requires Precision(p)
  {
    |w| == |t| && forall i | 0 <= i < |w| :: Faithful(w[i], t[i], p)
  }

  lemma {:induction false} InsertFaithful(s: Sketch, xs: set<Hash>, x: Hash, p: nat)
    requires Precision(p) && Faithful(s, xs, p)
    ensures Faithful(Insert(s, x, p), xs + {x}, p)
  {
    InsertMeans(s, x, p);
    InsertCompact(s, x, p);
    InsertTracks(s, xs, x, p);
    SpecRegsInsert(xs, x, p);
    hide Good, Regs, Compact, Tracks, Insert;
  }

  lemma {:induction false} FlushFaithful(s: Sketch, xs: set<Hash>, p: nat)
    requires Precision(p) && Faithful(s, xs, p)
    ensures Faithful(Flush(s), xs, p)
  {
    FlushMeans(s, p);
    FlushCompact(s, p);
    FlushTracks(s, xs);
    hide Good, Regs, Compact, Tracks, Flush;
  }

  lemma {:induction false} MergeFaithful(s: Sketch, xs: set<Hash>, o: Sketch, ys: set<Hash>, p: nat)
    requires Precision(p) && Faithful(s, xs, p) && Faithful(o, ys, p)
    ensures Faithful(Merge(s, o, p), xs + ys, p) && Faithful(Merged(o), ys, p)
  {
    MergeMeans(s, o, p);
    MergeCompact(s, o, p);
    FlushCompact(o, p);
    MergeTracks(s, xs, o, ys, p);
    FlushTracks(o, ys);
    SpecRegsUnion(xs, ys, p);
    hide Good, Regs, Compact, Tracks, Merge, Flush;
  }

  lemma {:induction false} ResetFaithful(s: Sketch, p: nat)
    requires Precision(p)
    ensures Faithful(Reset(s, p), {}, p)
  {
    ResetMeans(s, p);
    CompactParts([], {}, p);
    EmptyTracks();
  }

  // ----- when the format changes -----

  /** The list and the waiting words of a sparse sketch after one more hash: they are flushed from
      an eighth of the registers on. */
  ghost function ListAfter(s: Sketch, x: Hash, p: nat): seq<Word>
    requires Precision(p) && s.Sparse?
  {
    var temp := s.temp + {Encode(x, p)};
    if |temp| < Pow2(p) / 8 then s.list else MergeLists(SortedWords(temp), s.list)
  }

  /** Insert converts exactly when the list, flushed or not, fills the bits of the dense registers;
      until then it only adds the word or flushes. */
  lemma {:induction false} InsertConvertsIff(s: Sketch, x: Hash, p: nat)
    requires Precision(p) && Good(s, p) && s.Sparse?
    ensures Insert(s, x, p).Dense? <==> |ListAfter(s, x, p)| * (p + 11) >= 6 * Pow2(p)
    ensures var temp := s.temp + {Encode(x, p)};
      Insert(s, x, p).Sparse? ==>
        Insert(s, x, p) == Sparse(ListAfter(s, x, p), if |temp| < Pow2(p) / 8 then temp else {})
  {}

  /** A merge leaves a dense receiver exactly when one of the two is dense or their merged lists
      fill the bits of the dense registers; a reset and a flush never change the format. */
  lemma {:induction false} MergeConvertsIff(s: Sketch, o: Sketch, p: nat)
    requires Precision(p) && Good(s, p) && Good(o, p)
    ensures Merge(s, o, p).Dense? <==>
              s.Dense? || o.Dense? || |MergeLists(Flush(s).list, Flush(o).list)| * (p + 11) >= 6 * Pow2(p)
    ensures Merge(s, o, p).Sparse? ==> Merge(s, o, p) == Sparse(MergeLists(Flush(s).list, Flush(o).list), {})
    ensures Reset(s, p).Dense? <==> s.Dense?
    ensures Flush(s).Dense? <==> s.Dense?
    ensures Merged(o) == Flush(o) && (Flush(o).Sparse? ==> Flush(o).temp == {})
  {}

  /** How many words a sketch can hold at most: one for each insertion since it was last cleared,
      repeated ones included, and those of its merge partners; or `Heavy` if that has ever been
      enough to fill the dense registers. */
  datatype Burden = Light(words: nat) | Heavy

  function Plus(a: Burden, b: Burden, p: nat): Burden {
    if a.Light? && b.Light? && (a.words + b.words) * (p + 11) < 6 * Pow2(p) then Light(a.words + b.words) else Heavy
  }

  function Burdened(t: seq<Burden>, op: Op, p: nat): (t': seq<Burden>)
    requires InScope(op, |t|)
    ensures |t'| == |t|
  {
    match op
    case OpInsert(i, _) => t[i := Plus(t[i], Light(1), p)]
    case OpCount(i) => t
    case OpMerge(i, j) => if i == j then t else t[i := Plus(t[i], t[j], p)]
    case OpReset(i) => if t[i].Light? then t[i := Light(0)] else t
    case OpShip(i, j) => t[j := t[i]]
  }

  ghost predicate Bears(s: Sketch, b: Burden) {
    b.Light? ==> s.Sparse? && |s.list| + |s.temp| <= b.words
  }

  ghost predicate AllBear(w: seq<Sketch>, t: seq<Burden>) {
    |w| == |t| && forall i | 0 <= i < |w| :: Bears(w[i], t[i])
  }

  lemma {:induction false} FlushBears(s: Sketch, b: Burden)
    requires Bears(s, b)
    ensures Bears(Flush(s), b)
  {}

  lemma {:induction false} Fills(n: nat, m: nat, p: nat)
    requires n <= m && m * (p + 11) < 6 * Pow2(p)
    ensures n * (p + 11) < 6 * Pow2(p)
  {
    hide Pow2;
    assert n * (p + 11) <= m * (p + 11);
  }

  lemma {:induction false} InsertBears(s: Sketch, b: Burden, x: Hash, p: nat)
    requires Precision(p) && Good(s, p) && Bears(s, b)
    ensures Bears(Insert(s, x, p), Plus(b, Light(1), p))
  {
    if Plus(b, Light(1), p).Light? {
      InsertConvertsIff(s, x, p);
      Fills(|ListAfter(s, x, p)|, b.words + 1, p);
      hide Insert, Good, Encode, Pow2;
    }
  }

  lemma {:induction false} MergeBears(s: Sketch, b: Burden, o: Sketch, c: Burden, p: nat)
    requires Precision(p) && Good(s, p) && Good(o, p) && Bears(s, b) && Bears(o, c)
    ensures Bears(Merge(s, o, p), Plus(b, c, p))
  {
    hide Merge, Good, MergeLists, SortedWords, Pow2;
    if Plus(b, c, p).Light? {
      MergeConvertsIff(s, o, p);
      Fills(|MergeLists(Flush(s).list, Flush(o).list)|, b.words + c.words, p);
    }
  }

  lemma {:induction false} StepBears(w: seq<Sketch>, t: seq<Burden>, op: Op, p: nat)
    requires Precision(p) && AllGood(w, p) && AllBear(w, t) && InScope(op, |w|)
    ensures AllBear(Step(w, op, p), Burdened(t, op, p))
  {
    hide Good, Insert, Merge, Plus, Flush;
    match op
    case OpInsert(i, x) => InsertBears(w[i], t[i], x, p);
    case OpCount(i) => FlushBears(w[i], t[i]);
    case OpMerge(i, j) =>
      FlushBears(w[j], t[j]);
      MergeBears(w[i], t[i], w[j], t[j], p);
    case OpReset(i) => {}
    case OpShip(i, j) => FlushBears(w[i], t[i]);
  }

  function BurdenedAll(t: seq<Burden>, ops: seq<Op>, p: nat): (t': seq<Burden>)
    requires AllInScope(ops, |t|)
    ensures |t'| == |t|
    decreases |ops|
  {
    if ops == [] then t else BurdenedAll(Burdened(t, ops[0], p), ops[1..], p)
  }

  /** Over every run a sketch that has never been given enough words to fill the dense registers, by
      itself or through a partner, is still sparse and holds no more words than it was given. */
  lemma {:induction false} LightStaysSparse(w: seq<Sketch>, t: seq<Burden>, ops: seq<Op>, p: nat)
    requires Precision(p) && AllGood(w, p) && AllBear(w, t) && AllInScope(ops, |w|)
    ensures AllBear(Run(w, ops, p), BurdenedAll(t, ops, p))
    decreases |ops|
  {
    if ops != [] {
      StepGood(w, ops[0], p);
      StepBears(w, t, ops[0], p);
      LightStaysSparse(Step(w, ops[0], p), Burdened(t, ops[0], p), ops[1..], p);
    }
  }

  lemma {:induction false} FewIndices(xs: set<Hash>)
    ensures |HashIndices(xs)| <= |xs|
  {
    hide IndexPPrime;
    if x :| x in xs {
      FewIndices(xs - {x});
      assert HashIndices(xs) == HashIndices(xs - {x}) + {IndexPPrime(x, P_PRIME) as nat};
    }
  }

  /** Counting different hashes instead of insertions is enough as long as no index occurs twice in
      the list; `SparseLists.SameWordTwice` shows how repeated hashes can lengthen it otherwise. */
  lemma {:induction false} FewHashesStaySparse(s: Sketch, xs: set<Hash>, x: Hash, p: nat)
    requires Precision(p) && Faithful(s, xs, p) && s.Sparse?
    requires DistinctIndices(ListAfter(s, x, p)) && |xs + {x}| * (p + 11) < 6 * Pow2(p)
    ensures Insert(s, x, p).Sparse? && |ListAfter(s, x, p)| <= |xs + {x}|
  {
    var list := ListAfter(s, x, p);
    InsertConvertsIff(s, x, p);
    ListIndicesWithin(s, xs, x, p);
    hide *;
    LengthCountsIndices(list);
    FewIndices(xs + {x});
    SubsetSize(Indices(list), HashIndices(xs + {x}));
    Fills(|list|, |xs + {x}|, p);
  }

  lemma {:induction false} ListIndicesWithin(s: Sketch, xs: set<Hash>, x: Hash, p: nat)
    requires Precision(p) && s.Sparse? && Tracks(s, xs)
    ensures Indices(ListAfter(s, x, p)) <= HashIndices(xs + {x})
  {
    hide Encode, IndexOf, IndexPPrime, MergeLists, SortedWords, Pow2;
    var temp := s.temp + {Encode(x, p)};
    AddWordTracks(s.list, s.temp, xs, x, p);
    MergeIndices(SortedWords(temp), s.list);
    assert forall k | k in SortedWords(temp) :: k in Elems(SortedWords(temp));
    assert forall k | k in s.list :: k in Elems(s.list);
    assert Indices(s.list) <= WordIndices(Elems(s.list) + temp);
    assert Indices(SortedWords(temp)) <= WordIndices(Elems(s.list) + temp);
  }

  // ----- estimates -----

  /** The number GetElements returns for a flushed sketch. */
  ghost function Estimate(est: Estimators, s: Sketch, p: nat): nat {
    match s
    case Sparse(list, _) => SparseCount(est, |list|)
    case Dense(regs) => est.dense(p, SumOf(regs), ZerosIn(regs) % TWO16)
  }

  ghost function Range(n: nat): (r: set<nat>)
    ensures |r| == n && forall i: nat :: i in r <==> i < n
  {
    if n == 0 then {} else Range(n - 1) + {n - 1}
  }

  /** The p'-indices of none of the hashes. */
  ghost function FreeIndices(xs: set<Hash>): set<nat> {
    Range(Pow2(P_PRIME)) - HashIndices(xs)
  }

  lemma {:induction false} FreeCount(xs: set<Hash>)
    ensures |FreeIndices(xs)| == Pow2(P_PRIME) - |HashIndices(xs)|
  {
    hide Pow2, IndexPPrime, Range;
    assert HashIndices(xs) <= Range(Pow2(P_PRIME));
  }

  lemma {:induction false} NoIndices(xs: set<Hash>)
    ensures HashIndices(xs) == {} <==> xs == {}
  {
    hide IndexPPrime;
    if x :| x in xs {
      assert IndexPPrime(x, P_PRIME) as nat in HashIndices(xs);
    }
  }

  lemma {:induction false} SparseMeans(est: Estimators, list: seq<Word>, xs: set<Hash>, p: nat)
    requires Indices(list) == HashIndices(xs)
    ensures Estimate(est, Sparse(list, {}), p) ==
            if xs == {} then 0
            else est.linear(Pow2(P_PRIME), (|FreeIndices(xs)| - (|list| - |Indices(list)|)) % TWO64)
    ensures list == [] <==> xs == {}
  {
    hide Pow2, IndexOf;
    FreeCount(xs);
    NoIndices(xs);
    if list != [] {
      assert IndexOf(list[0]) in Indices(list);
    }
  }

  lemma {:induction false} FreeFits(xs: set<Hash>)
    ensures |FreeIndices(xs)| % TWO64 == |FreeIndices(xs)|
  {
    hide Pow2, FreeIndices, HashIndices;
    FreeCount(xs);
    Pow2Values();
  }

  /** What GetElements returns for a sketch that stands for the hashes `xs`. Once dense, a number that
      depends on nothing but the hashes. While sparse, zero without any hash, else linear counting
      with the p'-indices that no hash has as the empty buckets, less the words the list has too
      many; it has none too many exactly when no index occurs in it twice. */
  lemma {:induction false} EstimateMeans(est: Estimators, s: Sketch, xs: set<Hash>, p: nat)
    requires Precision(p) && Faithful(s, xs, p)
    ensures s.Dense? ==>
              Estimate(est, Flush(s), p) == est.dense(p, SumOf(SpecRegs(xs, p)), ZerosIn(SpecRegs(xs, p)) % TWO16)
    ensures s.Sparse? ==>
      var list := Flush(s).list;
      var surplus := |list| - |Indices(list)|;
      && surplus >= 0 && (surplus == 0 <==> DistinctIndices(list))
      && Estimate(est, Flush(s), p) ==
         if xs == {} then 0 else est.linear(Pow2(P_PRIME), (|FreeIndices(xs)| - surplus) % TWO64)
    ensures s.Sparse? && DistinctIndices(Flush(s).list) ==>
              Estimate(est, Flush(s), p) == if xs == {} then 0 else est.linear(Pow2(P_PRIME), |FreeIndices(xs)|)
  {
    if s.Sparse? {
      SparseEstimate(est, s, xs, p);
    }
    hide SparseCount, FlushedList, FreeIndices, DistinctIndices, Indices;
  }

  lemma {:induction false} SparseEstimate(est: Estimators, s: Sketch, xs: set<Hash>, p: nat)
    requires s.Sparse? && Tracks(s, xs)
    ensures var list := Flush(s).list;
      var surplus := |list| - |Indices(list)|;
      && surplus >= 0 && (surplus == 0 <==> DistinctIndices(list))
      && Estimate(est, Flush(s), p) ==
         if xs == {} then 0 else est.linear(Pow2(P_PRIME), (|FreeIndices(xs)| - surplus) % TWO64)
    ensures DistinctIndices(Flush(s).list) ==>
              Estimate(est, Flush(s), p) == if xs == {} then 0 else est.linear(Pow2(P_PRIME), |FreeIndices(xs)|)
  {
    hide *;
    FlushedShape(s, xs);
    var list := Flush(s).list;
    LengthCountsIndices(list);
    SparseMeans(est, list, xs, p);
    FreeFits(xs);
  }

  lemma {:induction false} FlushedShape(s: Sketch, xs: set<Hash>)
    requires s.Sparse? && Tracks(s, xs)
    ensures Flush(s).Sparse? && Flush(s) == Sparse(Flush(s).list, {}) && Indices(Flush(s).list) == HashIndices(xs)
  {
    FlushTracks(s, xs);
    ListIndices(Flush(s).list);
    hide WordIndices, HashIndices, Indices, FlushedList, Elems;
  }

  lemma {:induction false} StepFaithful(w: seq<Sketch>, t: seq<set<Hash>>, op: Op, p: nat)
    requires Precision(p) && AllFaithful(w, t, p) && InScope(op, |w|)
    ensures AllFaithful(Step(w, op, p), Intend(t, op), p)
  {
    hide Good, Regs, Compact, Insert, Merge, Merged, Reset, Flush;
    match op
    case OpInsert(i, x) => InsertFaithful(w[i], t[i], x, p);
    case OpCount(i) => FlushFaithful(w[i], t[i], p);
    case OpMerge(i, j) =>
      if i == j {
        assert t[i] + t[j] == t[i];
      } else {
        MergeFaithful(w[i], t[i], w[j], t[j], p);
      }
    case OpReset(i) => ResetFaithful(w[i], p);
    case OpShip(i, j) => FlushFaithful(w[i], t[i], p);
  }

  predicate AllInScope(ops: seq<Op>, n: nat) {
    forall k | 0 <= k < |ops| :: InScope(ops[k], n)
  }

  function IntendAll(t: seq<set<Hash>>, ops: seq<Op>): (t': seq<set<Hash>>)
    requires AllInScope(ops, |t|)
    ensures |t'| == |t|
    decreases |ops|
  {
    if ops == [] then t else IntendAll(Intend(t, ops[0]), ops[1..])
  }

  ghost function Run(w: seq<Sketch>, ops: seq<Op>, p: nat): (w': seq<Sketch>)
    requires Precision(p) && AllGood(w, p) && AllInScope(ops, |w|)
    ensures |w'| == |w| && AllGood(w', p)
    decreases |ops|
  {
    if ops == [] then w else
      StepGood(w, ops[0], p);
      Run(Step(w, ops[0], p), ops[1..], p)
  }

  /** Format transparency: over every run, each sketch stands for exactly the register map of the
      hashes it is meant to hold, in whichever format it is, and its sparse form stays small. */
  lemma {:induction false} RunFaithful(w: seq<Sketch>, t: seq<set<Hash>>, ops: seq<Op>, p: nat)
    requires Precision(p) && AllFaithful(w, t, p) && AllInScope(ops, |w|)
    ensures AllFaithful(Run(w, ops, p), IntendAll(t, ops), p)
    decreases |ops|
  {
    if ops != [] {
      StepFaithful(w, t, ops[0], p);
      RunFaithful(Step(w, ops[0], p), Intend(t, ops[0]), ops[1..], p);
    }
  }

  ghost function Fresh(n: nat): (w: seq<Sketch>)
    ensures |w| == n
  {
    seq(n, i => Empty)
  }

  function NoHashes(n: nat): (t: seq<set<Hash>>)
    ensures |t| == n
  {
    seq(n, i => {})
  }

  lemma {:induction false} FreshFaithful(n: nat, p: nat)
    requires Precision(p)
    ensures AllFaithful(Fresh(n), NoHashes(n), p)
  {
    ResetFaithful(Empty, p);
  }

  /** Two sketches of any two runs that were given the same set of hashes have the same registers:
      order, duplicates, grouping of merges, resets, shipping and format changes leave no trace. */
  lemma {:induction false} SameHashesSameRegisters(ops: seq<Op>, n: nat, i: nat, ops': seq<Op>, n': nat, i': nat, p: nat)
    requires Precision(p) && AllInScope(ops, n) && AllInScope(ops', n') && i < n && i' < n'
    requires IntendAll(NoHashes(n), ops)[i] == IntendAll(NoHashes(n'), ops')[i']
    ensures AllFaithful(Fresh(n), NoHashes(n), p) && AllFaithful(Fresh(n'), NoHashes(n'), p)
    ensures Regs(Run(Fresh(n), ops, p)[i], p) == Regs(Run(Fresh(n'), ops', p)[i'], p)
  {
    FreshFaithful(n, p);
    FreshFaithful(n', p);
    RunFaithful(Fresh(n), NoHashes(n), ops, p);
    RunFaithful(Fresh(n'), NoHashes(n'), ops', p);
  }
}
