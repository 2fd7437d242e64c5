/** The abstract meaning of a sketch: for every register index the largest rho seen. */
module RegisterMap {
  import opened Bits
  import opened Codec
  import opened SparseWords

  /** The largest rho recorded for index `i`, zero if there is none. */
  ghost function MaxAt(es: set<Entry>, i: nat): (r: nat)
    ensures r == 0 || Entry(i, r) in es
    ensures forall e | e in es && e.index == i :: e.rho <= r
  {
    if es == {} then 0
    else
      var e :| e in es;
      var rest := MaxAt(es - {e}, i);
      if e.index == i && e.rho > rest then e.rho else rest
  }

  ghost function RegMap(es: set<Entry>, m: nat): (regs: seq<nat>)
    ensures |regs| == m
  {
    seq(m, (i: nat) => MaxAt(es, i))
  }

  /** Each entry of `a` is matched by one of `b` for the same register with no smaller rho. */
  ghost predicate Below(a: set<Entry>, b: set<Entry>) {
    forall e | e in a :: HasAtLeast(b, e)
  }

  ghost predicate HasAtLeast(b: set<Entry>, e: Entry) {
    exists f :: f in b && f.index == e.index && e.rho <= f.rho
  }

  lemma {:induction false} BelowMax(a: set<Entry>, b: set<Entry>, i: nat)
    requires Below(a, b)
    ensures MaxAt(a, i) <= MaxAt(b, i)
  {
    if MaxAt(a, i) != 0 {
      assert HasAtLeast(b, Entry(i, MaxAt(a, i)));
    }
  }

  lemma {:induction false} MutuallyBelow(a: set<Entry>, b: set<Entry>, m: nat)
    requires Below(a, b) && Below(b, a)
    ensures RegMap(a, m) == RegMap(b, m)
  {
    forall i: nat | i < m ensures MaxAt(a, i) == MaxAt(b, i) {
      BelowMax(a, b, i);
      BelowMax(b, a, i);
    }
  }

  function PointMax(a: seq<nat>, b: seq<nat>): (c: seq<nat>)
    requires |a| == |b|
    ensures |c| == |a|
  {
    seq(|a|, i requires 0 <= i < |a| => Max(a[i], b[i]))
  }

  function SetMax(regs: seq<nat>, e: Entry): seq<nat>
    requires e.index < |regs|
  {
    regs[e.index := Max(regs[e.index], e.rho)]
  }

  lemma {:induction false} UnionIsPointMax(a: set<Entry>, b: set<Entry>, m: nat)
    ensures RegMap(a + b, m) == PointMax(RegMap(a, m), RegMap(b, m))
  {
    forall i: nat | i < m ensures MaxAt(a + b, i) == Max(MaxAt(a, i), MaxAt(b, i)) {
      var r, s, t := MaxAt(a, i), MaxAt(b, i), MaxAt(a + b, i);
      if t != 0 { assert Entry(i, t) in a || Entry(i, t) in b; }
      if r != 0 { assert Entry(i, r) in a + b; }
      if s != 0 { assert Entry(i, s) in a + b; }
    }
  }

  lemma {:induction false} AddIsSetMax(es: set<Entry>, e: Entry, m: nat)
    requires e.index < m
    ensures RegMap(es + {e}, m) == SetMax(RegMap(es, m), e)
  {
    UnionIsPointMax(es, {e}, m);
    forall i: nat | i < m ensures MaxAt({e}, i) == if i == e.index then e.rho else 0 {}
  }

  // ----- the entries of hashes and of packed words -----

  ghost function HashEntries(xs: set<Hash>, p: nat): set<Entry>
    requires Precision(p)
  {
    set x | x in xs :: DenseEntry(x, p)
  }

  ghost function WordEntries(ks: set<Word>, p: nat): set<Entry>
    requires Precision(p)
  {
    set k | k in ks :: Decode(k, p)
  }

  /** The register map of a set of inserted hashes: the specification of the whole sketch. */
  ghost function SpecRegs(xs: set<Hash>, p: nat): (regs: seq<nat>)
    requires Precision(p)
    ensures |regs| == Pow2(p)
  {
    RegMap(HashEntries(xs, p), Pow2(p))
  }

  ghost function WordRegs(ks: set<Word>, p: nat): (regs: seq<nat>)
    requires Precision(p)
    ensures |regs| == Pow2(p)
  {
    RegMap(WordEntries(ks, p), Pow2(p))
  }

  lemma {:induction false} SpecRegsEmpty(p: nat)
    requires Precision(p)
    ensures SpecRegs({}, p) == WordRegs({}, p) == seq(Pow2(p), i => 0)
  {
    assert HashEntries({}, p) == {} && WordEntries({}, p) == {};
  }

  lemma {:induction false} SpecRegsInsert(xs: set<Hash>, x: Hash, p: nat)
    requires Precision(p)
    ensures SpecRegs(xs + {x}, p) == SetMax(SpecRegs(xs, p), DenseEntry(x, p))
  {
    assert HashEntries(xs + {x}, p) == HashEntries(xs, p) + {DenseEntry(x, p)};
    AddIsSetMax(HashEntries(xs, p), DenseEntry(x, p), Pow2(p));
  }

  lemma {:induction false} SpecRegsUnion(xs: set<Hash>, ys: set<Hash>, p: nat)
    requires Precision(p)
    ensures SpecRegs(xs + ys, p) == PointMax(SpecRegs(xs, p), SpecRegs(ys, p))
  {
    assert HashEntries(xs + ys, p) == HashEntries(xs, p) + HashEntries(ys, p);
    UnionIsPointMax(HashEntries(xs, p), HashEntries(ys, p), Pow2(p));
  }

  lemma {:induction false} WordRegsUnion(ks: set<Word>, ls: set<Word>, p: nat)
    requires Precision(p)
    ensures WordRegs(ks + ls, p) == PointMax(WordRegs(ks, p), WordRegs(ls, p))
  {
    assert WordEntries(ks + ls, p) == WordEntries(ks, p) + WordEntries(ls, p);
    UnionIsPointMax(WordEntries(ks, p), WordEntries(ls, p), Pow2(p));
  }

  lemma {:induction false} WordRegsInsert(ks: set<Word>, x: Hash, p: nat)
    requires Precision(p)
    ensures WordRegs(ks + {Encode(x, p)}, p) == SetMax(WordRegs(ks, p), DenseEntry(x, p))
  {
    CodecAgrees(x, p);
    hide Encode, Decode, DenseEntry;
    assert WordEntries(ks + {Encode(x, p)}, p) == WordEntries(ks, p) + {DenseEntry(x, p)};
    AddIsSetMax(WordEntries(ks, p), DenseEntry(x, p), Pow2(p));
  }

  lemma {:induction false} WordRegsAdd(ks: set<Word>, k: Word, p: nat)
    requires Precision(p) && Genuine(k, p)
    ensures Decode(k, p).index < Pow2(p)
    ensures WordRegs(ks + {k}, p) == SetMax(WordRegs(ks, p), Decode(k, p))
  {
    DecodeGenuine(k, p);
    hide Decode, Genuine;
    assert WordEntries(ks + {k}, p) == WordEntries(ks, p) + {Decode(k, p)};
    AddIsSetMax(WordEntries(ks, p), Decode(k, p), Pow2(p));
  }

  lemma {:induction false} PointMaxSetMax(a: seq<nat>, b: seq<nat>, e: Entry)
    requires |a| == |b| && e.index < |a|
    ensures SetMax(PointMax(a, b), e) == PointMax(a, SetMax(b, e))
  {}

  lemma {:induction false} PointMaxZero(a: seq<nat>, z: seq<nat>)
    requires |a| == |z| && forall i | 0 <= i < |z| :: z[i] == 0
    ensures PointMax(a, z) == a && PointMax(z, a) == a
  {}
}
