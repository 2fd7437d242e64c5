/** The format-switching sketch object of types/hll/hllpp_set.go. Each public method is one step
    (locks are erased) and moves the sketch value exactly as module `Sketches` says. */
module Hllpp {
  import opened Bits
  import opened Codec
  import opened Counters
  import opened SparseWords
  import opened RegisterMap
  import opened PackedBits
  import opened PackedRegisters
  import opened SparseLists
  import opened DenseHll
  import opened SparseHll
  import Sketches

  /** The protobuf message a sketch is shipped in; `NoData` stands for an unset or unknown body. */
  datatype Wire = NilSketch | NoData | SparseData(list: seq<Word>) | DenseData(bytes: seq<Byte>)

  /** `wire` is an export of the sketch `s`. */
  ghost predicate Exports(wire: Wire, s: Sketches.Sketch, p: nat) {
    match s
    case Sparse(list, temp) => wire == SparseData(list) && temp == {}
    case Dense(regs) => wire.DenseData? && Holds(wire.bytes, Pow2(p)) && Unpack(wire.bytes, Pow2(p)) == regs
  }

  /** The messages a sketch can be rebuilt from. */
  ghost predicate Importable(wire: Wire, p: nat) {
    wire.SparseData? || (wire.DenseData? && Holds(wire.bytes, Pow2(p)))
  }

  /** The words of a list are taken on trust, so they have to come from an export. */
  ghost predicate Trusted(wire: Wire, p: nat)
    requires Precision(p)
  {
    wire.SparseData? ==> AllGenuine(Elems(wire.list), p)
  }

  /** The sketch rebuilt from a message. */
  ghost function Imported(wire: Wire, p: nat): (s: Sketches.Sketch)
    requires Precision(p) && Importable(wire, p) && Trusted(wire, p)
    ensures Sketches.Good(s, p)
  {
    if wire.SparseData? then
      assert Elems(wire.list) + {} == Elems(wire.list);
      Sketches.Sparse(wire.list, {})
    else Sketches.Dense(Unpack(wire.bytes, Pow2(p)))
  }

  /** Import undoes export exactly, in both formats. */
  lemma {:induction false} ImportUndoesExport(wire: Wire, s: Sketches.Sketch, p: nat)
    requires Precision(p) && Sketches.Good(s, p) && Exports(wire, s, p)
    ensures Importable(wire, p) && Trusted(wire, p) && Imported(wire, p) == s
  {
    assert s.Sparse? ==> Elems(s.list) + {} == Elems(s.list);
  }

  /** Dense exports are canonical: the same register map is always shipped as the same bytes. */
  lemma {:induction false} DenseExportCanonical(w: Wire, w': Wire, s: Sketches.Sketch, s': Sketches.Sketch, p: nat)
    requires Precision(p) && Sketches.Good(s, p) && Sketches.Good(s', p)
    requires Exports(w, s, p) && Exports(w', s', p) && s.Dense? && s'.Dense?
    ensures w == w' <==> Sketches.Regs(s, p) == Sketches.Regs(s', p)
  {
    assert Pow2(p) == 4 * Pow2(p - 2);
    hide Pow2, Unpack, Holds, Sketches.Good;
    if Sketches.Regs(s, p) == Sketches.Regs(s', p) {
      UnpackInjective(w.bytes, w'.bytes, Pow2(p));
    }
  }

  /** The dense registers a sparse set is converted to; the set is flushed first. */
  method DenseCopy(sparse: SparseSet, concurrent: bool) returns (dense: DenseSet)
    requires sparse.Valid()
    modifies sparse
    ensures sparse.Valid() && dense.Valid() && dense.precision == sparse.precision
    ensures fresh(dense) && fresh(dense.registers) && fresh(dense.registers.data)
    ensures fresh(dense.registers.sum) && fresh(dense.registers.zeros)
    ensures dense.Regs() == WordRegs(Elems(FlushedList(old(sparse.sortedList), old(sparse.tempSet))), sparse.precision)
  {
    sparse.MergeTempSet();
    dense := new DenseSet(sparse.precision, concurrent);
    ghost var zeros := dense.Regs();
    hide WordRegs, DenseSet.Regs, FlushedList, Elems;
    sparse.MergeIntoDense(dense);
    PointMaxZero(WordRegs(Elems(sparse.sortedList), sparse.precision), zeros);
  }

  datatype Format = FormatSparse | FormatDense

  class HllppSet {
    const precision: nat
    const concurrent: bool
    var format: Format
    var denseSet: DenseSet?
    var sparseSet: SparseSet?
    ghost var Repr: set<object>

    ghost predicate Valid()
      reads this, Repr
      ensures Valid() ==> this in Repr
    {
      && this in Repr
      && Precision(precision)
      && match format
         case FormatSparse =>
           && denseSet == null && sparseSet != null && sparseSet.precision == precision
           && Repr == {this, sparseSet}
           && sparseSet.Valid()
         case FormatDense =>
           && sparseSet == null && denseSet != null && denseSet.precision == precision
           && Repr == {this, denseSet.registers.data, denseSet.registers.sum, denseSet.registers.zeros}
           && denseSet.Valid()
    }

    ghost function View(): (s: Sketches.Sketch)
      requires Valid()
      reads this, Repr
      ensures Sketches.Good(s, precision)
    {
      match format
      case FormatSparse => Sketches.Sparse(sparseSet.sortedList, sparseSet.tempSet)
      case FormatDense => Sketches.Dense(denseSet.Regs())
    }

    constructor (precision: nat, concurrent: bool)
      requires Precision(precision)
      ensures Valid() && fresh(Repr) && this.precision == precision
      ensures View() == Sketches.Empty
    {
      this.precision, this.concurrent := precision, concurrent;
      var s := new SparseSet(precision);
      format, denseSet, sparseSet := FormatSparse, null, s;
      Repr := {this, s};
    }

    method Insert(hash: Hash)
      requires Valid()
      modifies Repr
      ensures Valid() && fresh(Repr - old(Repr))
      ensures View() == Sketches.Insert(old(View()), hash, precision)
    {
      hide Pow2, Encode, DenseEntry, RecordEntry, FirstByte, SetMax, FlushedList, WordRegs, AllGenuine;
      hide DenseSet.Valid, DenseSet.Regs, SparseSet.Valid, Sketches.Good, Sketches.Densify;
      if format == FormatSparse {
        sparseSet.Insert(hash);
        var m, p := Pow2(precision), precision;
        var denseSizeBits, bitsPerSparseEntry := m * 6, p + 6 + 5;
        var currentSparseSizeBits := |sparseSet.sortedList| * bitsPerSparseEntry;
        if currentSparseSizeBits >= denseSizeBits {
          ConvertToDense();
        }
      } else {
        denseSet.Insert(hash);
      }
    }

    /** Flushes, copies the list into new dense registers and switches the format. */
    method ConvertToDense()
      requires Valid() && format == FormatSparse
      modifies Repr
      ensures Valid() && fresh(Repr - old(Repr)) && format == FormatDense
      ensures View() == Sketches.Densify(old(View()), precision)
    {
      hide DenseSet.Valid, DenseSet.Regs, Registers.Valid, Pow2, FlushedList, Elems, WordRegs, Sketches.Good, AllGenuine, SparseSet.Valid;
      var dense := DenseCopy(sparseSet, concurrent);
      assert old(View()) == Sketches.Sparse(old(sparseSet.sortedList), old(sparseSet.tempSet));
      format := FormatDense;
      denseSet := dense;
      sparseSet := null;
      Repr := {this, dense.registers.data, dense.registers.sum, dense.registers.zeros};
    }

    method GetElements(est: Estimators) returns (count: nat)
      requires Valid()
      modifies Repr
      ensures Valid() && Repr == old(Repr)
      ensures View() == Sketches.Flush(old(View())) && count == Sketches.Estimate(est, View(), precision)
    {
      hide SumOf, ZerosIn, SparseCount, FlushedList;
      if format == FormatSparse {
        count := sparseSet.GetElements(est);
      } else {
        count := denseSet.GetElements(est);
      }
    }

    method Reset()
      requires Valid()
      modifies Repr
      ensures Valid() && Repr == old(Repr)
      ensures View() == Sketches.Reset(old(View()), precision)
    {
      if format == FormatSparse {
        sparseSet.Reset();
      } else {
        denseSet.Reset();
      }
    }

    // ----- MergeSets, by the formats of receiver and argument -----

    ghost predicate Separate(other: HllppSet)
      reads this, other
    {
      Repr !! other.Repr
    }

    method MergeDenseDense(other: HllppSet)
      requires Valid() && other.Valid() && other.precision == precision && Separate(other)
      requires format == FormatDense && other.format == FormatDense
      modifies Repr
      ensures Valid() && Repr == old(Repr)
      ensures View() == Sketches.Merge(old(View()), old(other.View()), precision)
    {
      hide DenseSet.Valid, DenseSet.Regs, Sketches.Good;
      denseSet.Merge(other.denseSet);
    }

    method MergeSparseSparse(other: HllppSet)
      requires Valid() && other.Valid() && other.precision == precision && Separate(other)
      requires format == FormatSparse && other.format == FormatSparse
      modifies Repr, other.Repr
      ensures Valid() && fresh(Repr - old(Repr)) && other.Valid() && other.Repr == old(other.Repr)
      ensures View() == Sketches.Merge(old(View()), old(other.View()), precision)
      ensures other.View() == Sketches.Merged(old(other.View()))
    {
      hide AllGenuine, FlushedList, MergeLists, Sketches.Good, SparseSet.Valid, DenseSet.Valid, DenseSet.Regs;
      var sparse1, sparse2 := sparseSet, other.sparseSet;
      sparse1.MergeTempSet();
      sparse2.MergeTempSet();
      sparse1.MergeSparse(sparse2);
      var m, p := Pow2(precision), precision;
      var denseSizeBits, bitsPerSparseEntry := m * 6, p + 6 + 5;
      var currentSparseSizeBits := |sparse1.sortedList| * bitsPerSparseEntry;
      if currentSparseSizeBits >= denseSizeBits {
        ConvertToDense();
      }
    }

    method MergeSparseDense(other: HllppSet)
      requires Valid() && other.Valid() && other.precision == precision && Separate(other)
      requires format == FormatSparse && other.format == FormatDense
      modifies Repr
      ensures Valid() && fresh(Repr - old(Repr))
      ensures View() == Sketches.Merge(old(View()), old(other.View()), precision)
    {
      hide DenseSet.Valid, DenseSet.Regs, Sketches.Good, AllGenuine, FlushedList, WordRegs;
      ConvertToDense();
      denseSet.Merge(other.denseSet);
    }

    method MergeDenseSparse(other: HllppSet)
      requires Valid() && other.Valid() && other.precision == precision && Separate(other)
      requires format == FormatDense && other.format == FormatSparse
      modifies Repr, other.Repr
      ensures Valid() && Repr == old(Repr) && other.Valid() && other.Repr == old(other.Repr)
      ensures View() == Sketches.Merge(old(View()), old(other.View()), precision)
      ensures other.View() == Sketches.Merged(old(other.View()))
    {
      hide DenseSet.Valid, DenseSet.Regs, Sketches.Good, AllGenuine, FlushedList, WordRegs;
      var sparse := other.sparseSet;
      sparse.MergeTempSet();
      sparse.MergeIntoDense(denseSet);
    }

    /** Merges `other` into this sketch. Fails only on a nil argument; merging a sketch with itself
        does nothing. Of the argument only the waiting words move into its list. */
    method MergeSets(other: HllppSet?) returns (ok: bool)
      requires Valid()
      requires other != null && other != this ==> other.Valid() && other.precision == precision && Separate(other)
      modifies Repr, if other == null then {} else other.Repr
      ensures Valid() && fresh(Repr - old(Repr)) && (ok <==> other != null)
      ensures other == null || other == this ==> View() == old(View())
      ensures other != null && other != this ==>
                && other.Valid() && other.Repr == old(other.Repr) && Separate(other)
                && View() == Sketches.Merge(old(View()), old(other.View()), precision)
                && other.View() == Sketches.Merged(old(other.View()))
    {
      hide DenseSet.Valid, DenseSet.Regs, SparseSet.Valid, Sketches.Good, Sketches.Merge, FlushedList;
      if other == null {
        return false;
      }
      if this == other {
        return true;
      }
      if format == FormatDense && other.format == FormatDense {
        MergeDenseDense(other);
      } else if format == FormatSparse && other.format == FormatSparse {
        MergeSparseSparse(other);
      } else if format == FormatSparse && other.format == FormatDense {
        MergeSparseDense(other);
      } else {
        MergeDenseSparse(other);
      }
      return true;
    }

    // ----- shipping -----

    /** Exports the flushed list or a copy of the packed registers, with both precisions. */
    method ExportSketch() returns (wire: Wire, p: nat, pPrime: nat)
      requires Valid()
      modifies Repr
      ensures Valid() && Repr == old(Repr) && p == precision && pPrime == P_PRIME
      ensures View() == Sketches.Flush(old(View())) && Exports(wire, View(), precision)
    {
      p, pPrime := precision, P_PRIME;
      if format == FormatSparse {
        sparseSet.MergeTempSet();
        wire := SparseData(sparseSet.sortedList);
      } else {
        var bytes := denseSet.GetRegisters();
        wire := DenseData(bytes);
      }
    }

    /** NewHllppSetFromSketch: null stands for the error return. Registers are checked for their
        length only; word lists are not checked, so the sketch is valid only if its words are. */
    static method FromSketch(wire: Wire, precision: nat) returns (r: HllppSet?)
      requires Precision(precision)
      ensures r != null <==> Importable(wire, precision)
      ensures r != null ==> fresh(r) && fresh(r.Repr) && r.precision == precision
      ensures r != null ==> (r.Valid() <==> Trusted(wire, precision))
      ensures r != null && wire.SparseData? ==> r.HoldsList(wire.list)
      ensures r != null && Trusted(wire, precision) ==> r.View() == Imported(wire, precision)
    {
      hide DenseSet.Valid, DenseSet.Regs, SparseSet.Valid, Sketches.Good, AllGenuine, Unpack, Holds, PackedLength, Pow2;
      if wire.SparseData? {
        r := new HllppSet.FromList(wire.list, precision);
      } else if wire.DenseData? {
        var dense := new DenseSet(precision, true);
        var ok := dense.SetRegisters(wire.bytes);
        if !ok {
          return null;
        }
        r := new HllppSet.FromDense(dense, precision);
      } else {
        return null;
      }
    }

    /** A sparse sketch of exactly these words. */
    ghost predicate HoldsList(list: seq<Word>)
      reads this, sparseSet
    {
      format == FormatSparse && sparseSet != null && sparseSet.sortedList == list && sparseSet.tempSet == {}
    }

    constructor FromList(list: seq<Word>, precision: nat)
      requires Precision(precision)
      ensures fresh(Repr) && this.precision == precision && HoldsList(list)
      ensures Valid() <==> AllGenuine(Elems(list), precision)
    {
      this.precision, concurrent := precision, true;
      var s := new SparseSet(precision);
      s.SetSortedList(list);
      format, denseSet, sparseSet := FormatSparse, null, s;
      Repr := {this, s};
    }

    constructor FromDense(dense: DenseSet, precision: nat)
      requires dense.Valid() && dense.precision == precision
      ensures Valid() && View() == Sketches.Dense(dense.Regs()) && this.precision == precision
      ensures Repr == {this, dense.registers.data, dense.registers.sum, dense.registers.zeros}
    {
      this.precision, concurrent := precision, true;
      format, denseSet, sparseSet := FormatDense, dense, null;
      Repr := {this, dense.registers.data, dense.registers.sum, dense.registers.zeros};
    }
  }
}
