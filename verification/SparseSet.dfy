/** The sparse set of types/sparse/sparse.go: a merged list of packed words and an unsorted set of
    words waiting to be merged. Its locks are erased, so each method is one step. */
module SparseHll {
  import opened Bits
  import opened Codec
  import opened Counters
  import opened SparseWords
  import opened RegisterMap
  import opened SparseLists
  import opened DenseHll

  /** The slice of a set's words that sort.Slice leaves in increasing order. */
  method SortWords(ks: set<Word>) returns (s: seq<Word>)
    ensures s == SortedWords(ks)
  {
    var rest := ks;
    s := [];
    while rest != {}
      invariant rest <= ks && Ascending(s) && Elems(s) == ks - rest
      decreases rest
    {
      var k :| k in rest;
      assert k !in Elems(s);
      s := InsertWord(s, k);
      rest := rest - {k};
    }
    AscendingUnique(s, SortedWords(ks));
  }

  lemma {:induction false} MergeStep(a: seq<Word>, b: seq<Word>, i: nat, j: nat)
    requires i < |a| && j < |b|
    ensures MergeLists(a[i..], b[j..]) ==
            if IndexOf(a[i]) < IndexOf(b[j]) then [a[i]] + MergeLists(a[i + 1..], b[j..])
            else if IndexOf(b[j]) < IndexOf(a[i]) then [b[j]] + MergeLists(a[i..], b[j + 1..])
            else if RhoOf(a[i]) >= RhoOf(b[j]) then [a[i]] + MergeLists(a[i + 1..], b[j + 1..])
            else [b[j]] + MergeLists(a[i + 1..], b[j + 1..])
  {
    assert a[i..][1..] == a[i + 1..] && b[j..][1..] == b[j + 1..];
  }

  lemma {:induction false} AppendStep(s: seq<Word>, k: Word, rest: seq<Word>)
    ensures s + ([k] + rest) == (s + [k]) + rest
  {}

  lemma {:induction false} MergeEnd(a: seq<Word>, b: seq<Word>)
    requires a == [] || b == []
    ensures MergeLists(a, b) == a + b
  {}

  /** The merge loop shared by mergeTempSetNoLock (where `a` holds the newer words, which win a
      tie) and MergeSparseNoOuterLock (where the receiver's words do). */
  method MergeLoop(a: seq<Word>, b: seq<Word>) returns (newList: seq<Word>)
    ensures newList == MergeLists(a, b)
  {
    hide MergeLists, IndexOf, RhoOf;
    newList := [];
    var i, j := 0, 0;
    assert a[0..] == a && b[0..] == b;
    while i < |a| && j < |b|
      invariant i <= |a| && j <= |b|
      invariant newList + MergeLists(a[i..], b[j..]) == MergeLists(a, b)
    {
      MergeStep(a, b, i, j);
      var idx1, idx2 := IndexOf(a[i]), IndexOf(b[j]);
      if idx1 < idx2 {
        AppendStep(newList, a[i], MergeLists(a[i + 1..], b[j..]));
        newList := newList + [a[i]];
        i := i + 1;
      } else if idx2 < idx1 {
        AppendStep(newList, b[j], MergeLists(a[i..], b[j + 1..]));
        newList := newList + [b[j]];
        j := j + 1;
      } else {
        AppendStep(newList, if RhoOf(a[i]) >= RhoOf(b[j]) then a[i] else b[j], MergeLists(a[i + 1..], b[j + 1..]));
        if RhoOf(a[i]) >= RhoOf(b[j]) {
          newList := newList + [a[i]];
        } else {
          newList := newList + [b[j]];
        }
        i, j := i + 1, j + 1;
      }
    }
    MergeEnd(a[i..], b[j..]);
    assert newList + (a[i..] + b[j..]) == (newList + a[i..]) + b[j..];
    newList := newList + a[i..];
    newList := newList + b[j..];
  }

  /** The list after the temporary words have been merged into it. */
  ghost function FlushedList(list: seq<Word>, temp: set<Word>): seq<Word> {
    MergeLists(SortedWords(temp), list)
  }

  /** The estimate from a list of `n` words: linear counting in the 2^25 p'-indices. */
  function SparseCount(est: Estimators, n: nat): nat {
    if n == 0 then 0 else est.linear(Pow2(P_PRIME), (Pow2(P_PRIME) - n) % TWO64)
  }

  class SparseSet {
    const precision: nat
    var sortedList: seq<Word>
    var tempSet: set<Word>

    ghost predicate Valid()
      reads this
    {
      Precision(precision) && AllGenuine(Elems(sortedList) + tempSet, precision)
    }

    constructor (precision: nat)
      requires Precision(precision)
      ensures Valid() && this.precision == precision && sortedList == [] && tempSet == {}
    {
      this.precision := precision;
      sortedList, tempSet := [], {};
    }

    method Insert(hash: Hash)
      requires Valid()
      modifies this
      ensures Valid()
      ensures var temp := old(tempSet) + {Encode(hash, precision)};
        if |temp| >= Pow2(precision) / 8
        then sortedList == FlushedList(old(sortedList), temp) && tempSet == {}
        else sortedList == old(sortedList) && tempSet == temp
    {
      var encodedValue := Encode(hash, precision);
      CodecAgrees(hash, precision);
      var m := Pow2(precision);
      var mergeTrigger := m / 8;
      tempSet := tempSet + {encodedValue};
      if |tempSet| >= mergeTrigger {
        MergeTempSet();
      }
    }

    method MergeTempSet()
      requires Valid()
      modifies this
      ensures Valid()
      ensures sortedList == FlushedList(old(sortedList), old(tempSet)) && tempSet == {}
    {
      if |tempSet| == 0 {
        return;
      }
      var tempSlice := SortWords(tempSet);
      MergePreservesMap(tempSlice, sortedList, precision);
      var newList := MergeLoop(tempSlice, sortedList);
      sortedList := newList;
      tempSet := {};
    }

    /** Flushes and estimates from the length of the list. */
    method GetElements(est: Estimators) returns (count: nat)
      requires Valid()
      modifies this
      ensures Valid()
      ensures sortedList == FlushedList(old(sortedList), old(tempSet)) && tempSet == {}
      ensures count == SparseCount(est, |sortedList|)
    {
      hide Pow2, FlushedList, AllGenuine;
      var p := Max(P_PRIME, precision);
      var m := Pow2(p);
      MergeTempSet();
      if |sortedList| == 0 {
        return 0;
      }
      count := est.linear(m, (m - |sortedList|) % TWO64);
    }

    /** Both sets have been flushed before; `other` is left alone. */
    method MergeSparse(other: SparseSet)
      requires Valid() && other.Valid() && other.precision == precision
      modifies this
      ensures Valid() && tempSet == old(tempSet)
      ensures sortedList == MergeLists(old(sortedList), old(other.sortedList))
    {
      MergePreservesMap(sortedList, other.sortedList, precision);
      sortedList := MergeLoop(sortedList, other.sortedList);
    }

    /** Raises the dense registers to what the list decodes to; needs no order and never panics. */
    method MergeIntoDense(dense: DenseSet)
      requires Valid() && dense.Valid() && dense.precision == precision
      modifies dense.registers.data, dense.registers.sum, dense.registers.zeros
      ensures dense.Valid()
      ensures dense.Regs() == PointMax(old(dense.Regs()), WordRegs(Elems(sortedList), precision))
    {
      ghost var before := dense.Regs();
      SpecRegsEmpty(precision);
      assert Elems(sortedList[..0]) == {};
      PointMaxZero(before, WordRegs(Elems(sortedList[..0]), precision));
      for i := 0 to |sortedList|
        invariant dense.Valid() && unchanged(this)
        invariant dense.Regs() == PointMax(before, WordRegs(Elems(sortedList[..i]), precision))
      {
        var encoded := sortedList[i];
        assert encoded in Elems(sortedList);
        var e := Decode(encoded, precision);
        DecodeGenuine(encoded, precision);
        WordRegsAdd(Elems(sortedList[..i]), encoded, precision);
        assert Elems(sortedList[..i + 1]) == Elems(sortedList[..i]) + {encoded};
        PointMaxSetMax(before, WordRegs(Elems(sortedList[..i]), precision), e);
        if e.rho > 0 {
          dense.SetRegisterMax(e.index, e.rho);
        }
      }
      assert sortedList[..|sortedList|] == sortedList;
    }

    /** Takes over any list; only genuine words make it a valid one. */
    method SetSortedList(list: seq<Word>)
      requires Precision(precision)
      modifies this
      ensures sortedList == list && tempSet == {}
      ensures Valid() <==> AllGenuine(Elems(list), precision)
    {
      sortedList := list;
      tempSet := {};
      assert Elems(list) + {} == Elems(list);
    }

    method Reset()
      requires Valid()
      modifies this
      ensures Valid() && sortedList == [] && tempSet == {}
    {
      sortedList, tempSet := [], {};
    }
  }
}
