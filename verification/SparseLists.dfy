/** The two-pointer merges of types/sparse/sparse.go. They never rely on the lists being ordered:
    the temporary words are sorted as raw numbers, where flagged words carry their index six bits
    higher than plain ones. */
module SparseLists {
  import opened Bits
  import opened Codec
  import opened SparseWords
  import opened RegisterMap

  ghost function Elems(s: seq<Word>): set<Word> {
    set k | k in s
  }

  // ----- sorting the temporary set -----

  predicate Ascending(s: seq<Word>) {
    forall i, j | 0 <= i < j < |s| :: s[i] < s[j]
  }

  function InsertWord(s: seq<Word>, k: Word): (t: seq<Word>)
    requires Ascending(s) && k !in s
    ensures Ascending(t) && Elems(t) == Elems(s) + {k} && |t| == |s| + 1
    ensures s != [] ==> t[0] == k || t[0] == s[0]
  {
    if s == [] || k < s[0] then [k] + s
    else
      var rest := InsertWord(s[1..], k);
      assert Elems(s) == Elems(s[1..]) + {s[0]};
      assert forall i | 0 <= i < |rest| :: rest[i] in Elems(rest);
      assert Elems([s[0]] + rest) == {s[0]} + Elems(rest);
      [s[0]] + rest
  }

  /** The words of the set in increasing numerical order. */
  ghost function SortedWords(ks: set<Word>): (s: seq<Word>)
    ensures Ascending(s) && Elems(s) == ks && |s| == |ks|
  {
    if ks == {} then []
    else
      var k :| k in ks;
      assert k !in Elems(SortedWords(ks - {k}));
      InsertWord(SortedWords(ks - {k}), k)
  }

  lemma {:induction false} AscendingUnique(s: seq<Word>, t: seq<Word>)
    requires Ascending(s) && Ascending(t) && Elems(s) == Elems(t)
    ensures s == t
  {
    assert forall i | 0 <= i < |s| :: s[i] in Elems(t);
    assert forall i | 0 <= i < |t| :: t[i] in Elems(s);
    if s != [] && t != [] {
      assert s[0] == t[0];
      assert Elems(s[1..]) == Elems(s) - {s[0]};
      assert Elems(t[1..]) == Elems(t) - {t[0]};
      AscendingUnique(s[1..], t[1..]);
      assert s == [s[0]] + s[1..] && t == [t[0]] + t[1..];
    }
  }

  // ----- merging -----

  /** Merges by p'-index; of two words with the same index the one with the larger rho' stays,
      the first list's on a tie. */
  function MergeLists(a: seq<Word>, b: seq<Word>): (c: seq<Word>)
    ensures |a| <= |c| <= |a| + |b| && |b| <= |c|
  {
    if a == [] then b
    else if b == [] then a
    else if IndexOf(a[0]) < IndexOf(b[0]) then [a[0]] + MergeLists(a[1..], b)
    else if IndexOf(b[0]) < IndexOf(a[0]) then [b[0]] + MergeLists(a, b[1..])
    else if RhoOf(a[0]) >= RhoOf(b[0]) then [a[0]] + MergeLists(a[1..], b[1..])
    else [b[0]] + MergeLists(a[1..], b[1..])
  }

  /** Some word of `s` has the same p'-index as `k` and no smaller rho'. */
  ghost predicate Covered(k: Word, s: seq<Word>) {
    exists l :: l in s && IndexOf(l) == IndexOf(k) && RhoOf(k) <= RhoOf(l)
  }

  /** A merge invents nothing, and drops a word only in favour of one that covers it. */
  lemma {:induction false} MergeKeeps(a: seq<Word>, b: seq<Word>)
    ensures forall l | l in MergeLists(a, b) :: l in a || l in b
    ensures forall k | k in a || k in b :: Covered(k, MergeLists(a, b))
    decreases |a| + |b|
  {
    var c := MergeLists(a, b);
    if a == [] || b == [] {
      assert c == a + b;
      forall k | k in a || k in b ensures Covered(k, c) { assert k in c; }
    } else {
      var a', b' := if IndexOf(b[0]) < IndexOf(a[0]) then a else a[1..], if IndexOf(a[0]) < IndexOf(b[0]) then b else b[1..];
      MergeKeeps(a', b');
      assert c == [c[0]] + MergeLists(a', b');
      forall k | k in a || k in b ensures Covered(k, c) {
        if k in a' || k in b' {
          assert Covered(k, MergeLists(a', b'));
          var l :| l in MergeLists(a', b') && IndexOf(l) == IndexOf(k) && RhoOf(k) <= RhoOf(l);
          assert l in c;
        } else {
          assert c[0] in c;
        }
      }
    }
  }

  ghost predicate AllGenuine(s: set<Word>, p: nat)
    requires Precision(p)
  {
    forall k | k in s :: Genuine(k, p)
  }

  /** Dropping covered words does not change the register map. */
  lemma {:induction false} MergePreservesMap(a: seq<Word>, b: seq<Word>, p: nat)
    requires Precision(p) && AllGenuine(Elems(a) + Elems(b), p)
    ensures AllGenuine(Elems(MergeLists(a, b)), p)
    ensures WordRegs(Elems(MergeLists(a, b)), p) == WordRegs(Elems(a) + Elems(b), p)
    ensures WordRegs(Elems(MergeLists(a, b)), p) == PointMax(WordRegs(Elems(a), p), WordRegs(Elems(b), p))
  {
    var c := MergeLists(a, b);
    var before, after := WordEntries(Elems(a) + Elems(b), p), WordEntries(Elems(c), p);
    MergeKeeps(a, b);
    forall e | e in after ensures HasAtLeast(before, e) {
      assert e in before;
    }
    forall e | e in before ensures HasAtLeast(after, e) {
      var k: Word :| k in Elems(a) + Elems(b) && e == Decode(k, p);
      assert Covered(k, c);
      var l :| l in c && IndexOf(l) == IndexOf(k) && RhoOf(k) <= RhoOf(l);
      SameIndexOrder(k, l, p);
      assert Decode(l, p) in after;
    }
    MutuallyBelow(after, before, Pow2(p));
    WordRegsUnion(Elems(a), Elems(b), p);
  }

  // ----- when the list really is sorted by index -----

  ghost predicate IndexAscending(s: seq<Word>) {
    forall i, j | 0 <= i < j < |s| :: IndexOf(s[i]) < IndexOf(s[j])
  }

  ghost predicate AllAbove(n: nat, s: seq<Word>) {
    forall k | k in s :: n < IndexOf(k)
  }

  lemma {:induction false} AscendingCons(k: Word, s: seq<Word>)
    ensures IndexAscending([k] + s) <==> IndexAscending(s) && AllAbove(IndexOf(k), s)
  {
    var t := [k] + s;
    if IndexAscending(t) {
      forall i, j | 0 <= i < j < |s| ensures IndexOf(s[i]) < IndexOf(s[j]) {
        assert s[i] == t[i + 1] && s[j] == t[j + 1];
      }
      forall l | l in s ensures IndexOf(k) < IndexOf(l) {
        var j :| 0 <= j < |s| && s[j] == l;
        assert t[0] == k && t[j + 1] == l;
      }
    }
  }

  lemma {:induction false} AscendingSplit(s: seq<Word>)
    requires s != []
    ensures IndexAscending(s) <==> IndexAscending(s[1..]) && AllAbove(IndexOf(s[0]), s[1..])
    ensures forall n: nat | IndexAscending(s) && n < IndexOf(s[0]) :: AllAbove(n, s)
  {
    AscendingCons(s[0], s[1..]);
    assert s == [s[0]] + s[1..];
  }

  lemma {:induction false} AscendingMerged(first: Word, a: seq<Word>, b: seq<Word>)
    requires IndexAscending(MergeLists(a, b)) <==> IndexAscending(a) && IndexAscending(b)
    ensures IndexAscending([first] + MergeLists(a, b)) <==>
            && IndexAscending(a) && AllAbove(IndexOf(first), a)
            && IndexAscending(b) && AllAbove(IndexOf(first), b)
  {
    AscendingCons(first, MergeLists(a, b));
    AboveMerge(IndexOf(first), a, b);
  }

  /** A merge is strictly ordered by p'-index, hence free of duplicate indices, exactly when both
      of its inputs are. */
  lemma {:induction false} MergeSortedIff(a: seq<Word>, b: seq<Word>)
    ensures IndexAscending(MergeLists(a, b)) <==> IndexAscending(a) && IndexAscending(b)
    decreases |a| + |b|
  {
    if a != [] && b != [] {
      AscendingSplit(a);
      AscendingSplit(b);
      hide IndexAscending, AllAbove, IndexOf, RhoOf;
      if IndexOf(a[0]) < IndexOf(b[0]) {
        MergeSortedIff(a[1..], b);
        AscendingMerged(a[0], a[1..], b);
      } else if IndexOf(b[0]) < IndexOf(a[0]) {
        MergeSortedIff(a, b[1..]);
        AscendingMerged(b[0], a, b[1..]);
      } else {
        MergeSortedIff(a[1..], b[1..]);
        AscendingMerged(a[0], a[1..], b[1..]);
        AscendingMerged(b[0], a[1..], b[1..]);
      }
    }
  }

  lemma {:induction false} AboveMerge(n: nat, a: seq<Word>, b: seq<Word>)
    ensures AllAbove(n, MergeLists(a, b)) <==> AllAbove(n, a) && AllAbove(n, b)
  {
    MergeKeeps(a, b);
    if AllAbove(n, MergeLists(a, b)) {
      forall k | k in a || k in b ensures n < IndexOf(k) {
        assert Covered(k, MergeLists(a, b));
      }
    }
  }

  lemma {:induction false} ThreeWords(n: nat)
    requires n == 11
    ensures IndexOf(262147) == IndexOf(262149) == 2048 && IndexOf(6000) == 3000
    ensures Genuine(262147, 25 - n) && Genuine(262149, 25 - n) && Genuine(6000, 25 - n)
  {
    assert Pow2(7) == 128;
    assert Pow2(n) == 2048;
    ShrLowJoin(1, 0, n);
    ShrLowJoin(1, 952, n);
  }

  lemma {:induction false} SortTwo(k: Word, l: Word)
    requires k < l
    ensures SortedWords({k, l}) == [k, l]
  {
    hide SortedWords, InsertWord;
    assert Elems([k, l]) == {k, l};
    AscendingUnique(SortedWords({k, l}), [k, l]);
  }

  lemma {:induction false} MergeThree(a: seq<Word>, b: seq<Word>)
    requires |a| == 2 && |b| == 1 && IndexOf(b[0]) < IndexOf(a[0])
    ensures MergeLists(a, b) == b + a
  {
    assert MergeLists(a, b[1..]) == a;
    assert [b[0]] + a == b + a;
  }

  /** Not every list the code builds is ordered: at p = 14 these three words are encodings of
      hashes, and flushing the two newer ones into a list with the older one keeps all three,
      two of them with index 2048, although the length of the list is used as a count of indices. */
  lemma {:induction false} DuplicateIndexSurvives()
    ensures Genuine(262147, 14) && Genuine(262149, 14) && Genuine(6000, 14)
    ensures MergeLists(SortedWords({6000, 262149}), [262147]) == [262147, 6000, 262149]
    ensures IndexOf(262147) == IndexOf(262149)
  {
    ThreeWords(11);
    hide Genuine, IndexOf, MergeLists, SortedWords;
    SortTwo(6000, 262149);
    MergeThree([6000, 262149], [262147]);
  }

  lemma {:induction false} MoreWords(n: nat)
    requires n == 11
    ensures IndexOf(7000) == 3500 && Genuine(7000, 25 - n)
  {
    assert Pow2(7) == 128;
    assert Pow2(n) == 2048;
    ShrLowJoin(1, 1452, n);
  }

  lemma {:induction false} TwoFlushes(q: Word, r: Word, f: Word)
    requires q < f && r < f && IndexOf(q) < IndexOf(r) && IndexOf(f) < IndexOf(r)
    ensures MergeLists(SortedWords({q, f}), []) == [q, f]
    ensures MergeLists(SortedWords({r, f}), [q, f]) == [q, f, r, f]
  {
    hide IndexOf, SortedWords, MergeLists;
    SortTwo(q, f);
    SortTwo(r, f);
    MergeBehind([q, f], []);
    MergeBehind([r, f], [q, f]);
    assert [q, f] + [r, f] == [q, f, r, f];
  }

  /** ... and not even one word need be there only once: flushing 6000 and 262149 and then 7000 and
      262149 again leaves four words of three. */
  lemma {:induction false} SameWordTwice()
    ensures Genuine(6000, 14) && Genuine(7000, 14) && Genuine(262149, 14)
    ensures MergeLists(SortedWords({6000, 262149}), []) == [6000, 262149]
    ensures MergeLists(SortedWords({7000, 262149}), [6000, 262149]) == [6000, 262149, 7000, 262149]
  {
    ThreeWords(11);
    MoreWords(11);
    hide *;
    TwoFlushes(6000, 7000, 262149);
  }

  lemma {:induction false} MergeBehind(a: seq<Word>, b: seq<Word>)
    requires a != [] && forall k | k in b :: IndexOf(k) < IndexOf(a[0])
    ensures MergeLists(a, b) == b + a
    decreases |b|
  {
    if b == [] {
      assert [] + a == a;
    } else {
      MergeBehind(a, b[1..]);
      assert b[0] in b;
      assert [b[0]] + (b[1..] + a) == b + a;
    }
  }

  // ----- which flushes keep the order -----

  /** Sorted as raw numbers, the two words do not come out in strictly increasing p'-index order:
      flagged words that share an index, or a plain word whose index is at least the one of a
      flagged word but too small to be sorted behind it. */
  predicate Clash(k: Word, l: Word) {
    && k % 2 == 1
    && if l % 2 == 1 then k != l && IndexOf(k) == IndexOf(l)
       else IndexOf(k) <= IndexOf(l) <= 64 * IndexOf(k) + RhoOf(k)
  }

  lemma {:induction false} PairOrder(k: Word, l: Word)
    requires k < l
    ensures IndexOf(k) < IndexOf(l) <==> !Clash(k, l) && !Clash(l, k)
  {
    assert k == 2 * (k / 2) + k % 2 && l == 2 * (l / 2) + l % 2;
    assert k / 128 == k / 2 / 64 && l / 128 == l / 2 / 64;
    assert k / 2 == 64 * (k / 128) + k / 2 % 64 && l / 2 == 64 * (l / 128) + l / 2 % 64;
  }

  /** Sorting a temporary set leaves it in index order exactly when no two of its words clash. */
  lemma {:induction false} SortedOrderIff(temp: set<Word>)
    ensures IndexAscending(SortedWords(temp)) <==> forall k, l | k in temp && l in temp :: !Clash(k, l)
  {
    var s := SortedWords(temp);
    hide SortedWords, Clash, IndexOf;
    if IndexAscending(s) {
      forall k, l | k in temp && l in temp ensures !Clash(k, l) {
        assert k in Elems(s) && l in Elems(s);
        var i, j :| 0 <= i < |s| && 0 <= j < |s| && s[i] == k && s[j] == l;
        NoSelfClash(k);
        if i < j { PairOrder(k, l); } else if j < i { PairOrder(l, k); }
      }
    }
    if forall k, l | k in temp && l in temp :: !Clash(k, l) {
      forall i, j | 0 <= i < j < |s| ensures IndexOf(s[i]) < IndexOf(s[j]) {
        assert s[i] in Elems(s) && s[j] in Elems(s);
        PairOrder(s[i], s[j]);
      }
    }
  }

  lemma {:induction false} NoSelfClash(k: Word)
    ensures !Clash(k, k)
  {}

  /** A flush leaves the list in strict index order exactly when the list was and no two waiting
      words clash. */
  lemma {:induction false} FlushOrderedIff(list: seq<Word>, temp: set<Word>)
    ensures IndexAscending(MergeLists(SortedWords(temp), list)) <==>
            IndexAscending(list) && forall k, l | k in temp && l in temp :: !Clash(k, l)
  {
    MergeSortedIff(SortedWords(temp), list);
    SortedOrderIff(temp);
  }

  // ----- what the length of a list counts -----

  ghost function Indices(s: seq<Word>): set<nat> {
    set k | k in s :: IndexOf(k)
  }

  ghost predicate DistinctIndices(s: seq<Word>) {
    forall i, j | 0 <= i < j < |s| :: IndexOf(s[i]) != IndexOf(s[j])
  }

  lemma {:induction false} DistinctSnoc(s: seq<Word>, k: Word)
    ensures DistinctIndices(s + [k]) <==> DistinctIndices(s) && IndexOf(k) !in Indices(s)
  {
    hide IndexOf;
    var t := s + [k];
    if DistinctIndices(t) {
      forall i, j | 0 <= i < j < |s| ensures IndexOf(s[i]) != IndexOf(s[j]) {
        assert t[i] == s[i] && t[j] == s[j];
      }
      forall l | l in s ensures IndexOf(l) != IndexOf(k) {
        var i :| 0 <= i < |s| && s[i] == l;
        assert t[i] == l && t[|s|] == k;
      }
    }
  }

  /** The length of a list is the number of indices in it exactly when no index occurs twice, and
      too large otherwise. */
  lemma {:induction false} LengthCountsIndices(s: seq<Word>)
    ensures |Indices(s)| <= |s|
    ensures |Indices(s)| == |s| <==> DistinctIndices(s)
  {
    hide IndexOf;
    if s != [] {
      var rest, k := s[..|s| - 1], s[|s| - 1];
      LengthCountsIndices(rest);
      DistinctSnoc(rest, k);
      assert s == rest + [k];
      hide DistinctIndices;
      assert Indices(s) == Indices(rest) + {IndexOf(k)};
      hide Indices;
      assert IndexOf(k) in Indices(rest) ==> Indices(s) == Indices(rest);
    }
  }

  lemma {:induction false} MergeIndices(a: seq<Word>, b: seq<Word>)
    ensures Indices(MergeLists(a, b)) == Indices(a) + Indices(b)
  {
    var c := MergeLists(a, b);
    MergeKeeps(a, b);
    forall n | n in Indices(a) + Indices(b) ensures n in Indices(c) {
      var k :| (k in a || k in b) && IndexOf(k) == n;
      assert Covered(k, c);
    }
  }

  /** When no waiting words clash, the length of a list in order still counts after a flush how many
      different indices the list and the waiting words have. */
  lemma {:induction false} FlushCounts(list: seq<Word>, temp: set<Word>)
    requires IndexAscending(list) && forall k, l | k in temp && l in temp :: !Clash(k, l)
    ensures |MergeLists(SortedWords(temp), list)| == |Indices(SortedWords(temp)) + Indices(list)|
  {
    var c := MergeLists(SortedWords(temp), list);
    FlushOrderedIff(list, temp);
    MergeIndices(SortedWords(temp), list);
    assert DistinctIndices(c);
    LengthCountsIndices(c);
  }
}
