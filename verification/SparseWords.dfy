/** The packed words of the sparse representation at the fixed p' = 25: what
    `decodeHashForMerge` (types/sparse/sparse.go) reads off a word, and which words
    `EncodeHash` can produce. */
module SparseWords {
  import opened Bits
  import opened Codec

  /** The precisions with p < p' whose rho values fit into six bits. */
  predicate Precision(p: int) {
    2 <= p < P_PRIME
  }

  function Encode(x: Hash, p: nat): Word
    requires Precision(p)
  {
    EncodeHash(x, p, P_PRIME)
  }

  function Decode(k: Word, p: nat): Entry
    requires Precision(p)
  {
    DecodeHash(k, p, P_PRIME)
  }

  function IndexOf(k: Word): nat {
    if k % 2 == 1 then k / 128 else k / 2
  }

  function RhoOf(k: Word): nat {
    if k % 2 == 1 then k / 2 % 64 else 0
  }

  /** The shape of a word built by `EncodeHash`: a flagged word has an all-zero zone and the rho
      of the 39 bits below the index; a plain word has a non-zero zone. */
  predicate Genuine(k: Word, p: nat)
    requires Precision(p)
  {
    && IndexOf(k) < 0x200_0000
    && if k % 2 == 1 then Low(IndexOf(k), P_PRIME - p) == 0 && 1 <= RhoOf(k) <= 40
       else Low(IndexOf(k), P_PRIME - p) != 0
  }

  lemma {:induction false} FlaggedFields(idx: nat, rho: nat)
    requires idx < 0x200_0000 && rho < 64
    ensures FlaggedWord(idx, rho) % 2 == 1
    ensures IndexOf(FlaggedWord(idx, rho)) == idx && RhoOf(FlaggedWord(idx, rho)) == rho
  {
    var k := FlaggedWord(idx, rho);
    assert k == idx * 128 + rho * 2 + 1;
    assert k / 2 == idx * 64 + rho;
  }

  lemma {:induction false} PlainFields(idx: nat)
    requires idx < 0x200_0000
    ensures PlainWord(idx) % 2 == 0
    ensures IndexOf(PlainWord(idx)) == idx && RhoOf(PlainWord(idx)) == 0
  {
    assert PlainWord(idx) == idx * 2;
  }

  lemma {:induction false} EncodeFields(x: Hash, p: nat)
    requires Precision(p)
    ensures IndexPPrime(x, P_PRIME) < 0x200_0000
    ensures Encode(x, p) == if Low(IndexPPrime(x, P_PRIME), P_PRIME - p) == 0
                            then FlaggedWord(IndexPPrime(x, P_PRIME), Rho(Low(x, 39), 39))
                            else PlainWord(IndexPPrime(x, P_PRIME))
  {
    Pow2Values();
  }

  lemma {:induction false} EncodeIsGenuine(x: Hash, p: nat)
    requires Precision(p)
    ensures Genuine(Encode(x, p), p) && IndexOf(Encode(x, p)) == IndexPPrime(x, P_PRIME)
  {
    var idx := IndexPPrime(x, P_PRIME);
    EncodeFields(x, p);
    if Low(idx, P_PRIME - p) == 0 {
      FlaggedFields(idx, Rho(Low(x, 39), 39));
    } else {
      PlainFields(idx);
    }
  }

  /** A hash with the given upper 25 and lower 39 bits. */
  lemma {:induction false} HashWith(idx: nat, low: nat, n: nat) returns (x: Hash)
    requires idx < 0x200_0000 && low < Pow2(n) && n == 39
    ensures IndexPPrime(x, P_PRIME) == idx && Low(x, n) == low
  {
    Pow2Values();
    ShrLowJoin(idx, low, n);
    assert idx * Pow2(n) + low < TWO64;
    x := idx * Pow2(n) + low;
  }

  lemma {:induction false} LowWithRho(r: nat, n: nat) returns (low: Hash)
    requires 0 < n < 64 && 1 <= r <= n + 1
    ensures low < Pow2(n) && Rho(low, n) == r
  {
    if r == n + 1 {
      low := 0;
    } else {
      Pow2Monotone(n - r + 1, n);
      Pow2Monotone(n, 64);
      Pow2Values();
      low := Pow2(n - r);
    }
    LowSmall(low, n);
    RhoMeaning(low, n, r);
  }

  /** The genuine words are exactly the image of `EncodeHash`. */
  lemma {:induction false} GenuineIffEncoded(k: Word, p: nat)
    requires Precision(p)
    ensures Genuine(k, p) <==> exists x: Hash :: Encode(x, p) == k
  {
    forall x: Hash | Encode(x, p) == k ensures Genuine(k, p) {
      EncodeIsGenuine(x, p);
    }
    if Genuine(k, p) {
      var x := HashOf(k, p);
      assert Encode(x, p) == k;
    }
  }

  lemma {:induction false} WordOfFields(k: Word, p: nat)
    requires Precision(p) && Genuine(k, p)
    ensures k == if k % 2 == 1 then FlaggedWord(IndexOf(k), RhoOf(k)) else PlainWord(IndexOf(k))
    ensures k % 2 == 1 <==> Low(IndexOf(k), P_PRIME - p) == 0
  {}

  lemma {:induction false} HashOf(k: Word, p: nat) returns (x: Hash)
    requires Precision(p) && Genuine(k, p)
    ensures Encode(x, p) == k
  {
    WordOfFields(k, p);
    var r := if k % 2 == 1 then RhoOf(k) else 1;
    assert 1 <= r <= 40 && IndexOf(k) < 0x200_0000;
    hide *;
    var low := LowWithRho(r, 39);
    x := HashWith(IndexOf(k), low, 39);
    EncodeFields(x, p);
  }

  lemma {:induction false} DecodeFields(k: Word, p: nat)
    requires Precision(p)
    ensures Decode(k, p) == Entry(Shr(IndexOf(k), P_PRIME - p),
                                  if k % 2 == 1 then RhoOf(k) + (P_PRIME - p)
                                  else Rho(Low(IndexOf(k), P_PRIME - p), P_PRIME - p))
  {
    hide Shr, Low, Rho;
  }

  /** Every genuine word names a register below 2^p and a rho that fits into it. */
  lemma {:induction false} DecodeGenuine(k: Word, p: nat)
    requires Precision(p) && Genuine(k, p)
    ensures Decode(k, p).index < Pow2(p) && 1 <= Decode(k, p).rho <= 65 - p
  {
    var idx, z := IndexOf(k), P_PRIME - p;
    WordOfFields(k, p);
    DecodeFields(k, p);
    assert idx < 0x200_0000 && (k % 2 == 1 ==> 1 <= RhoOf(k) <= 40);
    hide *;
    Pow2Values();
    ShrBound(idx, p, z);
    if k % 2 == 0 {
      RhoIsBitLength(Low(idx, z), z);
    }
  }

  lemma {:induction false} IndexFits(idx: nat, p: nat, z: nat)
    ensures Shr(idx, z) < Pow2(p) <==> idx < Pow2(p + z)
  {
    Pow2Add(p, z);
    ShrLowRejoin(idx, z);
    LowBound(idx, z);
    if idx < Pow2(p + z) {
      ShrBound(idx, p, z);
    } else {
      if Shr(idx, z) < Pow2(p) {
        LargerQuotient(Shr(idx, z), Pow2(p) - Shr(idx, z), Low(idx, z), Pow2(z));
      }
    }
  }

  /** Which words, genuine or not, the dense registers take without a panic when they are decoded. */
  lemma {:induction false} StorableIff(k: Word, p: nat)
    requires Precision(p)
    ensures Decode(k, p).index < Pow2(p) && Decode(k, p).rho <= 63 <==>
            if k % 2 == 1 then RhoOf(k) <= 38 + p else IndexOf(k) < 0x200_0000
  {
    var z := P_PRIME - p;
    DecodeFields(k, p);
    hide *;
    Pow2Values();
    IndexFits(IndexOf(k), p, z);
    if k % 2 == 0 {
      RhoIsBitLength(Low(IndexOf(k), z), z);
    } else {
      FlaggedIndexFits(k);
    }
  }

  lemma {:induction false} FlaggedIndexFits(k: Word)
    requires k % 2 == 1
    ensures IndexOf(k) < 0x200_0000
  {}

  /** What `EncodeHash` stores is what the dense path would store. */
  lemma {:induction false} CodecAgrees(x: Hash, p: nat)
    requires Precision(p)
    ensures Genuine(Encode(x, p), p) && Decode(Encode(x, p), p) == DenseEntry(x, p)
  {
    EncodeIsGenuine(x, p);
    EncodeFields(x, p);
    hide *;
    assert LossFree(x, p, P_PRIME) by { Fits(x, p); }
    CodecAgreesIff(x, p, P_PRIME);
  }

  lemma {:induction false} Fits(x: Hash, p: nat)
    requires Precision(p) && IndexPPrime(x, P_PRIME) < 0x200_0000
    ensures LossFree(x, p, P_PRIME)
  {}

  /** Two genuine words with the same p'-index have the same flag, so comparing the stored rho'
      compares the rho values they decode to. */
  lemma {:induction false} SameIndexOrder(k: Word, l: Word, p: nat)
    requires Precision(p) && Genuine(k, p) && Genuine(l, p)
    requires IndexOf(k) == IndexOf(l) && RhoOf(k) <= RhoOf(l)
    ensures Decode(k, p).index == Decode(l, p).index && Decode(k, p).rho <= Decode(l, p).rho
  {
    WordOfFields(k, p);
    WordOfFields(l, p);
    DecodeFields(k, p);
    DecodeFields(l, p);
    hide *;
  }
}
