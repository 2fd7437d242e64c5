/** The hash codec of general/helperfunctions.go: `Rho`, `EncodeHash` and `DecodeHash`,
    following section 5.3 of Heule, Nunkesser and Hall, "HyperLogLog in Practice". */
module Codec {
  import opened Bits

  /** The sparse precision p' shared by types/hll and types/sparse. */
  const P_PRIME := 25

  type Hash = x: nat | x < TWO64
  type Word = k: nat | k < TWO32

  /** A register index and the rho recorded for it. */
  datatype Entry = Entry(index: nat, rho: nat)

  /** One plus the number of leading zeros of `w` in a window of `bitLength` bits. */
  function Rho(w: Hash, bitLength: int): (r: nat)
    requires bitLength <= 64
    ensures bitLength <= 0 ==> r == 1
    ensures bitLength > 0 ==> 1 <= r <= bitLength + 1
  {
    if bitLength <= 0 then 1
    else
      var low := if bitLength < 64 then Low(w, bitLength) else w;
      Pow2Values();
      LowBound(w, bitLength);
      BitLengthAtMost(low, bitLength);
      if low == 0 then bitLength + 1
      else
        var leadingZeros64 := 64 - BitLength(low);
        leadingZeros64 - (64 - bitLength) + 1
  }

  lemma {:induction false} RhoIsBitLength(w: Hash, n: nat)
    requires 0 < n <= 64
    ensures Rho(w, n) == n + 1 - BitLength(Low(w, n))
  {
    if n == 64 {
      Pow2Values();
      LowSmall(w, n);
    }
  }

  /** What `Rho` means: r pins down the top r bits of the window, all zeros but the last. */
  lemma {:induction false} RhoMeaning(w: Hash, n: nat, r: nat)
    requires 0 < n <= 64
    ensures Rho(w, n) == r <==>
            || (r == n + 1 && Low(w, n) == 0)
            || (1 <= r <= n && Pow2(n - r) <= Low(w, n) < Pow2(n - r + 1))
  {
    RhoIsBitLength(w, n);
    hide Rho, BitLength, Low, Pow2;
    if r <= n + 1 {
      BitLengthMeaning(Low(w, n), n + 1 - r);
    }
    LowBound(w, n);
    BitLengthMeaning(Low(w, n), n + 1);
  }

  /** Rho of two concatenated bit fields: the upper field decides unless it is all zeros. */
  lemma {:induction false} RhoSplit(w: Hash, a: nat, b: nat)
    requires 0 < a && 0 < b && a + b <= 64
    ensures Rho(w, a + b) == if Low(Shr(w, b), a) != 0 then Rho(Shr(w, b), a) else a + Rho(w, b)
  {
    RhoIsBitLength(w, a + b);
    RhoIsBitLength(w, b);
    RhoIsBitLength(Shr(w, b), a);
    BitLengthSplit(w, a, b);
  }

  // ----- EncodeHash and DecodeHash -----

  /** The parameters for which `EncodeHash` does not panic. */
  predicate CodecRange(p: int, pPrime: int) {
    0 <= p < pPrime <= 32
  }

  function IndexPPrime(x: Hash, pPrime: nat): (idx: Word)
    requires 0 < pPrime <= 32
    ensures idx < Pow2(pPrime)
  {
    Pow2Values();
    ShrBound(x, pPrime, 64 - pPrime);
    Pow2Monotone(pPrime, 32);
    Shr(x, 64 - pPrime)
  }

  /** The low p' - p bits of the p'-bit index. */
  function Zone(x: Hash, p: nat, pPrime: nat): nat
    requires CodecRange(p, pPrime)
  {
    Low(IndexPPrime(x, pPrime), pPrime - p)
  }

  /** uint32 idx << 7 | rho << 1 | 1, where the shift drops the top seven bits. */
  function FlaggedWord(idx: Word, rho: nat): Word
    requires rho <= 0x3F
  {
    idx % 0x200_0000 * 128 + rho * 2 + 1
  }

  /** uint32 idx << 1, where the shift drops the top bit. */
  function PlainWord(idx: Word): Word {
    idx % 0x8000_0000 * 2
  }

  function EncodeHash(x: Hash, p: nat, pPrime: nat): Word
    requires CodecRange(p, pPrime)
  {
    var idx := IndexPPrime(x, pPrime);
    if Zone(x, p, pPrime) == 0 then
      var rho := Rho(Low(x, 64 - pPrime), 64 - pPrime);
      var rhoVal := if rho > 0x3F then 0x3F else rho;
      FlaggedWord(idx, rhoVal)
    else
      PlainWord(idx)
  }

  function DecodeHash(k: Word, p: nat, pPrime: nat): Entry
    requires CodecRange(p, pPrime)
  {
    if k % 2 == 1 then
      var rhoStored := k / 2 % 64;
      Entry(Shr(k / 128, pPrime - p), (rhoStored + (pPrime - p)) % 256)
    else
      Entry(Shr(k / 2, pPrime - p), Rho(Low(k / 2, pPrime - p), pPrime - p))
  }

  /** The register index and rho of the dense path (types/hll/HLL.go). */
  function DenseEntry(x: Hash, p: nat): (e: Entry)
    requires p < 64
    ensures e.index < Pow2(p) && 1 <= e.rho <= 65 - p
  {
    Pow2Values();
    ShrBound(x, p, 64 - p);
    Entry(Shr(x, 64 - p), Rho(Low(x, 64 - p), 64 - p))
  }

  /** Whether the packed word has room for everything `EncodeHash` puts into it. */
  predicate LossFree(x: Hash, p: nat, pPrime: nat)
    requires CodecRange(p, pPrime)
  {
    if Zone(x, p, pPrime) == 0
    then IndexPPrime(x, pPrime) < 0x200_0000 && (pPrime == 1 ==> x != 0)
    else IndexPPrime(x, pPrime) < 0x8000_0000
  }

  lemma {:induction false} LowLow(w: nat, n: nat)
    ensures Low(Low(w, n), n) == Low(w, n)
  {
    LowBound(w, n);
    LowSmall(Low(w, n), n);
  }

  lemma {:induction false} RhoLow(w: Hash, n: nat)
    requires 0 < n <= 64
    ensures Rho(Low(w, n), n) == Rho(w, n)
  {
    LowLow(w, n);
    RhoIsBitLength(w, n);
    RhoIsBitLength(Low(w, n), n);
  }

  /** The dense entry read off the p'-bit index and the bits below it. */
  lemma {:induction false} DenseEntrySplit(x: Hash, p: nat, pPrime: nat)
    requires CodecRange(p, pPrime)
    ensures DenseEntry(x, p).index == Shr(IndexPPrime(x, pPrime), pPrime - p)
    ensures DenseEntry(x, p).rho ==
            if Zone(x, p, pPrime) != 0 then Rho(Zone(x, p, pPrime), pPrime - p)
            else (pPrime - p) + Rho(Low(x, 64 - pPrime), 64 - pPrime)
  {
    hide Rho, Low, Shr, BitLength, Pow2;
    var a, b := pPrime - p, 64 - pPrime;
    assert a + b == 64 - p;
    ShrShr(x, a, b);
    RhoLow(x, a + b);
    RhoLow(x, b);
    RhoLow(IndexPPrime(x, pPrime), a);
    RhoSplit(x, a, b);
  }

  lemma {:induction false} FlaggedBits(kept: nat, rho: nat)
    requires rho < 64
    ensures (kept * 128 + rho * 2 + 1) % 2 == 1 && (kept * 128 + rho * 2 + 1) / 128 == kept
    ensures (kept * 128 + rho * 2 + 1) / 2 % 64 == rho
  {
    assert (kept * 128 + rho * 2 + 1) / 2 == kept * 64 + rho;
  }

  lemma {:induction false} DecodeFlagged(idx: Word, rho: nat, p: nat, pPrime: nat) returns (kept: Word)
    requires CodecRange(p, pPrime) && rho <= 0x3F
    ensures kept <= idx && (kept == idx <==> idx < 0x200_0000)
    ensures DecodeHash(FlaggedWord(idx, rho), p, pPrime) == Entry(Shr(kept, pPrime - p), rho + (pPrime - p))
  {
    hide Shr, Low, Rho;
    kept := idx % 0x200_0000;
    FlaggedBits(kept, rho);
  }

  lemma {:induction false} DecodePlain(idx: Word, p: nat, pPrime: nat) returns (kept: Word)
    requires CodecRange(p, pPrime)
    ensures kept == if idx < 0x8000_0000 then idx else idx - 0x8000_0000
    ensures DecodeHash(PlainWord(idx), p, pPrime) ==
            Entry(Shr(kept, pPrime - p), Rho(Low(kept, pPrime - p), pPrime - p))
  {
    hide Shr, Low, Rho;
    kept := idx % 0x8000_0000;
    var k := PlainWord(idx);
    assert k / 2 == kept && k % 2 == 0;
  }

  /** A smaller index keeps the upper part of one without low bits only if it is the same. */
  lemma {:induction false} Truncation(idx: nat, z: nat, kept: nat)
    requires kept <= idx && Low(idx, z) == 0
    ensures Shr(kept, z) == Shr(idx, z) <==> kept == idx
  {
    if Shr(kept, z) == Shr(idx, z) {
      ShrLeast(kept, idx, z);
    }
  }

  /** The sparse encoding loses nothing of the dense entry exactly when the word has room. */
  lemma {:induction false} CodecAgreesIff(x: Hash, p: nat, pPrime: nat)
    requires CodecRange(p, pPrime)
    ensures DecodeHash(EncodeHash(x, p, pPrime), p, pPrime) == DenseEntry(x, p) <==> LossFree(x, p, pPrime)
  {
    DenseEntrySplit(x, p, pPrime);
    if Zone(x, p, pPrime) == 0 {
      FlaggedAgrees(x, p, pPrime);
    } else {
      PlainAgrees(x, p, pPrime);
    }
  }

  lemma {:induction false} FlaggedAgrees(x: Hash, p: nat, pPrime: nat)
    requires CodecRange(p, pPrime) && Zone(x, p, pPrime) == 0
    ensures DecodeHash(EncodeHash(x, p, pPrime), p, pPrime) == DenseEntry(x, p) <==> LossFree(x, p, pPrime)
  {
    var idx := IndexPPrime(x, pPrime);
    var rho := Rho(Low(x, 64 - pPrime), 64 - pPrime);
    var rhoVal := if rho > 0x3F then 0x3F else rho;
    DenseEntrySplit(x, p, pPrime);
    assert EncodeHash(x, p, pPrime) == FlaggedWord(idx, rhoVal);
    var kept := DecodeFlagged(idx, rhoVal, p, pPrime);
    hide *;
    RhoOverflow(x, p, pPrime);
    Truncation(idx, pPrime - p, kept);
  }

  /** The six stored bits overflow only for the all-zero hash at p' = 1. */
  lemma {:induction false} RhoOverflow(x: Hash, p: nat, pPrime: nat)
    requires CodecRange(p, pPrime) && Zone(x, p, pPrime) == 0
    ensures Rho(Low(x, 64 - pPrime), 64 - pPrime) > 0x3F <==> pPrime == 1 && x == 0
  {
    var w := Low(x, 64 - pPrime);
    RhoLow(x, 64 - pPrime);
    RhoIsBitLength(x, 64 - pPrime);
    if pPrime == 1 {
      ShrLowRejoin(x, 64 - pPrime);
      assert IndexPPrime(x, pPrime) == 0;
    }
  }

  lemma {:induction false} PlainAgrees(x: Hash, p: nat, pPrime: nat)
    requires CodecRange(p, pPrime) && Zone(x, p, pPrime) != 0
    ensures DecodeHash(EncodeHash(x, p, pPrime), p, pPrime) == DenseEntry(x, p) <==> LossFree(x, p, pPrime)
  {
    var idx := IndexPPrime(x, pPrime);
    DenseEntrySplit(x, p, pPrime);
    assert EncodeHash(x, p, pPrime) == PlainWord(idx);
    var kept := DecodePlain(idx, p, pPrime);
    if idx >= 0x8000_0000 {
      Pow2Values();
      TopBitMatters(kept, idx, pPrime - p, 31);
    }
  }

  /** Dropping bit n (bit 31) of an index changes its upper part or the rho of its lower part. */
  lemma {:induction false} TopBitMatters(rest: Word, idx: Word, z: nat, n: nat)
    requires 0 < z <= n + 1 <= 32 && idx == rest + Pow2(n) < Pow2(n + 1)
    ensures Shr(rest, z) != Shr(idx, z) || Rho(Low(rest, z), z) != Rho(Low(idx, z), z)
  {
    if z <= n {
      ShrTop(rest, z, n);
    } else {
      LowSmall(idx, z);
      LowSmall(rest, z);
      RhoMeaning(idx, z, 1);
      RhoMeaning(rest, z, 1);
    }
  }

  lemma {:induction false} TopBit(x: Hash, pPrime: nat)
    requires x == 0x8000_0000_0000_0000 && pPrime == 26
    ensures IndexPPrime(x, pPrime) == 0x200_0000
  {
    var n: nat := 64 - pPrime;
    Pow2Values();
    assert Pow2(n + 1) == 2 * Pow2(n);
    ShrLowJoin(0x200_0000, 0, n);
  }

  lemma {:induction false} NoLowBits(n: nat)
    requires n == 2
    ensures Shr(0, n) == 0 && Shr(0x200_0000, n) == 0x80_0000 && Low(0x200_0000, n) == 0
  {
    assert Pow2(n) == 4;
    ShrLowJoin(0x80_0000, 0, n);
  }

  /** At p = 24 and p' = 26 the hash with only its top bit set comes back in register 0 instead of
      2^23: its index needs 26 bits where a flagged word has 25. */
  lemma {:induction false} LossAbove25(x: Hash, p: nat, pPrime: nat)
    requires x == 0x8000_0000_0000_0000 && p == 24 && pPrime == 26
    ensures !LossFree(x, p, pPrime)
    ensures DecodeHash(EncodeHash(x, p, pPrime), p, pPrime).index == 0
    ensures DenseEntry(x, p).index == 0x80_0000
  {
    hide IndexPPrime, Shr, Low, Rho, DecodeHash, DenseEntry, FlaggedWord;
    TopBit(x, pPrime);
    NoLowBits(pPrime - p);
    DenseEntrySplit(x, p, pPrime);
    var idx, rho := IndexPPrime(x, pPrime), Rho(Low(x, 64 - pPrime), 64 - pPrime);
    assert EncodeHash(x, p, pPrime) == FlaggedWord(idx, rho);
    DecodeOverflow(idx, rho, p, pPrime);
  }

  lemma {:induction false} DecodeOverflow(idx: Word, rho: nat, p: nat, pPrime: nat)
    requires CodecRange(p, pPrime) && rho <= 0x3F && idx == 0x200_0000
    ensures DecodeHash(FlaggedWord(idx, rho), p, pPrime).index == Shr(0, pPrime - p)
  {
    hide Shr, Low, Rho;
    FlaggedBits(0, rho);
  }
}
