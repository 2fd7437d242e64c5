/** Shifts, masks and bit lengths of unsigned machine words, as functions on naturals. */
module Bits {

  const TWO16 := 0x1_0000
  const TWO32 := 0x1_0000_0000
  const TWO64 := 0x1_0000_0000_0000_0000

  function Max(a: nat, b: nat): nat {
    if a >= b then a else b
  }

  function Pow2(n: nat): (r: nat)
    ensures r > 0
  {
    if n == 0 then 1 else 2 * Pow2(n - 1)
  }

  /** w >> n */
  function Shr(w: nat, n: nat): (q: nat)
    ensures q <= w
    decreases n
  {
    if n == 0 then w else Shr(w / 2, n - 1)
  }

  /** w & ((1 << n) - 1) */
  function Low(w: nat, n: nat): (r: nat)
    ensures r <= w
    decreases n
  {
    if n == 0 then 0 else 2 * Low(w / 2, n - 1) + w % 2
  }

  /** math/bits.Len64: the number of bits of `w` without its leading zeros. */
  function BitLength(w: nat): nat {
    if w == 0 then 0 else 1 + BitLength(w / 2)
  }

  lemma {:induction false} AtLeastOnce(k: nat, m: nat)
    requires k > 0
    ensures k * m >= m
  {}

  lemma {:induction false} LargerQuotient(q: nat, d: nat, r: nat, m: nat)
    requires d > 0 && r < m
    ensures q * m + r < (q + d) * m
  {
    AtLeastOnce(d, m);
    assert (q + d) * m == q * m + d * m;
  }

  /** Quotient and remainder are determined by what they add up to. */
  lemma {:induction false} SameRemainder(q: nat, q': nat, r: nat, r': nat, m: nat)
    requires q * m + r == q' * m + r' && r < m && r' < m
    ensures r == r'
  {
    if q < q' {
      LargerQuotient(q, q' - q, r, m);
    } else if q' < q {
      LargerQuotient(q', q - q', r', m);
    }
  }

  lemma {:induction false} WrapFields(a: nat, qb: nat, rb: nat, q: nat, r: nat, q': nat, r': nat, m: nat)
    requires a + rb == q * m + r && a + (qb * m + rb) == q' * m + r' && r < m && r' < m
    ensures r == r'
  {
    assert (q + qb) * m == q * m + qb * m;
    SameRemainder(q + qb, q', r, r', m);
  }

  /** Wrapping around early or late makes no difference. */
  lemma {:induction false} WrapAdd(a: nat, b: nat, m: nat)
    requires m > 0
    ensures (a + b % m) % m == (a + b) % m
  {
    WrapFields(a, b / m, b % m, (a + b % m) / m, (a + b % m) % m, (a + b) / m, (a + b) % m, m);
  }

  lemma {:induction false} LowBound(w: nat, n: nat)
    ensures Low(w, n) < Pow2(n)
    decreases n
  {
    if n != 0 {
      LowBound(w / 2, n - 1);
    }
  }

  lemma {:induction false} BitLengthBounds(w: nat)
    requires w > 0
    ensures BitLength(w) > 0 && Pow2(BitLength(w) - 1) <= w < Pow2(BitLength(w))
  {
    if w > 1 {
      BitLengthBounds(w / 2);
    }
  }

  /** The bit length is the k with 2^(k-1) <= w < 2^k, zero for w = 0. */
  lemma {:induction false} BitLengthMeaning(w: nat, k: nat)
    ensures BitLength(w) == k <==> if k == 0 then w == 0 else Pow2(k - 1) <= w < Pow2(k)
  {
    var b := BitLength(w);
    if w > 0 {
      BitLengthBounds(w);
      if 0 < k < b {
        Pow2Monotone(k, b - 1);
      } else if b < k {
        Pow2Monotone(b, k - 1);
      }
    }
  }

  /** The two halves of a word determine it. */
  lemma {:induction false} ShrLowRejoin(w: nat, n: nat)
    ensures w == Shr(w, n) * Pow2(n) + Low(w, n)
    decreases n
  {
    if n != 0 {
      ShrLowRejoin(w / 2, n - 1);
      assert Shr(w, n) * Pow2(n) == 2 * (Shr(w / 2, n - 1) * Pow2(n - 1));
    }
  }

  /** ... and any two halves can be put together. */
  lemma {:induction false} ShrLowJoin(hi: nat, lo: nat, n: nat)
    requires lo < Pow2(n)
    ensures Shr(hi * Pow2(n) + lo, n) == hi && Low(hi * Pow2(n) + lo, n) == lo
    decreases n
  {
    if n != 0 {
      var high := hi * Pow2(n - 1);
      assert hi * Pow2(n) == 2 * high;
      assert (2 * high + lo) / 2 == high + lo / 2 && (2 * high + lo) % 2 == lo % 2;
      ShrLowJoin(hi, lo / 2, n - 1);
    }
  }

  lemma {:induction false} ShrShr(w: nat, a: nat, b: nat)
    ensures Shr(w, a + b) == Shr(Shr(w, b), a)
    decreases b
  {
    if b != 0 {
      ShrShr(w / 2, a, b - 1);
    }
  }

  lemma {:induction false} ShrBound(w: nat, a: nat, b: nat)
    requires w < Pow2(a + b)
    ensures Shr(w, b) < Pow2(a)
    decreases b
  {
    if b != 0 {
      ShrBound(w / 2, a, b - 1);
    }
  }

  /** Adding a bit at position n or above shows in what is left after shifting by z <= n. */
  lemma {:induction false} ShrTop(w: nat, z: nat, n: nat)
    requires z <= n
    ensures Shr(w + Pow2(n), z) == Shr(w, z) + Pow2(n - z)
    decreases z
  {
    if z != 0 {
      assert (w + Pow2(n)) / 2 == w / 2 + Pow2(n - 1);
      ShrTop(w / 2, z - 1, n - 1);
    }
  }

  lemma {:induction false} LowSmall(w: nat, n: nat)
    requires w < Pow2(n)
    ensures Low(w, n) == w
    decreases n
  {
    if n != 0 {
      LowSmall(w / 2, n - 1);
    }
  }

  /** A word without low bits is the least one with its high bits. */
  lemma {:induction false} ShrLeast(a: nat, b: nat, n: nat)
    requires Shr(a, n) == Shr(b, n) && Low(b, n) == 0
    ensures b <= a
    decreases n
  {
    if n != 0 {
      ShrLeast(a / 2, b / 2, n - 1);
    }
  }

  /** Bit length of two adjacent fields: the upper one decides unless it is zero. */
  lemma {:induction false} BitLengthSplit(w: nat, a: nat, b: nat)
    ensures BitLength(Low(w, a + b)) ==
            if Low(Shr(w, b), a) != 0 then b + BitLength(Low(Shr(w, b), a)) else BitLength(Low(w, b))
    decreases b
  {
    if b != 0 {
      BitLengthSplit(w / 2, a, b - 1);
      assert Low(w, a + b) / 2 == Low(w / 2, a + (b - 1));
      assert Low(w, b) / 2 == Low(w / 2, b - 1);
    }
  }

  lemma {:induction false} Pow2Monotone(a: nat, b: nat)
    requires a <= b
    ensures Pow2(a) <= Pow2(b)
    decreases b
  {
    if a < b {
      Pow2Monotone(a, b - 1);
    }
  }

  lemma {:induction false} BitLengthAtMost(w: nat, n: nat)
    requires w < Pow2(n)
    ensures BitLength(w) <= n
  {
    if w != 0 {
      BitLengthBounds(w);
      if n <= BitLength(w) - 1 {
        Pow2Monotone(n, BitLength(w) - 1);
      }
    }
  }

  lemma {:induction false} Pow2Add(a: nat, b: nat)
    ensures Pow2(a + b) == Pow2(a) * Pow2(b)
  {
    if a != 0 {
      Pow2Add(a - 1, b);
      assert Pow2(a + b) == 2 * Pow2(a - 1 + b);
      assert 2 * (Pow2(a - 1) * Pow2(b)) == (2 * Pow2(a - 1)) * Pow2(b);
    }
  }

  lemma {:induction false} Pow2Values()
    ensures Pow2(6) == 64 && Pow2(14) == 16384 && Pow2(16) == 0x1_0000
    ensures Pow2(25) == 0x200_0000 && Pow2(39) == 0x80_0000_0000 && Pow2(31) == 0x8000_0000 && Pow2(32) == 0x1_0000_0000
    ensures Pow2(64) == 0x1_0000_0000_0000_0000
  {
    assert Pow2(7) == 128 && Pow2(8) == 256;
    Pow2Add(7, 7);
    Pow2Add(8, 8);
    Pow2Add(16, 8);
    Pow2Add(16, 16);
    Pow2Add(32, 32);
    Pow2Add(32, 7);
    assert Pow2(25) == 2 * Pow2(24) && Pow2(32) == 2 * Pow2(31);
  }

  lemma {:induction false} SubsetSize<T>(a: set<T>, b: set<T>)
    requires a <= b
    ensures |a| <= |b|
  {
    assert b == a + (b - a);
  }
}
