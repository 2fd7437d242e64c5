/** The running counters of the dense registers: dataclasses/sum.go and dataclasses/zerocounter.go.
    Both the atomic and the plain variants are covered; locks and atomics are erased. */
module Counters {
  import opened Bits

  /** The floating-point estimators, as arbitrary functions of what they are given: linear counting
      of its number of buckets and of empty ones (a uint64), the dense estimate of the precision, the
      harmonic sum and the zero counter. */
  datatype Estimators = Estimators(linear: (nat, nat) -> nat, dense: (nat, real, nat) -> nat)

  /** math.Ldexp(1.0, -rho), exactly. */
  function Weight(rho: nat): (w: real)
    ensures rho == 0 ==> w == 1.0
  {
    1.0 / Pow2(rho) as real
  }

  /** The weight of a register is the inverse of the power of two it stands for. */
  lemma {:induction false} WeightInverse(rho: nat)
    ensures Weight(rho) * Pow2(rho) as real == 1.0
  {
    Inverse(Pow2(rho) as real);
  }

  lemma {:induction false} Inverse(x: real)
    requires x > 0.0
    ensures 1.0 / x * x == 1.0
  {}

  /** The harmonic sum over the registers. */
  ghost function SumOf(regs: seq<nat>): real {
    if regs == [] then 0.0 else SumOf(regs[..|regs| - 1]) + Weight(regs[|regs| - 1])
  }

  ghost function ZerosIn(regs: seq<nat>): nat {
    if regs == [] then 0
    else ZerosIn(regs[..|regs| - 1]) + if regs[|regs| - 1] == 0 then 1 else 0
  }

  lemma {:induction false} SumUpdate(regs: seq<nat>, i: nat, v: nat)
    requires i < |regs|
    ensures SumOf(regs[i := v]) == SumOf(regs) - Weight(regs[i]) + Weight(v)
    ensures ZerosIn(regs[i := v]) ==
            ZerosIn(regs) - (if regs[i] == 0 then 1 else 0) + (if v == 0 then 1 else 0)
    ensures regs[i] == 0 ==> ZerosIn(regs) > 0
    decreases |regs|
  {
    var n := |regs| - 1;
    if i == n {
      assert regs[i := v][..n] == regs[..n];
    } else {
      assert regs[i := v][..n] == regs[..n][i := v];
      SumUpdate(regs[..n], i, v);
    }
  }

  lemma {:induction false} SumZeros(regs: seq<nat>)
    requires forall i | 0 <= i < |regs| :: regs[i] == 0
    ensures SumOf(regs) == |regs| as real && ZerosIn(regs) == |regs|
  {
    if regs != [] {
      SumZeros(regs[..|regs| - 1]);
    }
  }

  lemma {:induction false} ZerosAtMost(regs: seq<nat>)
    ensures ZerosIn(regs) <= |regs|
    ensures ZerosIn(regs) == |regs| <==> forall i | 0 <= i < |regs| :: regs[i] == 0
  {
    if regs != [] {
      var n := |regs| - 1;
      ZerosAtMost(regs[..n]);
      assert forall i | 0 <= i < n :: regs[..n][i] == regs[i];
    }
  }

  /** The uint16 counter shows the true number of zero registers exactly when there are fewer than
      65536 of them: always at precisions up to 15, and at 16 as soon as some register is set. */
  lemma {:induction false} ZerosReadable(regs: seq<nat>, p: nat)
    requires |regs| == Pow2(p)
    ensures ZerosIn(regs) % TWO16 == ZerosIn(regs) <==> ZerosIn(regs) < TWO16
    ensures p <= 15 ==> ZerosIn(regs) < TWO16
    ensures p == 16 ==> (ZerosIn(regs) < TWO16 <==> exists i :: 0 <= i < |regs| && regs[i] != 0)
  {
    ZerosAtMost(regs);
    Pow2Values();
    if p <= 15 {
      Pow2Monotone(p, 15);
    }
  }

  /** The 65536 zero registers of an empty sketch at precision 16 show as none, which the sketch
      takes for "every register is set". */
  lemma {:induction false} EmptyReadsAsFull(z: ZeroCounter, regs: seq<nat>)
    requires z.Valid() && |regs| == TWO16 && (forall i | 0 <= i < |regs| :: regs[i] == 0)
    requires z.Reads(ZerosIn(regs))
    ensures ZerosIn(regs) == 65536 && z.Get() == 0
  {
    SumZeros(regs);
  }

  class Sum {
    const precision: nat
    var val: real

    constructor (precision: nat, f: real)
      ensures this.precision == precision && val == f
    {
      this.precision := precision;
      val := f;
    }

    method Store(f: real)
      modifies this
      ensures val == f
    {
      val := f;
    }

    /** One register went from rho `b` to rho `a`. */
    method ChangeSum(a: nat, b: nat)
      modifies this
      ensures val == old(val) - Weight(b) + Weight(a)
    {
      val := val - Weight(b);
      val := val + Weight(a);
    }

    method Reset()
      modifies this
      ensures val == Pow2(precision) as real
    {
      val := Pow2(precision) as real;
    }
  }

  /** A counter of either width, read as a uint16, goes one up or down modulo 2^16. */
  lemma {:induction false} CountUp(val: nat, limit: nat, n: nat)
    requires (limit == TWO16 || limit == TWO32) && val < limit
    ensures (val + 1) % limit % TWO16 == (val % TWO16 + 1) % TWO16
    ensures (n % TWO16 + 1) % TWO16 == (n + 1) % TWO16
  {
    WrapAdd(1, n, TWO16);
    assert (val + 1) % limit == if val + 1 == limit then 0 else val + 1;
    WrapAdd(1, val, TWO16);
  }

  lemma {:induction false} CountDown(val: nat, limit: nat, n: nat)
    requires (limit == TWO16 || limit == TWO32) && val < limit
    ensures (val + limit - 1) % limit % TWO16 == (val % TWO16 + TWO16 - 1) % TWO16
    ensures n > 0 ==> (n % TWO16 + TWO16 - 1) % TWO16 == (n - 1) % TWO16
  {
    if n > 0 {
      WrapAdd(TWO16 - 1, n, TWO16);
    }
    WrapAdd(TWO16 - 1, val, TWO16);
    assert (val + limit - 1) % limit == if val == 0 then limit - 1 else val - 1;
  }

  class ZeroCounter {
    const precision: nat
    /** 2^32 for the atomic counter, 2^16 for the plain one; both are read as a uint16. */
    const limit: nat
    var val: nat

    ghost predicate Valid()
      reads this
    {
      (limit == TWO16 || limit == TWO32) && val < limit
    }

    constructor (precision: nat, concurrent: bool, v: nat)
      requires v < TWO16
      ensures Valid() && this.precision == precision && Get() == v && Reads(v)
    {
      this.precision := precision;
      limit := if concurrent then TWO32 else TWO16;
      val := v;
    }

    function Get(): nat
      reads this
    {
      val % TWO16
    }

    /** The counter shows `n`, as far as a uint16 can. */
    ghost predicate Reads(n: nat)
      reads this
    {
      Get() == n % TWO16
    }

    method Store(v: nat)
      requires Valid() && v < TWO16
      modifies this
      ensures Valid() && Get() == v && Reads(v)
    {
      val := v;
    }

    method Inc(ghost n: nat)
      requires Valid()
      modifies this
      ensures Valid() && Get() == (old(Get()) + 1) % TWO16
      ensures old(Reads(n)) ==> Reads(n + 1)
    {
      CountUp(val, limit, n);
      val := (val + 1) % limit;
    }

    method Dec(ghost n: nat)
      requires Valid()
      modifies this
      ensures Valid() && Get() == (old(Get()) + TWO16 - 1) % TWO16
      ensures n > 0 && old(Reads(n)) ==> Reads(n - 1)
    {
      CountDown(val, limit, n);
      val := (val + limit - 1) % limit;
    }

    method Reset()
      requires Valid()
      modifies this
      ensures Valid() && Reads(Pow2(precision))
    {
      Store(Pow2(precision) % TWO16);
    }
  }
}
