/** The online normalisation of ddos/detector/loda.go over exact reals: Welford's recurrence and the
    two-pass statistics it stands for. */
module Welford {

  const LODA_DIMS := 8

  /** Running count, mean and sum of squared deviations of one feature. */
  datatype Moments = Moments(count: nat, mean: real, m2: real)

  const NoSamples := Moments(0, 0.0, 0.0)

  function Update(s: Moments, x: real): Moments {
    var count := s.count + 1;
    var delta := x - s.mean;
    var mean := s.mean + delta / count as real;
    var delta2 := x - mean;
    Moments(count, mean, s.m2 + delta * delta2)
  }

  /** The variance that `normalize` divides by. */
  function Variance(s: Moments): real {
    if s.count > 1 then s.m2 / (s.count - 1) as real else 0.0
  }

  function Run(xs: seq<real>): Moments {
    if xs == [] then NoSamples else Update(Run(xs[..|xs| - 1]), xs[|xs| - 1])
  }

  // ----- the two-pass statistics -----

  function Total(xs: seq<real>): real {
    if xs == [] then 0.0 else Total(xs[..|xs| - 1]) + xs[|xs| - 1]
  }

  function Square(x: real): (y: real)
    ensures y >= 0.0
  {
    x * x
  }

  /** The sum of squared deviations from `c`. */
  function Deviations(xs: seq<real>, c: real): (d: real)
    ensures d >= 0.0
  {
    if xs == [] then 0.0 else Deviations(xs[..|xs| - 1], c) + Square(xs[|xs| - 1] - c)
  }

  /** The effect of moving the centre of n samples with total t from c by e. */
  function Shift(t: real, n: real, c: real, e: real): real {
    n * (e * e) - 2.0 * (e * (t - n * c))
  }

  lemma {:induction false} ShiftOneMore(t: real, n: real, c: real, e: real, x: real)
    ensures Shift(t + x, n + 1.0, c, e) == Shift(t, n, c, e) + Square(x - (c + e)) - Square(x - c)
  {
    var u, v := t - n * c, x - c;
    assert t + x - (n + 1.0) * c == u + v;
    assert e * (u + v) == e * u + e * v;
    assert (v - e) * (v - e) == v * v - 2.0 * (e * v) + e * e;
    assert (n + 1.0) * (e * e) == n * (e * e) + e * e;
    assert x - (c + e) == v - e;
  }

  /** Moving the centre by e changes the deviations by a linear and a square term. */
  lemma {:induction false} DeviationsShift(xs: seq<real>, c: real, e: real)
    ensures Deviations(xs, c + e) == Deviations(xs, c) + Shift(Total(xs), |xs| as real, c, e)
  {
    if xs != [] {
      var ys, x := xs[..|xs| - 1], xs[|xs| - 1];
      DeviationsShift(ys, c, e);
      ShiftOneMore(Total(ys), |ys| as real, c, e, x);
      assert |xs| as real == |ys| as real + 1.0;
      hide Shift, Square;
    }
  }

  /** A product the proofs below treat as a whole. */
  function Mul(a: real, b: real): real {
    a * b
  }

  lemma {:induction false} UpdateInTerms(s: Moments, x: real, n: real) returns (e: real)
    requires n == s.count as real
    ensures Update(s, x).mean == s.mean + e && x - s.mean == Mul(n + 1.0, e)
    ensures Update(s, x).m2 == s.m2 + Mul(Mul(n + 1.0, e), Mul(n, e))
  {
    var delta := x - s.mean;
    assert (s.count + 1) as real == n + 1.0;
    e := delta / (n + 1.0);
    assert (n + 1.0) * e == delta;
    assert x - (s.mean + e) == n * e;
  }

  lemma {:induction false} CentredShift(t: real, n: real, mean: real, e: real, x: real)
    requires Mul(mean, n) == t && x - mean == Mul(n + 1.0, e)
    ensures Mul(mean + e, n + 1.0) == t + x
    ensures Shift(t, n, mean, e) + Square(x - (mean + e)) == Mul(Mul(n + 1.0, e), Mul(n, e))
  {
    assert t - n * mean == 0.0;
    assert x - (mean + e) == n * e;
    assert (n * e) * (n * e) == n * (n * (e * e));
    assert (n + 1.0) * e * (n * e) == n * (n * (e * e)) + n * (e * e);
    assert (mean + e) * (n + 1.0) == mean * n + mean + (n + 1.0) * e;
  }

  /** One recurrence step takes the two-pass statistics of `ys` to those of `ys` and `x`. */
  lemma {:induction false} UpdateTwoPass(s: Moments, ys: seq<real>, x: real, n: real)
    requires s.count == |ys| && n == |ys| as real
    requires Mul(s.mean, n) == Total(ys) && s.m2 == Deviations(ys, s.mean)
    ensures Mul(Update(s, x).mean, n + 1.0) == Total(ys) + x
    ensures Update(s, x).m2 == Deviations(ys, Update(s, x).mean) + Square(x - Update(s, x).mean)
  {
    hide Shift, Square, Update, Mul;
    var e := UpdateInTerms(s, x, n);
    DeviationsShift(ys, s.mean, e);
    CentredShift(Total(ys), n, s.mean, e, x);
  }

  lemma {:induction false} RunTwoPass(xs: seq<real>)
    ensures Run(xs).count == |xs|
    ensures Mul(Run(xs).mean, |xs| as real) == Total(xs)
    ensures Run(xs).m2 == Deviations(xs, Run(xs).mean)
  {
    if xs != [] {
      var ys, x := xs[..|xs| - 1], xs[|xs| - 1];
      RunTwoPass(ys);
      UpdateTwoPass(Run(ys), ys, x, |ys| as real);
      assert Run(xs).count == |xs|;
      hide Square, Update, Mul;
      assert |xs| as real == |ys| as real + 1.0;
    }
  }

  /** After any sequence of samples the mean times the count is their sum, and m2 is the sum of
      squared deviations from that very mean, although the mean moved with every sample. */
  lemma {:induction false} RefinesTwoPass(xs: seq<real>)
    ensures Run(xs).count == |xs|
    ensures Run(xs).mean * |xs| as real == Total(xs)
    ensures Run(xs).m2 == Deviations(xs, Run(xs).mean)
  {
    RunTwoPass(xs);
    hide Run, Deviations, Total;
  }

  /** The variance used for normalisation is the sample variance, and never negative. */
  lemma {:induction false} VarianceIsSampleVariance(xs: seq<real>)
    ensures Variance(Run(xs)) >= 0.0
    ensures |xs| > 1 ==> Variance(Run(xs)) == Deviations(xs, Total(xs) / |xs| as real) / (|xs| - 1) as real
    ensures |xs| <= 1 ==> Variance(Run(xs)) == 0.0
  {
    RefinesTwoPass(xs);
    hide Run, Square;
    if |xs| > 1 {
      MeanIsQuotient(Run(xs).mean, |xs| as real, Total(xs));
      QuotientNonNegative(Run(xs).m2, (|xs| - 1) as real);
    }
  }

  lemma {:induction false} MeanIsQuotient(mean: real, n: real, t: real)
    requires n > 0.0 && mean * n == t
    ensures t / n == mean
  {}

  lemma {:induction false} QuotientNonNegative(d: real, n: real)
    requires n > 0.0 && d >= 0.0
    ensures d / n >= 0.0
  {}

  // ----- the detector's statistics -----

  class LodaStatistics {
    var count: nat
    const mean: array<real>
    const m2: array<real>

    ghost predicate Valid()
      reads this
    {
      mean != m2 && mean.Length == m2.Length == LODA_DIMS
    }

    /** The moments of feature i. */
    ghost function Feature(i: nat): Moments
      requires i < LODA_DIMS && Valid()
      reads this, mean, m2
    {
      Moments(count, mean[i], m2[i])
    }

    constructor ()
      ensures Valid() && fresh(mean) && fresh(m2)
      ensures forall i | 0 <= i < LODA_DIMS :: Feature(i) == NoSamples
    {
      mean := new real[LODA_DIMS](i => 0.0);
      m2 := new real[LODA_DIMS](i => 0.0);
      count := 0;
    }

    /** The first loop of Update: all features take one step. */
    method Observe(fv: seq<real>)
      requires Valid() && |fv| == LODA_DIMS
      modifies this, mean, m2
      ensures Valid()
      ensures forall i | 0 <= i < LODA_DIMS :: Feature(i) == Update(old(Feature(i)), fv[i])
    {
      count := count + 1;
      for i := 0 to LODA_DIMS
        invariant Valid() && count == old(count) + 1
        invariant forall k | 0 <= k < i :: Feature(k) == Update(old(Feature(k)), fv[k])
        invariant forall k | i <= k < LODA_DIMS :: mean[k] == old(mean[k]) && m2[k] == old(m2[k])
      {
        var delta := fv[i] - mean[i];
        mean[i] := mean[i] + delta / count as real;
        var delta2 := fv[i] - mean[i];
        m2[i] := m2[i] + delta * delta2;
        assert Feature(i) == Update(old(Feature(i)), fv[i]);
        hide Update;
      }
    }
  }
}
